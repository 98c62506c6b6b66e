/** Key material as the model sees it: a verifying key is its strict base64url text. */
module Crypto {

  datatype Key = Key(text: string)
}
