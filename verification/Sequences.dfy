/** Facts about sequences that several modules need. */
module Sequences {
  lemma Associates<T>(a: seq<T>, b: seq<T>, c: seq<T>)
    ensures (a + b) + c == a + (b + c)
  {
  }

  lemma CutAgain<T>(s: seq<T>, j: nat, n: nat)
    requires j + n <= |s|
    ensures s[j..] == s[j..][..n] + s[j + n..]
  {
  }
}
