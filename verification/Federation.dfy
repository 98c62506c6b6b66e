/**
  The cross-host relay: egress adds the federation wrapper and signs, ingress guards, verifies,
  strips and delivers. JSON objects are finite maps; serialization is taken to be faithful, and
  the signature scheme, the time parser and the typed schema are parameters.
 */
module Federation {
  import opened Results
  import opened Clock
  import opened Crypto
  import opened Identity
  import opened IngressGuard
  import Keyring
  import Text

  datatype Json =
    | Null
    | Bool(b: bool)
    | Number(n: int)
    | Str(s: string)
    | Arr(items: seq<Json>)
    | Obj(fields: map<string, Json>)

  type Object = map<string, Json>

  datatype SecretKey = SecretKey(seed: string)

  /** The foreign pieces: signatures over objects, RFC 3339 parsing, and the typed wire schema. */
  datatype World = World(
    publicOf: SecretKey -> Key,
    canSign: Object -> bool,
    sign: (SecretKey, Object) -> string,
    decodesSignature: string -> bool,
    verifies: (Key, Object, string) -> bool,
    keyId: Key -> string,
    parseTime: string -> Option<Instant>,
    fitsSchema: Object -> bool)

  /** What can be signed verifies. */
  ghost predicate SignaturesComplete(w: World) {
    forall sk, v :: w.canSign(v) ==>
                      w.decodesSignature(w.sign(sk, v)) && w.verifies(w.publicOf(sk), v, w.sign(sk, v))
  }

  /** One signature does not verify two different values under one key. */
  ghost predicate SignaturesBind(w: World) {
    forall vk, v, v', sig :: w.verifies(vk, v, sig) && w.verifies(vk, v', sig) ==> v == v'
  }

  const SIGNATURE: string := "signature"
  const FAMP_VERSION: string := "0.5.2"

  const FEDERATION_FIELDS: seq<string> :=
    ["from_domain", "to_domain", "sender_key_id", "nonce", "expiry", "capability", "approval"]

  const WRAPPER_FIELDS: seq<string> := [SIGNATURE] + FEDERATION_FIELDS

  function FederationSet(): set<string> {
    {"from_domain", "to_domain", "sender_key_id", "nonce", "expiry", "capability", "approval"}
  }

  /** The eight keys that never reach the local bus. */
  function WrapperSet(): set<string> {
    {SIGNATURE} + FederationSet()
  }

  /** A JSON value that changes in place. */
  class Cell {
    var value: Json

    constructor (value: Json)
      ensures this.value == value
    {
      this.value := value;
    }
  }

  // ---------------------------------------------------------------- egress

  /** What the gateway decides for one outgoing envelope: minted nonce, expiry text, its own keys. */
  datatype Stamp = Stamp(from: Principal, to: Principal, sk: SecretKey, vk: Key, nonce: string, expiry: string)

  /** The value that is signed: the drained object with the five gateway-written fields. */
  function Wrapped(w: World, o: Object, st: Stamp): Object {
    o["from_domain" := Str(st.from.authority)]["to_domain" := Str(st.to.authority)]
     ["sender_key_id" := Str(w.keyId(st.vk))]["nonce" := Str(st.nonce)]["expiry" := Str(st.expiry)]
  }

  function SignedObject(w: World, o: Object, st: Stamp): Object {
    if SIGNATURE in o then o
    else Wrapped(w, o, st)[SIGNATURE := Str(w.sign(st.sk, Wrapped(w, o, st)))]
  }

  datatype EgressError =
    | NotAnObject
    | MissingField
    | BadPrincipal
    | FromDomainMismatch
    | ClientSuppliedFederationField
    | ExpiryFormat
    | SignFailed
    | TransportFailed

  /** What in-place signing does to a value, and its result; `expiry` is `None` when it cannot be formatted. */
  function Signing(w: World, v: Json, from: Principal, to: Principal, sk: SecretKey, vk: Key,
                   nonce: string, expiry: Option<string>): (Json, Result<(), EgressError>)
  {
    if !v.Obj? then (v, Err(NotAnObject))
    else if SIGNATURE in v.fields then (v, Ok(()))
    else if expiry.None? then (v, Err(ExpiryFormat))
    else
      var st := Stamp(from, to, sk, vk, nonce, expiry.value);
      if !w.canSign(Wrapped(w, v.fields, st)) then (Obj(Wrapped(w, v.fields, st)), Err(SignFailed))
      else (Obj(SignedObject(w, v.fields, st)), Ok(()))
  }

  /**
    Federation-sign in place. A signed value is left alone, and so is one whose expiry cannot be
    formatted; when signing itself fails, the five fields are already in.
   */
  method SignFederationFields(w: World, cell: Cell, from: Principal, to: Principal, sk: SecretKey, vk: Key,
                              nonce: string, expiry: Option<string>) returns (r: Result<(), EgressError>)
    modifies cell
    ensures (cell.value, r) == Signing(w, old(cell.value), from, to, sk, vk, nonce, expiry)
  {
    if !cell.value.Obj? { return Err(NotAnObject); }
    if SIGNATURE in cell.value.fields { return Ok(()); }
    if expiry.None? { return Err(ExpiryFormat); }
    cell.value := Obj(cell.value.fields["from_domain" := Str(from.authority)]);
    cell.value := Obj(cell.value.fields["to_domain" := Str(to.authority)]);
    cell.value := Obj(cell.value.fields["sender_key_id" := Str(w.keyId(vk))]);
    cell.value := Obj(cell.value.fields["nonce" := Str(nonce)]);
    cell.value := Obj(cell.value.fields["expiry" := Str(expiry.value)]);
    if !w.canSign(cell.value.fields) { return Err(SignFailed); }
    var signature := w.sign(sk, cell.value.fields);
    cell.value := Obj(cell.value.fields[SIGNATURE := Str(signature)]);
    return Ok(());
  }

  /** A string field parsed as a principal. */
  function PrincipalField(v: Json, field: string): Result<Principal, EgressError> {
    if !v.Obj? || field !in v.fields || !v.fields[field].Str? then Err(MissingField)
    else
      match ParsePrincipal(v.fields[field].s)
      case Ok(p) => Ok(p)
      case Err(_) => Err(BadPrincipal)
  }

  predicate CarriesFederationField(o: Object) {
    exists f <- FederationSet() :: f in o
  }

  /** The checks before signing: own domain only, and no client-supplied federation field. */
  function RelayCheck(v: Json, ownDomain: string): Result<(Principal, Principal), EgressError> {
    var from, to := PrincipalField(v, "from"), PrincipalField(v, "to");
    if from.Err? then Err(from.error)
    else if to.Err? then Err(to.error)
    else if from.value.authority != ownDomain then Err(FromDomainMismatch)
    else if v.Obj? && CarriesFederationField(v.fields) then Err(ClientSuppliedFederationField)
    else Ok((from.value, to.value))
  }

  /** `relay_one`: check, sign in place, send. What the transport says comes after the value is signed. */
  method RelayOne(w: World, cell: Cell, ownDomain: string, sk: SecretKey, vk: Key,
                  nonce: string, expiry: Option<string>, isSent: bool) returns (r: Result<(), EgressError>)
    modifies cell
    ensures var check := RelayCheck(old(cell.value), ownDomain);
            if check.Err? then r == Err(check.error) && cell.value == old(cell.value)
            else
              var signing := Signing(w, old(cell.value), check.value.0, check.value.1, sk, vk, nonce, expiry);
              cell.value == signing.0 && r == if signing.1.Ok? && !isSent then Err(TransportFailed) else signing.1
    ensures r.Ok? ==> cell.value.Obj? && SIGNATURE in cell.value.fields && isSent
  {
    var check := RelayCheck(cell.value, ownDomain);
    if check.Err? { return Err(check.error); }
    r := SignFederationFields(w, cell, check.value.0, check.value.1, sk, vk, nonce, expiry);
    if r.Ok? && !isSent { r := Err(TransportFailed); }
  }

  // ---------------------------------------------------------------- stripping

  function Stripped(o: Object): Object { o - WrapperSet() }

  method StripRelayFields(cell: Cell)
    modifies cell
    ensures cell.value == if old(cell.value).Obj? then Obj(Stripped(old(cell.value).fields)) else old(cell.value)
  {
    if cell.value.Obj? {
      ghost var was := cell.value.fields;
      for i := 0 to |WRAPPER_FIELDS|
        invariant cell.value.Obj? && cell.value.fields == was - (set k | k in WRAPPER_FIELDS[..i])
      {
        assert WRAPPER_FIELDS[..i + 1] == WRAPPER_FIELDS[..i] + [WRAPPER_FIELDS[i]];
        cell.value := Obj(cell.value.fields - {WRAPPER_FIELDS[i]});
      }
      assert WRAPPER_FIELDS[..|WRAPPER_FIELDS|] == WRAPPER_FIELDS;
      WrapperFieldsAreTheSet();
    }
  }

  lemma WrapperFieldsAreTheSet()
    ensures (set k | k in WRAPPER_FIELDS) == WrapperSet()
  {
  }

  // ---------------------------------------------------------------- ingress

  datatype IngressError =
    | GuardRejected(why: Reject)
    | InvalidSignature
    | UnpinnedKey
    | ExpiredKey
    | RevokedKey
    | MisaddressedRecipient
    | MalformedFederationFields
    | SenderGone
    | Internal

  /** What is put on the local bus, and through whose connection. */
  datatype Delivery = Delivery(sender: string, recipient: string, envelope: Object)

  /** A receiving gateway. Its registry is read twice, once for the gates and once to deliver. */
  datatype Site = Site(ownDomain: string, backed: set<string>, backedAtDelivery: set<string>, ring: Keyring.Ring)

  function StringField(o: Object, field: string): Option<string> {
    if field in o && o[field].Str? then Some(o[field].s) else None
  }

  /** Present and not a string: refused by the peek. */
  predicate IsOddlyTyped(o: Object, field: string) {
    field in o && !o[field].Str?
  }

  /** The fields peeked from unverified bytes; `None` is a malformed shape. */
  function Peek(w: World, v: Json): Option<Peeked> {
    if !v.Obj? then None
    else
      var from, to, ts := PrincipalField(v, "from"), PrincipalField(v, "to"), StringField(v.fields, "ts");
      if from.Err? || to.Err? || ts.None? || IsOddlyTyped(v.fields, "nonce") || IsOddlyTyped(v.fields, "expiry")
      then None
      else Some(Peeked(from.value, to.value, w.parseTime(ts.value), StringField(v.fields, "nonce")))
  }

  function InputFor(w: World, site: Site, peeked: Peeked, now: string): GuardInput {
    GuardInput(peeked, w.parseTime(now), site.ownDomain, peeked.from.name in site.backed)
  }

  predicate IsKnownClass(o: Object) {
    StringField(o, "class") in {Some("request"), Some("commit"), Some("deliver"), Some("ack"), Some("control"),
                                Some("audit_log")}
  }

  /** `decode_value`: the signature is taken out first and verified over everything else. */
  predicate Decodes(w: World, vk: Key, o: Object) {
    && IsKnownClass(o)
    && StringField(o, SIGNATURE).Some?
    && w.decodesSignature(StringField(o, SIGNATURE).value)
    && w.verifies(vk, o - {SIGNATURE}, StringField(o, SIGNATURE).value)
    && StringField(o, "famp") == Some(FAMP_VERSION)
    && w.fitsSchema(o - {SIGNATURE})
  }

  /** `verify_inbound_any` for a peeked sender. */
  function VerifyInbound(w: World, ring: Keyring.Ring, from: Principal, o: Object, now: string): Option<IngressError> {
    match Keyring.ActiveKey(ring, from, now)
    case Usable(vk) => if Decodes(w, vk, o) then None else Some(InvalidSignature)
    case Expired(_) => Some(ExpiredKey)
    case RevokedAt(_) => Some(RevokedKey)
    case _ => Some(UnpinnedKey)
  }

  /** The envelope crate's canonical form: separators and a final Z, digits not checked. */
  predicate IsCanonicalForm(v: string) {
    |v| == 20 && v[4] == '-' && v[7] == '-' && v[10] == 'T' && v[13] == ':' && v[16] == ':' && v[19] == 'Z'
  }

  /** `federation_format_ok`: a nonce is not empty, an expiry is canonical and after `ts`. */
  predicate IsFormatOk(o: Object) {
    var nonce, expiry, ts := StringField(o, "nonce"), StringField(o, "expiry"), StringField(o, "ts");
    && (nonce.Some? ==> nonce.value != "")
    && (expiry.Some? ==> && ts.Some? && IsCanonicalForm(expiry.value) && IsCanonicalForm(ts.value)
                         && Text.Less(ts.value, expiry.value))
  }

  datatype Ingested = Ingested(guard: Guard, result: Result<Delivery, IngressError>)

  /** `ingest_inbound_at`: peek, cheap gates, verify, audience and format, strip and deliver. */
  ghost function Ingest(w: World, site: Site, g: Guard, recipient: Principal, v: Json, now: string): Ingested {
    match Peek(w, v)
    case None => Ingested(g, Err(GuardRejected(BadEnvelopeShape)))
    case Some(peeked) =>
      var gates := Gates(g, InputFor(w, site, peeked, now));
      if gates.reject.Some? then Ingested(gates.guard, Err(GuardRejected(gates.reject.value)))
      else
        var failure := VerifyInbound(w, site.ring, peeked.from, v.fields, now);
        if failure.Some? then Ingested(gates.guard, Err(failure.value))
        else if peeked.to != recipient then Ingested(gates.guard, Err(MisaddressedRecipient))
        else if !IsFormatOk(v.fields) then Ingested(gates.guard, Err(MalformedFederationFields))
        else if peeked.from.name !in site.backedAtDelivery then Ingested(gates.guard, Err(SenderGone))
        else Ingested(gates.guard, Ok(Delivery(peeked.from.name, recipient.name, Stripped(v.fields))))
  }

  /** The handler: what it sends on the bus, and its answer, which also depends on the bus's reply. */
  method IngestInbound(w: World, site: Site, guard: GuardState, recipient: Principal, v: Json, now: string,
                       isTaken: bool)
    returns (sent: Option<Delivery>, r: Result<(), IngressError>)
    modifies guard.replay, guard.rate
    ensures var ingested := Ingest(w, site, old(guard.Value()), recipient, v, now);
            && guard.Value() == ingested.guard
            && sent == (if ingested.result.Ok? then Some(ingested.result.value) else None)
            && r == (if ingested.result.Err? then Err(ingested.result.error)
                     else if isTaken then Ok(()) else Err(Internal))
  {
    var peeked := Peek(w, v);
    if peeked.None? { return None, Err(GuardRejected(BadEnvelopeShape)); }
    var from := peeked.value.from;
    var reject := guard.RunCheapGates(InputFor(w, site, peeked.value, now));
    if reject.Some? { return None, Err(GuardRejected(reject.value)); }
    var failure := VerifyInbound(w, site.ring, from, v.fields, now);
    if failure.Some? { return None, Err(failure.value); }
    if peeked.value.to != recipient { return None, Err(MisaddressedRecipient); }
    if !IsFormatOk(v.fields) { return None, Err(MalformedFederationFields); }
    var cell := new Cell(v);
    StripRelayFields(cell);
    if from.name !in site.backedAtDelivery { return None, Err(SenderGone); }
    sent := Some(Delivery(from.name, recipient.name, cell.value.fields));
    return sent, if isTaken then Ok(()) else Err(Internal);
  }
}
