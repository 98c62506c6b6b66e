/**
  The trust-on-first-use keyring: per principal, a list of key entries that are active, retired
  or revoked, and the five operations that change it.
 */
module Keyring {
  import opened Results
  import opened Clock
  import opened Crypto
  import opened Identity
  import Text

  datatype KeyState = Active | Retired | Revoked

  datatype KeyEntry = KeyEntry(
    key: Key,
    state: KeyState,
    validUntil: Option<string>,
    pinnedAt: Option<string>,
    stateSince: Option<string>)

  type Ring = map<Principal, seq<KeyEntry>>

  datatype KeyringError =
    | KeyRevoked
    | KeyConflict
    | NonCanonicalTimestamp
    | KeyChangeRequiresConfirmation
    | NoSuchKeyEntry
    | CannotRetire
    | RevocationBlobMalformed
    | RevocationSignerNotAuthorized
    | RevocationSignatureInvalid

  datatype Success = Done | FirstPin | AlreadyPinned | Rotated

  datatype Change = Change(ring: Ring, outcome: Result<Success, KeyringError>)

  datatype Statement = Statement(principal: string, revokedKeyId: string, revokedAt: string, reason: Option<string>)

  datatype SignedRevocation = SignedRevocation(statement: Statement, sig: string)

  /** The key-id hash, the signature decoder and the signature check, as parameters. */
  datatype Scheme = Scheme(
    keyId: Key -> string,
    decodesSignature: string -> bool,
    verifies: (Key, Statement, string) -> bool)

  function Legacy(key: Key): KeyEntry {
    KeyEntry(key, Active, None, None, None)
  }

  function EntriesOf(ring: Ring, p: Principal): seq<KeyEntry> {
    if p in ring then ring[p] else []
  }

  /** Position of the first entry in a state, as `iter().position`. */
  function FirstIn(es: seq<KeyEntry>, state: KeyState): (r: Option<nat>)
    ensures r.Some? ==> r.value < |es| && es[r.value].state == state
    ensures r.Some? ==> forall i :: 0 <= i < r.value ==> es[i].state != state
    ensures r.None? ==> forall i :: 0 <= i < |es| ==> es[i].state != state
  {
    if es == [] then None
    else if es[0].state == state then Some(0)
    else
      var r := FirstIn(es[1..], state);
      if r.None? then None else Some(r.value + 1)
  }

  function FirstWithId(scheme: Scheme, es: seq<KeyEntry>, id: string): (r: Option<nat>)
    ensures r.Some? ==> r.value < |es| && scheme.keyId(es[r.value].key) == id
    ensures r.Some? ==> forall i :: 0 <= i < r.value ==> scheme.keyId(es[i].key) != id
    ensures r.None? ==> forall i :: 0 <= i < |es| ==> scheme.keyId(es[i].key) != id
  {
    if es == [] then None
    else if scheme.keyId(es[0].key) == id then Some(0)
    else
      var r := FirstWithId(scheme, es[1..], id);
      if r.None? then None else Some(r.value + 1)
  }

  predicate HoldsIn(es: seq<KeyEntry>, key: Key, state: KeyState) {
    exists e <- es :: e.state == state && e.key == key
  }

  predicate IsCanonicalOpt(v: Option<string>) {
    v.Some? ==> IsCanonicalUtc(v.value)
  }

  // ---------------------------------------------------------------- operations

  function PinTofu(ring: Ring, p: Principal, key: Key): Change {
    var es := EntriesOf(ring, p);
    if HoldsIn(es, key, Revoked) then Change(ring, Err(KeyRevoked))
    else
      match FirstIn(es, Active)
      case Some(i) => Change(ring, if es[i].key != key then Err(KeyConflict) else Ok(Done))
      case None => Change(ring[p := es + [Legacy(key)]], Ok(Done))
  }

  function RotateTo(ring: Ring, p: Principal, key: Key, now: string, validUntil: Option<string>,
                    confirmed: bool): Change {
    var es := EntriesOf(ring, p);
    var pinned := KeyEntry(key, Active, validUntil, Some(now), None);
    if !IsCanonicalUtc(now) || !IsCanonicalOpt(validUntil) then Change(ring, Err(NonCanonicalTimestamp))
    else if HoldsIn(es, key, Revoked) then Change(ring, Err(KeyRevoked))
    else
      match FirstIn(es, Active)
      case None => Change(ring[p := es + [pinned]], Ok(FirstPin))
      case Some(i) =>
        if es[i].key == key then Change(ring, Ok(AlreadyPinned))
        else if !confirmed then Change(ring, Err(KeyChangeRequiresConfirmation))
        else
          var retired := es[i].(state := Retired, stateSince := Some(now));
          Change(ring[p := es[i := retired] + [pinned]], Ok(Rotated))
  }

  function Retire(scheme: Scheme, ring: Ring, p: Principal, id: string): Change {
    var es := EntriesOf(ring, p);
    match FirstWithId(scheme, es, id)
    case None => Change(ring, Err(NoSuchKeyEntry))
    case Some(i) =>
      if !es[i].state.Retired? then Change(ring, Err(CannotRetire))
      else
        var rest := es[..i] + es[i + 1..];
        Change(if rest == [] then ring - {p} else ring[p := rest], Ok(Done))
  }

  function Revoke(scheme: Scheme, ring: Ring, p: Principal, id: string, now: string): Change {
    var es := EntriesOf(ring, p);
    if !IsCanonicalUtc(now) then Change(ring, Err(NonCanonicalTimestamp))
    else
      match FirstWithId(scheme, es, id)
      case None => Change(ring, Err(NoSuchKeyEntry))
      case Some(i) =>
        if es[i].state.Revoked? then Change(ring, Ok(Done))
        else Change(ring[p := es[i := es[i].(state := Revoked, stateSince := Some(now))]], Ok(Done))
  }

  /** May this entry sign a revocation of `id`: not revoked, and active or the named key itself. */
  predicate MaySign(scheme: Scheme, e: KeyEntry, id: string) {
    !e.state.Revoked? && (e.state.Active? || scheme.keyId(e.key) == id)
  }

  predicate IsAuthorized(scheme: Scheme, es: seq<KeyEntry>, signed: SignedRevocation) {
    exists e <- es ::
      MaySign(scheme, e, signed.statement.revokedKeyId) && scheme.verifies(e.key, signed.statement, signed.sig)
  }

  function ApplySignedRevocation(scheme: Scheme, ring: Ring, signed: SignedRevocation, now: string): Change {
    var st := signed.statement;
    if !IsCanonicalUtc(now) || !IsCanonicalUtc(st.revokedAt) then Change(ring, Err(NonCanonicalTimestamp))
    else
      match ParsePrincipal(st.principal)
      case Err(_) => Change(ring, Err(RevocationBlobMalformed))
      case Ok(p) =>
        var es := EntriesOf(ring, p);
        if FirstWithId(scheme, es, st.revokedKeyId).None? then Change(ring, Err(NoSuchKeyEntry))
        else if !exists e <- es :: MaySign(scheme, e, st.revokedKeyId) then
          Change(ring, Err(RevocationSignerNotAuthorized))
        else if !scheme.decodesSignature(signed.sig) || !IsAuthorized(scheme, es, signed) then
          Change(ring, Err(RevocationSignatureInvalid))
        else Revoke(scheme, ring, p, st.revokedKeyId, st.revokedAt)
  }

  // ---------------------------------------------------------------- lookup

  datatype Lookup =
    | Usable(key: Key)
    | Unpinned
    | Expired(validUntil: string)
    | RetiredAt(at: Option<string>)
    | RevokedAt(at: Option<string>)
    | NonCanonicalNow

  function ActiveKey(ring: Ring, p: Principal, now: string): Lookup {
    var es := EntriesOf(ring, p);
    if !IsCanonicalUtc(now) then NonCanonicalNow
    else
      match FirstIn(es, Active)
      case Some(i) =>
        if es[i].validUntil.Some? && Text.LessOrEqual(es[i].validUntil.value, now) then Expired(es[i].validUntil.value)
        else Usable(es[i].key)
      case None =>
        match FirstIn(es, Revoked)
        case Some(i) => RevokedAt(es[i].stateSince)
        case None =>
          match FirstIn(es, Retired)
          case Some(i) => RetiredAt(es[i].stateSince)
          case None => Unpinned
  }

  /** The presence check, with no validity window. */
  function Get(ring: Ring, p: Principal): Option<Key> {
    match FirstIn(EntriesOf(ring, p), Active)
    case Some(i) => Some(EntriesOf(ring, p)[i].key)
    case None => None
  }

  // ---------------------------------------------------------------- the object

  /** The keyring object; every operation is the corresponding change of its map. */
  class KeyringObject {
    const scheme: Scheme
    var ring: Ring

    constructor (scheme: Scheme)
      ensures ring == map[] && this.scheme == scheme
    {
      this.scheme := scheme;
      ring := map[];
    }

    method Pin(p: Principal, key: Key) returns (outcome: Result<Success, KeyringError>)
      modifies this
      ensures Change(ring, outcome) == PinTofu(old(ring), p, key)
    {
      if p in ring {
        var es := ring[p];
        if HoldsIn(es, key, Revoked) { return Err(KeyRevoked); }
        var active := FirstIn(es, Active);
        if active.Some? {
          if es[active.value].key != key { return Err(KeyConflict); }
          return Ok(Done);
        }
      }
      if p !in ring { ring := ring[p := []]; }
      ring := ring[p := ring[p] + [Legacy(key)]];
      return Ok(Done);
    }

    method Rotate(p: Principal, key: Key, now: string, validUntil: Option<string>, confirmed: bool)
      returns (outcome: Result<Success, KeyringError>)
      modifies this
      ensures Change(ring, outcome) == RotateTo(old(ring), p, key, now, validUntil, confirmed)
    {
      if !IsCanonicalUtc(now) { return Err(NonCanonicalTimestamp); }
      if validUntil.Some? && !IsCanonicalUtc(validUntil.value) { return Err(NonCanonicalTimestamp); }
      if p in ring && HoldsIn(ring[p], key, Revoked) { return Err(KeyRevoked); }
      ghost var was := ring;
      if p !in ring { ring := ring[p := []]; }
      var active := FirstIn(ring[p], Active);
      if active.None? {
        ring := ring[p := ring[p] + [KeyEntry(key, Active, validUntil, Some(now), None)]];
        return Ok(FirstPin);
      }
      assert ring == was;
      var i := active.value;
      if ring[p][i].key == key { return Ok(AlreadyPinned); }
      if !confirmed { return Err(KeyChangeRequiresConfirmation); }
      var previous := ring[p][i];
      ring := ring[p := ring[p][i := KeyEntry(previous.key, Retired, previous.validUntil, previous.pinnedAt,
                                              Some(now))]];
      ring := ring[p := ring[p] + [KeyEntry(key, Active, validUntil, Some(now), None)]];
      return Ok(Rotated);
    }

    method RetireKey(p: Principal, id: string) returns (outcome: Result<Success, KeyringError>)
      modifies this
      ensures Change(ring, outcome) == Retire(scheme, old(ring), p, id)
    {
      if p !in ring { return Err(NoSuchKeyEntry); }
      var found := FirstWithId(scheme, ring[p], id);
      if found.None? { return Err(NoSuchKeyEntry); }
      var i := found.value;
      if !ring[p][i].state.Retired? { return Err(CannotRetire); }
      ghost var was := ring;
      ring := ring[p := ring[p][..i] + ring[p][i + 1..]];
      if ring[p] == [] {
        ring := ring - {p};
        assert ring == was - {p};
      }
      return Ok(Done);
    }

    method RevokeKey(p: Principal, id: string, now: string) returns (outcome: Result<Success, KeyringError>)
      modifies this
      ensures Change(ring, outcome) == Revoke(scheme, old(ring), p, id, now)
    {
      if !IsCanonicalUtc(now) { return Err(NonCanonicalTimestamp); }
      if p !in ring { return Err(NoSuchKeyEntry); }
      var found := FirstWithId(scheme, ring[p], id);
      if found.None? { return Err(NoSuchKeyEntry); }
      var i := found.value;
      if ring[p][i].state.Revoked? { return Ok(Done); }
      ring := ring[p := ring[p][i := ring[p][i].(state := Revoked, stateSince := Some(now))]];
      return Ok(Done);
    }

    method ApplyRevocation(signed: SignedRevocation, now: string) returns (outcome: Result<Success, KeyringError>)
      modifies this
      ensures Change(ring, outcome) == ApplySignedRevocation(scheme, old(ring), signed, now)
    {
      if !IsCanonicalUtc(now) { return Err(NonCanonicalTimestamp); }
      var st := signed.statement;
      if !IsCanonicalUtc(st.revokedAt) { return Err(NonCanonicalTimestamp); }
      var parsed := ParsePrincipal(st.principal);
      if parsed.Err? { return Err(RevocationBlobMalformed); }
      var p := parsed.value;
      var es := EntriesOf(ring, p);
      if es == [] { return Err(NoSuchKeyEntry); }
      if FirstWithId(scheme, es, st.revokedKeyId).None? { return Err(NoSuchKeyEntry); }
      var candidates := set e | e in es && MaySign(scheme, e, st.revokedKeyId) :: e.key;
      assert forall e <- es :: MaySign(scheme, e, st.revokedKeyId) ==> e.key in candidates;
      if candidates == {} { return Err(RevocationSignerNotAuthorized); }
      var k :| k in candidates;
      assert exists e <- es :: MaySign(scheme, e, st.revokedKeyId);
      if !scheme.decodesSignature(signed.sig) { return Err(RevocationSignatureInvalid); }
      var verified := exists c <- candidates :: scheme.verifies(c, st, signed.sig);
      assert verified <==> IsAuthorized(scheme, es, signed) by {
        if IsAuthorized(scheme, es, signed) {
          var e :| e in es && MaySign(scheme, e, st.revokedKeyId) && scheme.verifies(e.key, st, signed.sig);
          assert e.key in candidates;
        }
      }
      if !verified { return Err(RevocationSignatureInvalid); }
      outcome := RevokeKey(p, st.revokedKeyId, st.revokedAt);
    }
  }
}
