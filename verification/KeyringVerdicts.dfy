/** What the keyring answers: every refusal, success and lookup says what holds, and all of it. */
module KeyringVerdicts {
  import opened Results
  import opened Clock
  import opened Crypto
  import opened Identity
  import opened Keyring
  import opened KeyringRuns
  import Text

  // ---------------------------------------------------------------- positions

  /** Entry `i` is the first in its state. */
  ghost predicate IsFirst(es: seq<KeyEntry>, state: KeyState, i: nat) {
    i < |es| && es[i].state == state && forall j :: 0 <= j < i ==> es[j].state != state
  }

  predicate NoneIn(es: seq<KeyEntry>, state: KeyState) {
    forall e <- es :: e.state != state
  }

  /** Entry `i` is the first whose key has this id. */
  ghost predicate IsNamed(scheme: Scheme, es: seq<KeyEntry>, id: string, i: nat) {
    i < |es| && scheme.keyId(es[i].key) == id && forall j :: 0 <= j < i ==> scheme.keyId(es[j].key) != id
  }

  // ---------------------------------------------------------------- refusals

  /** The timestamps an operation is given. */
  function StampsOf(op: Op): seq<string> {
    match op
    case OpRotate(_, _, now, vu, _) => if vu.Some? then [now, vu.value] else [now]
    case OpRevoke(_, _, now) => [now]
    case OpApply(signed, now) => [now, signed.statement.revokedAt]
    case _ => []
  }

  /** The id an operation names, if it names one. */
  function IdOf(op: Op): Option<string> {
    match op
    case OpRetire(_, id) => Some(id)
    case OpRevoke(_, id, _) => Some(id)
    case OpApply(signed, _) => Some(signed.statement.revokedKeyId)
    case _ => None
  }

  /** The key an operation would make active, if it would. */
  function OfferOf(op: Op): Option<Key> {
    if op.OpPin? || op.OpRotate? then Some(op.key) else None
  }

  /** Another key than the one offered is active. */
  predicate Displaces(ring: Ring, op: Op) {
    OfferOf(op).Some? && Get(ring, op.p).Some? && Get(ring, op.p) != OfferOf(op)
  }

  /** A signer of a revocation: an active key, or the named key itself unless that is revoked already. */
  predicate IsSigner(scheme: Scheme, e: KeyEntry, id: string) {
    e.state == Active || (e.state == Retired && scheme.keyId(e.key) == id)
  }

  /** What each refusal says of an operation, whatever else is wrong with it. */
  ghost predicate HasFault(scheme: Scheme, ring: Ring, op: Op, why: KeyringError) {
    var es := if SubjectOf(op).Some? then EntriesOf(ring, SubjectOf(op).value) else [];
    match why
    case NonCanonicalTimestamp => exists t <- StampsOf(op) :: !IsCanonicalUtc(t)
    case RevocationBlobMalformed => SubjectOf(op).None?
    case KeyRevoked => OfferOf(op).Some? && exists e <- es :: e.state == Revoked && e.key == OfferOf(op).value
    case KeyConflict => op.OpPin? && Displaces(ring, op)
    case KeyChangeRequiresConfirmation => op.OpRotate? && !op.confirmed && Displaces(ring, op)
    case NoSuchKeyEntry => IdOf(op).Some? && forall e <- es :: scheme.keyId(e.key) != IdOf(op).value
    case CannotRetire => op.OpRetire? && exists i: nat :: IsNamed(scheme, es, op.id, i) && es[i].state != Retired
    case RevocationSignerNotAuthorized => op.OpApply? && forall e <- es :: !IsSigner(scheme, e, IdOf(op).value)
    case RevocationSignatureInvalid =>
      && op.OpApply?
      && (|| !scheme.decodesSignature(op.signed.sig)
          || forall e <- es | IsSigner(scheme, e, IdOf(op).value) ::
               !scheme.verifies(e.key, op.signed.statement, op.signed.sig))
  }

  /** The order of the checks, over all five operations. */
  function Rank(why: KeyringError): nat {
    match why
    case NonCanonicalTimestamp => 1
    case RevocationBlobMalformed => 2
    case KeyRevoked => 3
    case KeyConflict => 4
    case KeyChangeRequiresConfirmation => 5
    case NoSuchKeyEntry => 6
    case CannotRetire => 7
    case RevocationSignerNotAuthorized => 8
    case RevocationSignatureInvalid => 9
  }

  /** The refusal is of a fault the operation has and, of all it has, the one first in order. */
  ghost predicate TellsFirstFault(scheme: Scheme, ring: Ring, op: Op) {
    var c := Apply(scheme, ring, op);
    && (c.outcome.Ok? <==> forall e :: !HasFault(scheme, ring, op, e))
    && (c.outcome.Err? ==>
          && c.ring == ring && HasFault(scheme, ring, op, c.outcome.error)
          && forall e | HasFault(scheme, ring, op, e) :: Rank(c.outcome.error) <= Rank(e))
  }

  lemma OfferTells(scheme: Scheme, ring: Ring, op: Op)
    requires op.OpPin? || op.OpRotate?
    ensures TellsFirstFault(scheme, ring, op)
  {
    assert HasFault(scheme, ring, op, KeyRevoked) <==> HoldsIn(EntriesOf(ring, op.p), op.key, Revoked);
    if op.OpRotate? { RotateStamps(scheme, ring, op); }
    var c := Apply(scheme, ring, op);
    if c.outcome.Err? { assert HasFault(scheme, ring, op, c.outcome.error); }
  }

  lemma RotateStamps(scheme: Scheme, ring: Ring, op: Op)
    requires op.OpRotate?
    ensures HasFault(scheme, ring, op, NonCanonicalTimestamp)
            <==> !IsCanonicalUtc(op.now) || !IsCanonicalOpt(op.validUntil)
  {
    assert op.now in StampsOf(op) && (op.validUntil.Some? ==> op.validUntil.value in StampsOf(op));
  }

  lemma NamedIsFound(scheme: Scheme, es: seq<KeyEntry>, id: string)
    ensures FirstWithId(scheme, es, id).None? <==> forall e <- es :: scheme.keyId(e.key) != id
    ensures forall i: nat :: IsNamed(scheme, es, id, i) <==> FirstWithId(scheme, es, id) == Some(i)
  {
  }

  lemma RetireTells(scheme: Scheme, ring: Ring, op: Op)
    requires op.OpRetire?
    ensures TellsFirstFault(scheme, ring, op)
  {
    NamedIsFound(scheme, EntriesOf(ring, op.p), op.id);
    var c := Apply(scheme, ring, op);
    if c.outcome.Err? { assert HasFault(scheme, ring, op, c.outcome.error); }
  }

  lemma RevokeTells(scheme: Scheme, ring: Ring, op: Op)
    requires op.OpRevoke?
    ensures TellsFirstFault(scheme, ring, op)
  {
    NamedIsFound(scheme, EntriesOf(ring, op.p), op.id);
    assert op.now in StampsOf(op);
    var c := Apply(scheme, ring, op);
    if c.outcome.Err? { assert HasFault(scheme, ring, op, c.outcome.error); }
  }

  /** The faults of a signed revocation of a principal that parses, as the checks put them. */
  lemma SignedFaults(scheme: Scheme, ring: Ring, op: Op, es: seq<KeyEntry>)
    requires op.OpApply? && SubjectOf(op).Some? && es == EntriesOf(ring, SubjectOf(op).value)
    ensures var id := op.signed.statement.revokedKeyId;
            && (HasFault(scheme, ring, op, NoSuchKeyEntry) <==> FirstWithId(scheme, es, id).None?)
            && (HasFault(scheme, ring, op, RevocationSignerNotAuthorized)
                <==> !exists e <- es :: MaySign(scheme, e, id))
            && (HasFault(scheme, ring, op, RevocationSignatureInvalid)
                <==> !scheme.decodesSignature(op.signed.sig) || !IsAuthorized(scheme, es, op.signed))
  {
    var id := op.signed.statement.revokedKeyId;
    NamedIsFound(scheme, es, id);
    assert forall e <- es :: MaySign(scheme, e, id) <==> IsSigner(scheme, e, id);
  }

  lemma SignedStamps(scheme: Scheme, ring: Ring, op: Op)
    requires op.OpApply?
    ensures HasFault(scheme, ring, op, NonCanonicalTimestamp)
            <==> !IsCanonicalUtc(op.now) || !IsCanonicalUtc(op.signed.statement.revokedAt)
  {
    assert op.now in StampsOf(op) && op.signed.statement.revokedAt in StampsOf(op);
  }

  /** A signed revocation has no fault that only another operation can have. */
  lemma SignedHasNoOther(scheme: Scheme, ring: Ring, op: Op, e: KeyringError)
    requires op.OpApply? && HasFault(scheme, ring, op, e)
    ensures e.NonCanonicalTimestamp? || e.RevocationBlobMalformed? || e.NoSuchKeyEntry?
            || e.RevocationSignerNotAuthorized? || e.RevocationSignatureInvalid?
  {
  }

  lemma SignedOutcome(scheme: Scheme, ring: Ring, op: Op)
    requires op.OpApply?
    ensures Apply(scheme, ring, op).outcome
            == if HasFault(scheme, ring, op, NonCanonicalTimestamp) then Err(NonCanonicalTimestamp)
               else if HasFault(scheme, ring, op, RevocationBlobMalformed) then Err(RevocationBlobMalformed)
               else if HasFault(scheme, ring, op, NoSuchKeyEntry) then Err(NoSuchKeyEntry)
               else if HasFault(scheme, ring, op, RevocationSignerNotAuthorized) then Err(RevocationSignerNotAuthorized)
               else if HasFault(scheme, ring, op, RevocationSignatureInvalid) then Err(RevocationSignatureInvalid)
               else Ok(Done)
  {
    SignedStamps(scheme, ring, op);
    if SubjectOf(op).Some? { SignedFaults(scheme, ring, op, EntriesOf(ring, SubjectOf(op).value)); }
  }

  lemma RefusalChangesNothing(scheme: Scheme, ring: Ring, op: Op)
    ensures Apply(scheme, ring, op).outcome.Err? ==> Apply(scheme, ring, op).ring == ring
  {
  }

  lemma SignedTells(scheme: Scheme, ring: Ring, op: Op)
    requires op.OpApply?
    ensures TellsFirstFault(scheme, ring, op)
  {
    SignedOutcome(scheme, ring, op);
    RefusalChangesNothing(scheme, ring, op);
    var r := Apply(scheme, ring, op).outcome;
    forall e | HasFault(scheme, ring, op, e) ensures r.Err? && Rank(r.error) <= Rank(e) {
      SignedHasNoOther(scheme, ring, op, e);
    }
    if r.Err? { assert HasFault(scheme, ring, op, r.error); }
  }

  /**
    A refused operation changes nothing and is told a fault it has, the first in the order of the
    checks; an operation goes through exactly when it has none.
   */
  lemma FirstFaultIsReported(scheme: Scheme, ring: Ring, op: Op)
    ensures TellsFirstFault(scheme, ring, op)
  {
    match op
    case OpPin(_, _) => OfferTells(scheme, ring, op);
    case OpRotate(_, _, _, _, _) => OfferTells(scheme, ring, op);
    case OpRetire(_, _) => RetireTells(scheme, ring, op);
    case OpRevoke(_, _, _) => RevokeTells(scheme, ring, op);
    case OpApply(_, _) => SignedTells(scheme, ring, op);
  }

  /** A successful rotation tells what was active before it. */
  lemma RotationTellsWhatWas(ring: Ring, p: Principal, key: Key, now: string, validUntil: Option<string>,
                             confirmed: bool)
    requires RotateTo(ring, p, key, now, validUntil, confirmed).outcome.Ok?
    ensures var c := RotateTo(ring, p, key, now, validUntil, confirmed);
            && (c.outcome == Ok(FirstPin) <==> Get(ring, p).None?)
            && (c.outcome == Ok(AlreadyPinned) <==> Get(ring, p) == Some(key))
            && (c.outcome == Ok(Rotated) <==> Get(ring, p).Some? && Get(ring, p) != Some(key))
            && (c.ring == ring <==> Get(ring, p) == Some(key))
  {
    var es := EntriesOf(ring, p);
    var c := RotateTo(ring, p, key, now, validUntil, confirmed);
    if Get(ring, p) != Some(key) { assert |EntriesOf(c.ring, p)| == |es| + 1; }
  }

  // ---------------------------------------------------------------- lookup

  /** What each answer to a lookup says of the list, in the words of the list alone. */
  ghost predicate Answers(es: seq<KeyEntry>, now: string, answer: Lookup) {
    match answer
    case NonCanonicalNow => !IsCanonicalUtc(now)
    case Usable(key) =>
      && IsCanonicalUtc(now)
      && exists i: nat :: IsFirst(es, Active, i) && es[i].key == key
                     && (es[i].validUntil.Some? ==> Text.Less(now, es[i].validUntil.value))
    case Expired(end) =>
      && IsCanonicalUtc(now)
      && exists i: nat :: IsFirst(es, Active, i) && es[i].validUntil == Some(end) && !Text.Less(now, end)
    case RevokedAt(at) =>
      IsCanonicalUtc(now) && NoneIn(es, Active) && exists i: nat :: IsFirst(es, Revoked, i) && es[i].stateSince == at
    case RetiredAt(at) =>
      && IsCanonicalUtc(now) && NoneIn(es, Active) && NoneIn(es, Revoked)
      && exists i: nat :: IsFirst(es, Retired, i) && es[i].stateSince == at
    case Unpinned => IsCanonicalUtc(now) && es == []
  }

  /** A lookup gives the one answer that is so. */
  lemma LookupIsTheAnswer(ring: Ring, p: Principal, now: string, answer: Lookup)
    ensures ActiveKey(ring, p, now) == answer <==> Answers(EntriesOf(ring, p), now, answer)
  {
    var es := EntriesOf(ring, p);
    FirstIsFound(es, Active);
    FirstIsFound(es, Revoked);
    FirstIsFound(es, Retired);
    if es != [] { assert es[0] in es; }
    forall end: string ensures Text.LessOrEqual(end, now) <==> !Text.Less(now, end) { OrderIsTotal(end, now); }
  }

  lemma FirstIsFound(es: seq<KeyEntry>, state: KeyState)
    ensures FirstIn(es, state).None? <==> NoneIn(es, state)
    ensures forall i: nat :: IsFirst(es, state, i) <==> FirstIn(es, state) == Some(i)
  {
  }

  lemma OrderIsTotal(a: string, b: string)
    ensures Text.LessOrEqual(a, b) <==> !Text.Less(b, a)
  {
    Text.LessTotal(a, b);
    if Text.Less(a, b) && Text.Less(b, a) {
      Text.LessTransitive(a, b, a);
      Text.LessIrreflexive(a);
    }
    if a == b { Text.LessIrreflexive(a); }
  }
}
