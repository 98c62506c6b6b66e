/** What every run of keyring operations keeps, and when a revocation really ends a key's use. */
module KeyringRuns {
  import opened Results
  import opened Clock
  import opened Crypto
  import opened Identity
  import opened Keyring
  import Text

  datatype Op =
    | OpPin(p: Principal, key: Key)
    | OpRotate(p: Principal, key: Key, now: string, validUntil: Option<string>, confirmed: bool)
    | OpRetire(p: Principal, id: string)
    | OpRevoke(p: Principal, id: string, now: string)
    | OpApply(signed: SignedRevocation, now: string)

  function Apply(scheme: Scheme, ring: Ring, op: Op): Change {
    match op
    case OpPin(p, key) => PinTofu(ring, p, key)
    case OpRotate(p, key, now, vu, c) => RotateTo(ring, p, key, now, vu, c)
    case OpRetire(p, id) => Retire(scheme, ring, p, id)
    case OpRevoke(p, id, now) => Revoke(scheme, ring, p, id, now)
    case OpApply(signed, now) => ApplySignedRevocation(scheme, ring, signed, now)
  }

  function RingAfter(scheme: Scheme, ring: Ring, ops: seq<Op>): Ring
    decreases |ops|
  {
    if ops == [] then ring else RingAfter(scheme, Apply(scheme, ring, ops[0]).ring, ops[1..])
  }

  // ---------------------------------------------------------------- the invariant

  predicate AtMostOneActive(es: seq<KeyEntry>) {
    forall i, j :: 0 <= i < j < |es| ==> !(es[i].state.Active? && es[j].state.Active?)
  }

  predicate IsStamped(e: KeyEntry) {
    IsCanonicalOpt(e.validUntil) && IsCanonicalOpt(e.pinnedAt) && IsCanonicalOpt(e.stateSince)
  }

  predicate IsSoundList(es: seq<KeyEntry>) {
    es != [] && AtMostOneActive(es) && forall i :: 0 <= i < |es| ==> IsStamped(es[i])
  }

  predicate IsSound(ring: Ring) {
    forall p <- ring :: IsSoundList(ring[p])
  }

  /** An operation works on one principal; everything else stays. */
  function SubjectOf(op: Op): Option<Principal> {
    if op.OpApply? then
      match ParsePrincipal(op.signed.statement.principal)
      case Ok(p) => Some(p)
      case Err(_) => None
    else Some(op.p)
  }

  /** How one principal's list may change: unchanged, pushed, rotated, one retired entry removed, one entry revoked. */
  datatype Edit =
    | Keep
    | Push(e: KeyEntry)
    | Rotate(i: nat, now: string, e: KeyEntry)
    | Drop(i: nat)
    | Mark(i: nat, now: string)

  predicate IsEdit(es: seq<KeyEntry>, edit: Edit) {
    match edit
    case Keep => true
    case Push(e) => FirstIn(es, Active).None? && e.state.Active? && IsStamped(e) && !HoldsIn(es, e.key, Revoked)
    case Rotate(i, now, e) =>
      && FirstIn(es, Active) == Some(i) && es[i].key != e.key
      && IsCanonicalUtc(now) && e.state.Active? && IsStamped(e) && !HoldsIn(es, e.key, Revoked)
    case Drop(i) => i < |es| && es[i].state.Retired?
    case Mark(i, now) => i < |es| && !es[i].state.Revoked? && IsCanonicalUtc(now)
  }

  function EditList(es: seq<KeyEntry>, edit: Edit): seq<KeyEntry>
    requires IsEdit(es, edit)
  {
    match edit
    case Keep => es
    case Push(e) => es + [e]
    case Rotate(i, now, e) => es[i := es[i].(state := Retired, stateSince := Some(now))] + [e]
    case Drop(i) => es[..i] + es[i + 1..]
    case Mark(i, now) => es[i := es[i].(state := Revoked, stateSince := Some(now))]
  }

  /** The edit an operation makes to its subject's list. */
  ghost function EditOf(scheme: Scheme, ring: Ring, op: Op): Edit {
    if Apply(scheme, ring, op).outcome.Err? || SubjectOf(op).None? then Keep
    else
      var es := EntriesOf(ring, SubjectOf(op).value);
      match op
      case OpPin(_, key) => if FirstIn(es, Active).Some? then Keep else Push(Legacy(key))
      case OpRotate(_, key, now, vu, _) =>
        var e := KeyEntry(key, Active, vu, Some(now), None);
        var i := FirstIn(es, Active);
        if i.None? then Push(e) else if es[i.value].key == key then Keep else Rotate(i.value, now, e)
      case OpRetire(_, id) => var i := FirstWithId(scheme, es, id); if i.None? then Keep else Drop(i.value)
      case OpRevoke(_, id, now) => MarkOf(scheme, es, id, now)
      case OpApply(signed, _) => MarkOf(scheme, es, signed.statement.revokedKeyId, signed.statement.revokedAt)
  }

  ghost function MarkOf(scheme: Scheme, es: seq<KeyEntry>, id: string, now: string): Edit {
    var i := FirstWithId(scheme, es, id);
    if i.None? || es[i.value].state.Revoked? then Keep else Mark(i.value, now)
  }

  /** The change is this edit of `p`'s list and nothing else; a refusal is no change at all. */
  ghost predicate IsEdited(ring: Ring, c: Change, p: Principal, edit: Edit) {
    && (c.outcome.Err? ==> c.ring == ring)
    && IsEdit(EntriesOf(ring, p), edit)
    && EntriesOf(c.ring, p) == EditList(EntriesOf(ring, p), edit)
    && (p in c.ring <==> EntriesOf(c.ring, p) != [])
    && (forall q :: q != p ==> (q in c.ring <==> q in ring) && EntriesOf(c.ring, q) == EntriesOf(ring, q))
  }

  lemma PinIsEdit(scheme: Scheme, ring: Ring, op: Op)
    requires IsSound(ring) && op.OpPin?
    ensures IsEdited(ring, Apply(scheme, ring, op), op.p, EditOf(scheme, ring, op))
  {
  }

  lemma RotateIsEdit(scheme: Scheme, ring: Ring, op: Op)
    requires IsSound(ring) && op.OpRotate?
    ensures IsEdited(ring, Apply(scheme, ring, op), op.p, EditOf(scheme, ring, op))
  {
  }

  lemma RetireIsEdit(scheme: Scheme, ring: Ring, op: Op)
    requires IsSound(ring) && op.OpRetire?
    ensures IsEdited(ring, Apply(scheme, ring, op), op.p, EditOf(scheme, ring, op))
  {
  }

  lemma RevokeIsEdit(scheme: Scheme, ring: Ring, p: Principal, id: string, now: string)
    requires IsSound(ring)
    ensures var c := Revoke(scheme, ring, p, id, now);
            IsEdited(ring, c, p, if c.outcome.Err? then Keep else MarkOf(scheme, EntriesOf(ring, p), id, now))
  {
  }

  lemma SignedIsEdit(scheme: Scheme, ring: Ring, op: Op)
    requires IsSound(ring) && op.OpApply? && SubjectOf(op).Some?
    ensures IsEdited(ring, Apply(scheme, ring, op), SubjectOf(op).value, EditOf(scheme, ring, op))
  {
    var p, st := SubjectOf(op).value, op.signed.statement;
    RevokeIsEdit(scheme, ring, p, st.revokedKeyId, st.revokedAt);
    var c := Apply(scheme, ring, op);
    if c.outcome.Ok? {
      assert c == Revoke(scheme, ring, p, st.revokedKeyId, st.revokedAt);
    }
  }

  /**
    Every operation is one legal edit of one principal's list, and every refused operation
    leaves the whole map as it was.
   */
  lemma OperationIsEdit(scheme: Scheme, ring: Ring, op: Op)
    requires IsSound(ring)
    ensures SubjectOf(op).None? ==> Apply(scheme, ring, op).ring == ring
    ensures SubjectOf(op).Some? ==> IsEdited(ring, Apply(scheme, ring, op), SubjectOf(op).value,
                                             EditOf(scheme, ring, op))
  {
    match op {
      case OpPin(_, _) => PinIsEdit(scheme, ring, op);
      case OpRotate(_, _, _, _, _) => RotateIsEdit(scheme, ring, op);
      case OpRetire(_, _) => RetireIsEdit(scheme, ring, op);
      case OpRevoke(p, id, now) => RevokeIsEdit(scheme, ring, p, id, now);
      case OpApply(_, _) => if SubjectOf(op).Some? { SignedIsEdit(scheme, ring, op); }
    }
  }

  lemma EditKeepsSound(es: seq<KeyEntry>, edit: Edit)
    requires es != [] ==> IsSoundList(es)
    requires IsEdit(es, edit) && EditList(es, edit) != []
    ensures IsSoundList(EditList(es, edit))
  {
    var es' := EditList(es, edit);
    match edit {
      case Drop(i) => assert forall k :: 0 <= k < |es'| ==> es'[k] == es[if k < i then k else k + 1];
      case _ =>
    }
  }

  /** One operation keeps the keyring sound. */
  lemma OperationKeepsSound(scheme: Scheme, ring: Ring, op: Op)
    requires IsSound(ring)
    ensures IsSound(Apply(scheme, ring, op).ring)
  {
    OperationIsEdit(scheme, ring, op);
    var ring' := Apply(scheme, ring, op).ring;
    forall p | p in ring' ensures IsSoundList(ring'[p]) {
      if SubjectOf(op) == Some(p) {
        EditKeepsSound(EntriesOf(ring, p), EditOf(scheme, ring, op));
      } else {
        assert EntriesOf(ring', p) == EntriesOf(ring, p);
      }
    }
  }

  /** Whole runs: at most one active entry, no empty list, canonical stamps, from any sound start. */
  lemma {:induction false} RunsStaySound(scheme: Scheme, ring: Ring, ops: seq<Op>)
    requires IsSound(ring)
    ensures IsSound(RingAfter(scheme, ring, ops))
    decreases |ops|
  {
    if ops != [] {
      OperationKeepsSound(scheme, ring, ops[0]);
      RunsStaySound(scheme, Apply(scheme, ring, ops[0]).ring, ops[1..]);
    }
  }

  // ---------------------------------------------------------------- key material

  function KeysOf(es: seq<KeyEntry>): seq<Key> {
    seq(|es|, i requires 0 <= i < |es| => es[i].key)
  }

  /**
    Key material is append-only: unless a retire succeeds, each principal's key list only grows
    at the end; a successful retire removes one entry, and that entry was retired.
   */
  lemma KeyMaterialIsKept(scheme: Scheme, ring: Ring, op: Op, p: Principal)
    requires IsSound(ring)
    ensures var c := Apply(scheme, ring, op);
            var es, es' := EntriesOf(ring, p), EntriesOf(c.ring, p);
            || KeysOf(es) <= KeysOf(es')
            || (op.OpRetire? && op.p == p && c.outcome.Ok?
                && exists i :: 0 <= i < |es| && es[i].state.Retired? && scheme.keyId(es[i].key) == op.id
                    && es' == es[..i] + es[i + 1..])
  {
    OperationIsEdit(scheme, ring, op);
    if SubjectOf(op) == Some(p) {
      var edit := EditOf(scheme, ring, op);
      EditKeepsKeys(EntriesOf(ring, p), edit);
      if edit.Drop? { assert EntriesOf(ring, p)[edit.i].state.Retired?; }
    }
  }

  lemma EditKeepsKeys(es: seq<KeyEntry>, edit: Edit)
    requires IsEdit(es, edit)
    ensures !edit.Drop? ==> KeysOf(es) <= KeysOf(EditList(es, edit))
  {
  }

  // ---------------------------------------------------------------- trust on first use

  /** A confirmed rotation of `p` away from `key`, to a key that is not revoked. */
  predicate ReplacesKey(ring: Ring, op: Op, p: Principal, key: Key) {
    && op.OpRotate? && op.p == p && op.key != key && op.confirmed
    && IsCanonicalUtc(op.now) && IsCanonicalOpt(op.validUntil)
    && !HoldsIn(EntriesOf(ring, p), op.key, Revoked)
  }

  /** A revocation, local or signed, that goes through and finds the active entry of `p` first. */
  predicate RevokesActive(scheme: Scheme, ring: Ring, op: Op, p: Principal) {
    var es := EntriesOf(ring, p);
    && FirstIn(es, Active).Some?
    && Apply(scheme, ring, op).outcome.Ok?
    && ((op.OpRevoke? && op.p == p && FirstWithId(scheme, es, op.id) == FirstIn(es, Active))
        || (op.OpApply? && ParsePrincipal(op.signed.statement.principal) == Ok(p)
            && FirstWithId(scheme, es, op.signed.statement.revokedKeyId) == FirstIn(es, Active)))
  }

  /**
    Trust on first use, exactly: an operation ends the use of an active key if and only if it is a
    confirmed rotation to another usable key, or a revocation that finds the active entry. No pin,
    no unconfirmed rotation, no retirement and nothing about another principal does.
   */
  lemma ActiveKeyChangesIff(scheme: Scheme, ring: Ring, op: Op, p: Principal, key: Key)
    requires IsSound(ring) && Get(ring, p) == Some(key)
    ensures Get(Apply(scheme, ring, op).ring, p) != Some(key)
            <==> ReplacesKey(ring, op, p, key) || RevokesActive(scheme, ring, op, p)
  {
    OperationIsEdit(scheme, ring, op);
    if SubjectOf(op) == Some(p) {
      EditKeepsActiveIff(EntriesOf(ring, p), EditOf(scheme, ring, op));
    }
  }

  /** The active entry goes only by a rotation or by being marked itself. */
  lemma EditKeepsActiveIff(es: seq<KeyEntry>, edit: Edit)
    requires IsEdit(es, edit) && FirstIn(es, Active).Some? && (es != [] ==> AtMostOneActive(es))
    ensures var i, es' := FirstIn(es, Active).value, EditList(es, edit);
            var first := FirstIn(es', Active);
            (first.Some? && es'[first.value].key == es[i].key) <==> !edit.Rotate? && !(edit.Mark? && edit.i == i)
  {
    var i, es' := FirstIn(es, Active).value, EditList(es, edit);
    match edit {
      case Keep =>
      case Push(e) =>
      case Rotate(j, now, e) =>
        assert es'[|es|] == e && forall k :: 0 <= k < |es| ==> !es'[k].state.Active?;
        FirstInIs(es', Active, |es|);
      case Drop(j) =>
        FirstInIs(es', Active, if j < i then i - 1 else i);
      case Mark(j, now) =>
        if j != i { FirstInIs(es', Active, i); } else { assert forall k :: 0 <= k < |es| ==> !es'[k].state.Active?; }
    }
  }

  /** Nothing in the run replaces or revokes keys of `p`: no confirmed rotation, no revocation. */
  predicate LeavesAlone(op: Op, p: Principal) {
    match op
    case OpPin(_, _) => true
    case OpRetire(_, _) => true
    case OpRotate(q, _, _, _, confirmed) => q != p || !confirmed
    case OpRevoke(q, _, _) => q != p
    case OpApply(signed, _) => ParsePrincipal(signed.statement.principal) != Ok(p)
  }

  /**
    Whole runs: an active key once pinned stays the active key under every operation sequence
    without a confirmed rotation or a revocation of its principal.
   */
  lemma {:induction false} PinnedKeyStays(scheme: Scheme, ring: Ring, ops: seq<Op>, p: Principal, key: Key)
    requires IsSound(ring) && Get(ring, p) == Some(key) && forall op <- ops :: LeavesAlone(op, p)
    ensures Get(RingAfter(scheme, ring, ops), p) == Some(key)
    decreases |ops|
  {
    if ops != [] {
      assert LeavesAlone(ops[0], p);
      ActiveKeyChangesIff(scheme, ring, ops[0], p, key);
      OperationKeepsSound(scheme, ring, ops[0]);
      PinnedKeyStays(scheme, Apply(scheme, ring, ops[0]).ring, ops[1..], p, key);
    }
  }

  /** With a key active, pinning and unconfirmed rotation leave the keyring as it is and succeed only for that key. */
  lemma ActiveKeyIsGuarded(ring: Ring, p: Principal, key: Key, other: Key, now: string, validUntil: Option<string>)
    requires Get(ring, p) == Some(key)
    ensures var pin, rotate := PinTofu(ring, p, other), RotateTo(ring, p, other, now, validUntil, false);
            && pin.ring == ring && rotate.ring == ring
            && (other != key ==> pin.outcome in {Err(KeyConflict), Err(KeyRevoked)} && rotate.outcome.Err?)
            && (other == key && !HoldsIn(EntriesOf(ring, p), key, Revoked) ==> pin.outcome == Ok(Done))
  {
  }

  /**
    With none active, a pin or a rotation installs exactly the given key, unless that is revoked or
    a stamp is not canonical.
   */
  lemma FirstKeyIsInstalledIff(ring: Ring, p: Principal, key: Key, now: string, validUntil: Option<string>,
                               confirmed: bool)
    requires Get(ring, p).None?
    ensures var usable := !HoldsIn(EntriesOf(ring, p), key, Revoked);
            && (Get(PinTofu(ring, p, key).ring, p) == if usable then Some(key) else None)
            && (Get(RotateTo(ring, p, key, now, validUntil, confirmed).ring, p)
                == if usable && IsCanonicalUtc(now) && IsCanonicalOpt(validUntil) then Some(key) else None)
  {
    var es := EntriesOf(ring, p);
    FirstInIs(es + [Legacy(key)], Active, |es|);
    FirstInIs(es + [KeyEntry(key, Active, validUntil, Some(now), None)], Active, |es|);
  }

  // ---------------------------------------------------------------- revocation is permanent

  lemma EditKeepsRevoked(es: seq<KeyEntry>, edit: Edit, e: KeyEntry)
    requires IsEdit(es, edit) && e in es && e.state.Revoked?
    ensures e in EditList(es, edit)
  {
  }

  /** Whole runs: a revoked entry is never removed and never changed. */
  lemma {:induction false} RevokedEntryIsPermanent(scheme: Scheme, ring: Ring, ops: seq<Op>, p: Principal, e: KeyEntry)
    requires IsSound(ring) && e in EntriesOf(ring, p) && e.state.Revoked?
    ensures e in EntriesOf(RingAfter(scheme, ring, ops), p)
    decreases |ops|
  {
    if ops != [] {
      OperationIsEdit(scheme, ring, ops[0]);
      OperationKeepsSound(scheme, ring, ops[0]);
      if SubjectOf(ops[0]) == Some(p) {
        EditKeepsRevoked(EntriesOf(ring, p), EditOf(scheme, ring, ops[0]), e);
      }
      RevokedEntryIsPermanent(scheme, Apply(scheme, ring, ops[0]).ring, ops[1..], p, e);
    }
  }

  /** Whole runs: a revoked key can never be pinned or rotated to again. */
  lemma RevokedKeyIsRefused(scheme: Scheme, ring: Ring, ops: seq<Op>, p: Principal, key: Key)
    requires IsSound(ring) && HoldsIn(EntriesOf(ring, p), key, Revoked)
    ensures var later := RingAfter(scheme, ring, ops);
            && PinTofu(later, p, key) == Change(later, Err(KeyRevoked))
            && forall now, vu, confirmed | IsCanonicalUtc(now) && IsCanonicalOpt(vu) ::
                 RotateTo(later, p, key, now, vu, confirmed) == Change(later, Err(KeyRevoked))
  {
    var e :| e in EntriesOf(ring, p) && e.state.Revoked? && e.key == key;
    RevokedEntryIsPermanent(scheme, ring, ops, p, e);
    assert HoldsIn(EntriesOf(RingAfter(scheme, ring, ops), p), key, Revoked);
  }

  // ---------------------------------------------------------------- distinct keys

  predicate DistinctKeys(es: seq<KeyEntry>) {
    forall i, j :: 0 <= i < j < |es| ==> es[i].key != es[j].key
  }

  predicate IsDistinct(ring: Ring) {
    forall p <- ring :: DistinctKeys(ring[p])
  }

  /** The key an operation would push onto its subject's list, if it pushes one. */
  ghost function PushedKey(scheme: Scheme, ring: Ring, op: Op): Option<Key> {
    match EditOf(scheme, ring, op)
    case Push(e) => Some(e.key)
    case Rotate(_, _, e) => Some(e.key)
    case _ => None
  }

  /** The operation pins or rotates to a key its principal still holds as retired. */
  ghost predicate RepinsRetired(scheme: Scheme, ring: Ring, op: Op) {
    && SubjectOf(op).Some?
    && PushedKey(scheme, ring, op).Some?
    && HoldsIn(EntriesOf(ring, SubjectOf(op).value), PushedKey(scheme, ring, op).value, Retired)
  }

  lemma PushKeepsDistinctIff(es: seq<KeyEntry>, es': seq<KeyEntry>, e: KeyEntry)
    requires DistinctKeys(es) && KeysOf(es') == KeysOf(es)
    ensures DistinctKeys(es' + [e]) <==> e.key !in KeysOf(es)
  {
    var all := es' + [e];
    assert |es'| == |KeysOf(es')| == |es|;
    forall i | 0 <= i < |es| ensures all[i].key == es[i].key {
      assert all[i].key == KeysOf(es')[i];
    }
    if e.key in KeysOf(es) {
      var k :| 0 <= k < |es| && KeysOf(es)[k] == e.key;
      assert all[k].key == all[|es|].key;
    } else {
      forall i, j | 0 <= i < j < |all| ensures all[i].key != all[j].key {
        if j == |es| { assert KeysOf(es)[i] == all[i].key; }
      }
    }
  }

  lemma DropKeepsDistinct(es: seq<KeyEntry>, i: nat)
    requires DistinctKeys(es) && i < |es|
    ensures DistinctKeys(es[..i] + es[i + 1..])
  {
  }

  /** Which keys a list holds, by state. */
  lemma HeldKeyHasState(es: seq<KeyEntry>, key: Key)
    ensures key in KeysOf(es) <==> HoldsIn(es, key, Active) || HoldsIn(es, key, Retired) || HoldsIn(es, key, Revoked)
  {
    if key in KeysOf(es) {
      var k :| 0 <= k < |es| && KeysOf(es)[k] == key;
      assert HoldsIn(es, key, es[k].state);
    }
    if HoldsIn(es, key, Active) || HoldsIn(es, key, Retired) || HoldsIn(es, key, Revoked) {
      var e :| e in es && e.key == key;
      var k :| 0 <= k < |es| && es[k] == e;
      assert KeysOf(es)[k] == key;
    }
  }

  lemma EditKeepsDistinctIff(es: seq<KeyEntry>, edit: Edit)
    requires IsEdit(es, edit) && DistinctKeys(es) && AtMostOneActive(es)
    ensures DistinctKeys(EditList(es, edit)) <==> !((edit.Push? || edit.Rotate?) && HoldsIn(es, edit.e.key, Retired))
  {
    match edit {
      case Drop(i) => DropKeepsDistinct(es, i);
      case Push(e) =>
        PushKeepsDistinctIff(es, es, e);
        HeldKeyHasState(es, e.key);
      case Rotate(i, now, e) =>
        var es' := es[i := es[i].(state := Retired, stateSince := Some(now))];
        assert KeysOf(es') == KeysOf(es);
        PushKeepsDistinctIff(es, es', e);
        HeldKeyHasState(es, e.key);
        OnlyActiveIsFirst(es, i, e.key);
      case _ =>
    }
  }

  lemma OnlyActiveIsFirst(es: seq<KeyEntry>, i: nat, key: Key)
    requires AtMostOneActive(es) && FirstIn(es, Active) == Some(i) && es[i].key != key
    ensures !HoldsIn(es, key, Active)
  {
  }

  /** One operation keeps a principal's keys distinct exactly when it does not re-pin a retired key. */
  lemma DistinctStaysIff(scheme: Scheme, ring: Ring, op: Op)
    requires IsSound(ring) && IsDistinct(ring)
    ensures IsDistinct(Apply(scheme, ring, op).ring) <==> !RepinsRetired(scheme, ring, op)
  {
    OperationIsEdit(scheme, ring, op);
    var ring' := Apply(scheme, ring, op).ring;
    if SubjectOf(op).Some? {
      var p, edit := SubjectOf(op).value, EditOf(scheme, ring, op);
      EditKeepsDistinctIff(EntriesOf(ring, p), edit);
      DistinctSplits(ring, ring', p);
    }
  }

  lemma DistinctSplits(ring: Ring, ring': Ring, p: Principal)
    requires IsDistinct(ring)
    requires forall q :: q != p ==> (q in ring' <==> q in ring) && EntriesOf(ring', q) == EntriesOf(ring, q)
    ensures IsDistinct(ring') <==> DistinctKeys(EntriesOf(ring', p))
  {
  }

  /** No operation of the run re-pins a retired key. */
  ghost predicate NeverRepins(scheme: Scheme, ring: Ring, ops: seq<Op>)
    decreases |ops|
  {
    ops == [] || (!RepinsRetired(scheme, ring, ops[0])
                  && NeverRepins(scheme, Apply(scheme, ring, ops[0]).ring, ops[1..]))
  }

  lemma {:induction false} RunsStayDistinct(scheme: Scheme, ring: Ring, ops: seq<Op>)
    requires IsSound(ring) && IsDistinct(ring) && NeverRepins(scheme, ring, ops)
    ensures IsSound(RingAfter(scheme, ring, ops)) && IsDistinct(RingAfter(scheme, ring, ops))
    decreases |ops|
  {
    if ops != [] {
      OperationKeepsSound(scheme, ring, ops[0]);
      DistinctStaysIff(scheme, ring, ops[0]);
      RunsStayDistinct(scheme, Apply(scheme, ring, ops[0]).ring, ops[1..]);
    }
  }

  // ---------------------------------------------------------------- what a revoked key can still do

  /** No edit makes a key active while a revoked entry holds it. */
  lemma EditKeepsInactive(es: seq<KeyEntry>, edit: Edit, key: Key)
    requires IsEdit(es, edit) && HoldsIn(es, key, Revoked) && !HoldsIn(es, key, Active)
    ensures HoldsIn(EditList(es, edit), key, Revoked) && !HoldsIn(EditList(es, edit), key, Active)
  {
    var e :| e in es && e.state.Revoked? && e.key == key;
    EditKeepsRevoked(es, edit, e);
    var es' := EditList(es, edit);
    forall x | x in es' && x.state.Active? ensures x.key != key {
      assert x in es || x.key != key;
    }
  }

  lemma {:induction false} RunsKeepInactive(scheme: Scheme, ring: Ring, ops: seq<Op>, p: Principal, key: Key)
    requires IsSound(ring) && HoldsIn(EntriesOf(ring, p), key, Revoked) && !HoldsIn(EntriesOf(ring, p), key, Active)
    ensures var es := EntriesOf(RingAfter(scheme, ring, ops), p);
            HoldsIn(es, key, Revoked) && !HoldsIn(es, key, Active)
    decreases |ops|
  {
    if ops != [] {
      OperationIsEdit(scheme, ring, ops[0]);
      OperationKeepsSound(scheme, ring, ops[0]);
      if SubjectOf(ops[0]) == Some(p) {
        EditKeepsInactive(EntriesOf(ring, p), EditOf(scheme, ring, ops[0]), key);
      }
      RunsKeepInactive(scheme, Apply(scheme, ring, ops[0]).ring, ops[1..], p, key);
    }
  }

  /**
    Whole runs, exactly: once revoked, a key is never again the active one, whatever operations
    follow, if and only if no entry holds it as active when they start.
   */
  lemma RevokedStaysInactiveIff(scheme: Scheme, ring: Ring, p: Principal, key: Key)
    requires IsSound(ring) && HoldsIn(EntriesOf(ring, p), key, Revoked)
    ensures (forall ops :: Get(RingAfter(scheme, ring, ops), p) != Some(key))
            <==> !HoldsIn(EntriesOf(ring, p), key, Active)
  {
    if HoldsIn(EntriesOf(ring, p), key, Active) {
      HeldActiveIsGot(ring, p, key);
      assert Get(RingAfter(scheme, ring, []), p) == Some(key);
    } else {
      forall ops ensures Get(RingAfter(scheme, ring, ops), p) != Some(key) {
        RunsKeepInactive(scheme, ring, ops, p, key);
      }
    }
  }

  lemma HeldActiveIsGot(ring: Ring, p: Principal, key: Key)
    requires IsSound(ring) && HoldsIn(EntriesOf(ring, p), key, Active)
    ensures Get(ring, p) == Some(key)
  {
    var es := EntriesOf(ring, p);
    var e :| e in es && e.state.Active? && e.key == key;
    var i :| 0 <= i < |es| && es[i] == e;
    var first := FirstIn(es, Active);
    assert first.Some? && first.value <= i && AtMostOneActive(es);
  }

  /** And then the trust query never answers with it, at any instant. */
  lemma RevokedKeyIsNeverUsable(scheme: Scheme, ring: Ring, ops: seq<Op>, p: Principal, key: Key, now: string)
    requires IsSound(ring)
    requires HoldsIn(EntriesOf(ring, p), key, Revoked) && !HoldsIn(EntriesOf(ring, p), key, Active)
    ensures ActiveKey(RingAfter(scheme, ring, ops), p, now) != Usable(key)
  {
    RunsKeepInactive(scheme, ring, ops, p, key);
  }

  // ---------------------------------------------------------------- when a revocation takes effect

  /** The entry a revocation of `id` finds is not the active one, although the active key has that id. */
  predicate RevocationMissesActive(scheme: Scheme, es: seq<KeyEntry>, id: string) {
    var active, found := FirstIn(es, Active), FirstWithId(scheme, es, id);
    active.Some? && found.Some? && scheme.keyId(es[active.value].key) == id && found.value != active.value
  }

  /**
    A local revocation that succeeds leaves a key with that id active exactly when an earlier
    entry carries the same id: only the first match is marked.
   */
  lemma RevokeTakesEffectIff(scheme: Scheme, ring: Ring, p: Principal, id: string, now: string)
    requires IsSound(ring) && Revoke(scheme, ring, p, id, now).outcome.Ok?
    ensures var key := Get(Revoke(scheme, ring, p, id, now).ring, p);
            (key.Some? && scheme.keyId(key.value) == id) <==> RevocationMissesActive(scheme, EntriesOf(ring, p), id)
  {
    var es := EntriesOf(ring, p);
    var es' := EntriesOf(Revoke(scheme, ring, p, id, now).ring, p);
    var found := FirstWithId(scheme, es, id).value;
    assert |es'| == |es| && forall k :: 0 <= k < |es| && k != found ==> es'[k] == es[k];
    assert es'[found].state.Revoked?;
    var active, active' := FirstIn(es, Active), FirstIn(es', Active);
    if active.Some? && active.value != found {
      FirstInIs(es', Active, active.value);
    } else if active.Some? {
      assert forall k :: 0 <= k < |es| && k != found ==> !es[k].state.Active?;
    }
  }

  /** The revocation marks one entry of a key whose active entry is another. */
  predicate MarksACopy(scheme: Scheme, es: seq<KeyEntry>, id: string) {
    && RevocationMissesActive(scheme, es, id)
    && es[FirstIn(es, Active).value].key == es[FirstWithId(scheme, es, id).value].key
  }

  /**
    From one revocation to every later run: the key a successful revocation marks is never active
    again, whatever operations follow, if and only if the mark did not miss that key's active entry.
   */
  lemma RevocationIsFinalIff(scheme: Scheme, ring: Ring, p: Principal, id: string, now: string)
    requires IsSound(ring) && Revoke(scheme, ring, p, id, now).outcome.Ok?
    requires FirstWithId(scheme, EntriesOf(ring, p), id).Some?
    ensures var key := EntriesOf(ring, p)[FirstWithId(scheme, EntriesOf(ring, p), id).value].key;
            (forall ops :: Get(RingAfter(scheme, Revoke(scheme, ring, p, id, now).ring, ops), p) != Some(key))
            <==> !MarksACopy(scheme, EntriesOf(ring, p), id)
  {
    var es, ring' := EntriesOf(ring, p), Revoke(scheme, ring, p, id, now).ring;
    var es', i := EntriesOf(ring', p), FirstWithId(scheme, es, id).value;
    var key := es[i].key;
    OperationKeepsSound(scheme, ring, OpRevoke(p, id, now));
    assert es'[i].state.Revoked? && es'[i].key == key && es'[i] in es';
    MarkedKeyIsActiveIff(scheme, ring, p, id, now);
    RevokedStaysInactiveIff(scheme, ring', p, key);
  }

  lemma MarkedKeyIsActiveIff(scheme: Scheme, ring: Ring, p: Principal, id: string, now: string)
    requires IsSound(ring) && Revoke(scheme, ring, p, id, now).outcome.Ok?
    requires FirstWithId(scheme, EntriesOf(ring, p), id).Some?
    ensures var key := EntriesOf(ring, p)[FirstWithId(scheme, EntriesOf(ring, p), id).value].key;
            HoldsIn(EntriesOf(Revoke(scheme, ring, p, id, now).ring, p), key, Active)
            <==> MarksACopy(scheme, EntriesOf(ring, p), id)
  {
    var es, es' := EntriesOf(ring, p), EntriesOf(Revoke(scheme, ring, p, id, now).ring, p);
    var i := FirstWithId(scheme, es, id).value;
    assert es' == es[i := es'[i]] && es'[i].state.Revoked?;
    if es != [] { assert IsSoundList(es); }
    CopyStaysActiveIff(scheme, es, i, es'[i], id);
  }

  lemma CopyStaysActiveIff(scheme: Scheme, es: seq<KeyEntry>, i: nat, marked: KeyEntry, id: string)
    requires AtMostOneActive(es) && FirstWithId(scheme, es, id) == Some(i) && marked.state.Revoked?
    ensures HoldsIn(es[i := marked], es[i].key, Active) <==> MarksACopy(scheme, es, id)
  {
    var es' := es[i := marked];
    if MarksACopy(scheme, es, id) { assert es'[FirstIn(es, Active).value] in es'; }
    if HoldsIn(es', es[i].key, Active) {
      var e :| e in es' && e.state.Active? && e.key == es[i].key;
      var k :| 0 <= k < |es'| && es'[k] == e;
      assert es[k].state.Active? && FirstIn(es, Active) == Some(k);
    }
  }

  lemma FirstInIs(es: seq<KeyEntry>, state: KeyState, i: nat)
    requires i < |es| && es[i].state == state && forall j :: 0 <= j < i ==> es[j].state != state
    ensures FirstIn(es, state) == Some(i)
  {
  }

  /** Rotating away from a key and back, then revoking it, leaves it both revoked and usable. */
  lemma RotateBackSurvivesRevocation(scheme: Scheme, p: Principal, k1: Key, k2: Key, now: string)
    requires k1 != k2 && scheme.keyId(k1) != scheme.keyId(k2) && IsCanonicalUtc(now)
    ensures var ops := [OpPin(p, k1), OpRotate(p, k2, now, None, true), OpRotate(p, k1, now, None, true),
                        OpRevoke(p, scheme.keyId(k1), now)];
            var ring := RingAfter(scheme, map[], ops);
            HoldsIn(EntriesOf(ring, p), k1, Revoked) && ActiveKey(ring, p, now) == Usable(k1)
  {
    var e1 := Legacy(k1);
    var r1 := PinTofu(map[], p, k1).ring;
    assert EntriesOf(r1, p) == [e1];
    FirstInIs([e1], Active, 0);
    var e1' := e1.(state := Retired, stateSince := Some(now));
    var e2 := KeyEntry(k2, Active, None, Some(now), None);
    var r2 := RotateTo(r1, p, k2, now, None, true).ring;
    assert EntriesOf(r2, p) == [e1', e2];
    FirstInIs([e1', e2], Active, 1);
    var e2' := e2.(state := Retired, stateSince := Some(now));
    var e3 := KeyEntry(k1, Active, None, Some(now), None);
    var r3 := RotateTo(r2, p, k1, now, None, true).ring;
    assert EntriesOf(r3, p) == [e1', e2', e3];
    RevokeFirstOfThree(scheme, r3, p, e1', e2', e3, now);
    var ops := [OpPin(p, k1), OpRotate(p, k2, now, None, true), OpRotate(p, k1, now, None, true),
                OpRevoke(p, scheme.keyId(k1), now)];
    RunOfFour(scheme, ops, r1, r2, r3, Revoke(scheme, r3, p, scheme.keyId(k1), now).ring);
  }

  lemma RevokeFirstOfThree(scheme: Scheme, ring: Ring, p: Principal, a: KeyEntry, b: KeyEntry, c: KeyEntry, now: string)
    requires EntriesOf(ring, p) == [a, b, c] && a.key == c.key && IsCanonicalUtc(now)
    requires a.state.Retired? && b.state.Retired? && c.state.Active? && c.validUntil.None?
    ensures var ring' := Revoke(scheme, ring, p, scheme.keyId(a.key), now).ring;
            HoldsIn(EntriesOf(ring', p), a.key, Revoked) && ActiveKey(ring', p, now) == Usable(c.key)
  {
    var a' := a.(state := Revoked, stateSince := Some(now));
    assert FirstWithId(scheme, [a, b, c], scheme.keyId(a.key)) == Some(0);
    var es' := EntriesOf(Revoke(scheme, ring, p, scheme.keyId(a.key), now).ring, p);
    assert es' == [a', b, c] && es'[0] == a';
    FirstInIs([a', b, c], Active, 2);
  }

  lemma RunOfFour(scheme: Scheme, ops: seq<Op>, r1: Ring, r2: Ring, r3: Ring, r4: Ring)
    requires |ops| == 4 && r1 == Apply(scheme, map[], ops[0]).ring && r2 == Apply(scheme, r1, ops[1]).ring
    requires r3 == Apply(scheme, r2, ops[2]).ring && r4 == Apply(scheme, r3, ops[3]).ring
    ensures RingAfter(scheme, map[], ops) == r4
  {
    assert ops[1..][0] == ops[1] && ops[1..][1..] == ops[2..];
    assert ops[2..][0] == ops[2] && ops[2..][1..] == ops[3..];
    assert ops[3..][0] == ops[3] && ops[3..][1..] == [];
    assert RingAfter(scheme, r3, ops[3..]) == RingAfter(scheme, r4, []) == r4;
    assert RingAfter(scheme, r2, ops[2..]) == r4;
  }

  // ---------------------------------------------------------------- signed revocation

  /**
    A signed revocation changes the keyring only on the word of an authorized key, and then it
    marks exactly one entry, one with the named id, as revoked from the statement's own instant.
   */
  lemma SignedRevocationIsAuthorized(scheme: Scheme, ring: Ring, signed: SignedRevocation, now: string)
    requires ApplySignedRevocation(scheme, ring, signed, now).ring != ring
    ensures var st := signed.statement;
            && ParsePrincipal(st.principal).Ok?
            && var p := ParsePrincipal(st.principal).value;
               var es := EntriesOf(ring, p);
               && IsAuthorized(scheme, es, signed)
               && exists i :: && 0 <= i < |es| && scheme.keyId(es[i].key) == st.revokedKeyId && !es[i].state.Revoked?
                              && ApplySignedRevocation(scheme, ring, signed, now).ring
                                 == ring[p := es[i := es[i].(state := Revoked, stateSince := Some(st.revokedAt))]]
  {
  }

  /** Applying the same statement again, at any instant, never changes the keyring further. */
  lemma SignedRevocationIsIdempotent(scheme: Scheme, ring: Ring, signed: SignedRevocation, now: string, later: string)
    ensures var once := ApplySignedRevocation(scheme, ring, signed, now);
            once.outcome.Ok? ==> ApplySignedRevocation(scheme, once.ring, signed, later).ring == once.ring
  {
    var once := ApplySignedRevocation(scheme, ring, signed, now);
    if once.outcome.Ok? {
      var p := ParsePrincipal(signed.statement.principal).value;
      var id := signed.statement.revokedKeyId;
      var es, es' := EntriesOf(ring, p), EntriesOf(once.ring, p);
      assert KeysOf(es') == KeysOf(es);
      SameKeysSameMatch(scheme, es, es', id);
    }
  }

  lemma SameKeysSameMatch(scheme: Scheme, es: seq<KeyEntry>, es': seq<KeyEntry>, id: string)
    requires KeysOf(es) == KeysOf(es')
    ensures FirstWithId(scheme, es', id) == FirstWithId(scheme, es, id)
  {
    assert |es| == |KeysOf(es)| == |es'|;
    assert forall k :: 0 <= k < |es| ==> es[k].key == KeysOf(es)[k] == es'[k].key;
  }

  // ---------------------------------------------------------------- the trust query over time

  /** On an unchanged keyring, expiry is final and usability reaches back. */
  lemma LookupIsMonotone(ring: Ring, p: Principal, earlier: Utc, later: Utc)
    requires IsCalendar(earlier) && IsCalendar(later) && Elapsed(earlier) <= Elapsed(later)
    ensures var a, b := ActiveKey(ring, p, FormatUtc(earlier)), ActiveKey(ring, p, FormatUtc(later));
            (a.Expired? ==> b == a) && (b.Usable? ==> a == b)
  {
    FormatIsCanonical(earlier);
    FormatIsCanonical(later);
    LexicalIsChronological(earlier, later);
    var i := FirstIn(EntriesOf(ring, p), Active);
    if i.Some? && EntriesOf(ring, p)[i.value].validUntil.Some? {
      var vu, t1, t2 := EntriesOf(ring, p)[i.value].validUntil.value, FormatUtc(earlier), FormatUtc(later);
      if Text.Less(vu, t1) && Text.Less(t1, t2) { Text.LessTransitive(vu, t1, t2); }
    }
  }

  /** The lexical comparison decides expiry by the clock: usable exactly before the expiry second. */
  lemma UsableIffBeforeExpiry(ring: Ring, p: Principal, now: Utc, expiry: Utc)
    requires IsCalendar(now) && IsCalendar(expiry)
    requires var es := EntriesOf(ring, p);
             FirstIn(es, Active).Some? && es[FirstIn(es, Active).value].validUntil == Some(FormatUtc(expiry))
    ensures ActiveKey(ring, p, FormatUtc(now)).Usable? <==> Elapsed(now) < Elapsed(expiry)
  {
    FormatIsCanonical(now);
    LexicalIsChronological(expiry, now);
  }
}
