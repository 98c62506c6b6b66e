/** Task lifecycles: the transition engine, the inspector's fold over envelopes, and what a whole history comes to. */
module TaskFsm {
  import opened Results

  datatype TaskState = Requested | Committed | Completed | Failed | Cancelled

  datatype MessageClass = Request | Commit | Deliver | Ack | Control | AuditLog

  datatype TerminalStatus = StatusCompleted | StatusFailed | StatusCancelled

  /** The two fields the fold reads; `None` when absent or unparseable. */
  datatype Envelope = Envelope(class_: Option<MessageClass>, status: Option<TerminalStatus>)

  /** The only legal transitions. */
  function Transition(s: TaskState, c: MessageClass, t: Option<TerminalStatus>): Option<TaskState> {
    match (s, c, t)
    case (Requested, Commit, None) => Some(Committed)
    case (Committed, Deliver, Some(StatusCompleted)) => Some(Completed)
    case (Committed, Deliver, Some(StatusFailed)) => Some(Failed)
    case (Requested, Control, None) => Some(Cancelled)
    case (Committed, Control, None) => Some(Cancelled)
    case _ => None
  }

  class Engine {
    var state: TaskState

    constructor ()
      ensures state == Requested
    {
      state := Requested;
    }

    /** An illegal transition leaves the state alone. */
    method Step(c: MessageClass, t: Option<TerminalStatus>) returns (r: Option<TaskState>)
      modifies this
      ensures r == Transition(old(state), c, t)
      ensures state == if r.Some? then r.value else old(state)
    {
      var next: TaskState;
      match (state, c, t) {
        case (Requested, Commit, None) => next := Committed;
        case (Committed, Deliver, Some(StatusCompleted)) => next := Completed;
        case (Committed, Deliver, Some(StatusFailed)) => next := Failed;
        case (Requested, Control, None) => next := Cancelled;
        case (Committed, Control, None) => next := Cancelled;
        case _ => return None;
      }
      state := next;
      return Some(next);
    }
  }

  // ---------------------------------------------------------------- the fold

  /** The move an envelope makes, if it makes one. */
  function Move(s: TaskState, e: Envelope): Option<TaskState> {
    if e.class_.Some? && e.class_.value in {Commit, Deliver, Control} then Transition(s, e.class_.value, e.status)
    else None
  }

  function After(s: TaskState, e: Envelope): TaskState {
    var m := Move(s, e);
    if m.Some? then m.value else s
  }

  function Fold(s: TaskState, es: seq<Envelope>): TaskState
    decreases |es|
  {
    if es == [] then s else Fold(After(s, es[0]), es[1..])
  }

  predicate ShowsState(e: Envelope) {
    e.class_.Some? && e.class_.value in {Request, Commit, Deliver, Control}
  }

  function LabelOf(s: TaskState): string {
    match s
    case Requested => "REQUESTED"
    case Committed => "COMMITTED"
    case Completed => "COMPLETED"
    case Failed => "FAILED"
    case Cancelled => "CANCELLED"
  }

  const UNKNOWN: string := "UNKNOWN"

  /** Some envelope so far belongs to the lifecycle. */
  predicate HasStarted(es: seq<Envelope>) {
    exists e <- es :: ShowsState(e)
  }

  class FsmFold {
    const fsm: Engine
    var sawFsmClass: bool
    ghost var history: seq<Envelope>

    /** The two real fields are what the envelopes applied so far come to. */
    ghost predicate Valid()
      reads this, fsm
    {
      fsm.state == Fold(Requested, history) && sawFsmClass == HasStarted(history)
    }

    constructor ()
      ensures Valid() && fresh(fsm) && history == []
    {
      fsm := new Engine();
      sawFsmClass := false;
      history := [];
    }

    /** Apply one envelope; the label is the state after it, or unknown when it tells nothing. */
    method Apply(e: Envelope) returns (name: string)
      requires Valid()
      modifies this, fsm
      ensures Valid() && history == old(history) + [e]
      ensures name == if ShowsState(e) || (e.class_ == Some(Ack) && HasStarted(old(history)))
                      then LabelOf(ClosedForm(history)) else UNKNOWN
    {
      history := history + [e];
      FoldConcat(Requested, old(history), [e]);
      FoldIsClosedForm(history);
      StartedOneMore(old(history), e);
      if e.class_.None? || e.class_.value.AuditLog? { return UNKNOWN; }
      if e.class_.value.Request? {
        sawFsmClass := true;
      } else if e.class_.value.Ack? {
        if !sawFsmClass { return UNKNOWN; }
      } else {
        sawFsmClass := true;
        var _ := fsm.Step(e.class_.value, e.status);
      }
      return LabelOf(fsm.state);
    }

    /** The label of the whole history, by its closed form. */
    method FinalLabel() returns (name: string)
      requires Valid()
      ensures name == if HasStarted(history) then LabelOf(ClosedForm(history)) else UNKNOWN
    {
      FoldIsClosedForm(history);
      return if sawFsmClass then LabelOf(fsm.state) else UNKNOWN;
    }
  }

  lemma StartedOneMore(es: seq<Envelope>, e: Envelope)
    ensures HasStarted(es + [e]) <==> HasStarted(es) || ShowsState(e)
  {
    assert e in es + [e];
    assert forall x <- es :: x in es + [e];
  }

  // ---------------------------------------------------------------- progress

  function Rank(s: TaskState): nat {
    match s
    case Requested => 0
    case Committed => 1
    case _ => 2
  }

  /** The state never moves backward, and a terminal state is final. */
  lemma {:induction false} FoldMovesForward(s: TaskState, es: seq<Envelope>)
    ensures Rank(s) <= Rank(Fold(s, es))
    ensures Rank(Fold(s, es)) == Rank(s) ==> Fold(s, es) == s
    decreases |es|
  {
    if es != [] { FoldMovesForward(After(s, es[0]), es[1..]); }
  }

  lemma {:induction false} FoldConcat(s: TaskState, a: seq<Envelope>, b: seq<Envelope>)
    ensures Fold(s, a + b) == Fold(Fold(s, a), b)
    decreases |a|
  {
    if a == [] {
      assert a + b == b;
    } else {
      assert (a + b)[1..] == a[1..] + b;
      FoldConcat(After(s, a[0]), a[1..], b);
    }
  }

  // ---------------------------------------------------------------- what was ignored does not matter

  /** The envelopes that moved the state. */
  function Effective(s: TaskState, es: seq<Envelope>): seq<Envelope>
    decreases |es|
  {
    if es == [] then []
    else (if Move(s, es[0]).Some? then [es[0]] else []) + Effective(After(s, es[0]), es[1..])
  }

  predicate AllMove(s: TaskState, es: seq<Envelope>)
    decreases |es|
  {
    es == [] || (Move(s, es[0]).Some? && AllMove(After(s, es[0]), es[1..]))
  }

  /** Dropping every envelope that is not a legal transition changes nothing; what is left all moves, at most twice. */
  lemma {:induction false} IgnoredDoNotMatter(s: TaskState, es: seq<Envelope>)
    ensures Fold(s, Effective(s, es)) == Fold(s, es)
    ensures AllMove(s, Effective(s, es)) && |Effective(s, es)| <= 2 - Rank(s)
    decreases |es|
  {
    if es != [] {
      IgnoredDoNotMatter(After(s, es[0]), es[1..]);
      var rest := Effective(After(s, es[0]), es[1..]);
      if Move(s, es[0]).Some? {
        assert ([es[0]] + rest)[1..] == rest;
      } else {
        assert [] + rest == rest;
      }
    }
  }

  // ---------------------------------------------------------------- the closed form

  predicate IsCommit(e: Envelope) { e == Envelope(Some(Commit), None) }

  predicate IsCancel(e: Envelope) { e == Envelope(Some(Control), None) }

  predicate IsDone(e: Envelope) {
    e.class_ == Some(Deliver) && (e.status == Some(StatusCompleted) || e.status == Some(StatusFailed))
  }

  /** Index of the first envelope that a requested task reacts to. */
  function FirstStart(es: seq<Envelope>): (r: Option<nat>)
    ensures r.Some? ==> r.value < |es| && (IsCommit(es[r.value]) || IsCancel(es[r.value]))
    ensures r.Some? ==> forall i :: 0 <= i < r.value ==> !IsCommit(es[i]) && !IsCancel(es[i])
    ensures r.None? ==> forall i :: 0 <= i < |es| ==> !IsCommit(es[i]) && !IsCancel(es[i])
  {
    if es == [] then None
    else if IsCommit(es[0]) || IsCancel(es[0]) then Some(0)
    else
      var r := FirstStart(es[1..]);
      if r.None? then None else Some(r.value + 1)
  }

  /** Index of the first envelope that a committed task reacts to. */
  function FirstEnd(es: seq<Envelope>): (r: Option<nat>)
    ensures r.Some? ==> r.value < |es| && (IsDone(es[r.value]) || IsCancel(es[r.value]))
    ensures r.Some? ==> forall i :: 0 <= i < r.value ==> !IsDone(es[i]) && !IsCancel(es[i])
    ensures r.None? ==> forall i :: 0 <= i < |es| ==> !IsDone(es[i]) && !IsCancel(es[i])
  {
    if es == [] then None
    else if IsDone(es[0]) || IsCancel(es[0]) then Some(0)
    else
      var r := FirstEnd(es[1..]);
      if r.None? then None else Some(r.value + 1)
  }

  /** The end of a committed task by its first ending envelope. */
  function EndOf(es: seq<Envelope>): TaskState {
    match FirstEnd(es)
    case None => Committed
    case Some(i) =>
      if IsCancel(es[i]) then Cancelled
      else if es[i].status == Some(StatusCompleted) then Completed
      else Failed
  }

  /** The state of a whole history: first commit or cancel, then the first ending after that commit. */
  function ClosedForm(es: seq<Envelope>): TaskState {
    match FirstStart(es)
    case None => Requested
    case Some(i) => if IsCancel(es[i]) then Cancelled else EndOf(es[i + 1..])
  }

  lemma {:induction false} CommittedClosedForm(es: seq<Envelope>)
    ensures Fold(Committed, es) == EndOf(es)
    decreases |es|
  {
    if es != [] {
      if IsDone(es[0]) || IsCancel(es[0]) {
        FoldMovesForward(After(Committed, es[0]), es[1..]);
      } else {
        CommittedClosedForm(es[1..]);
        assert forall i :: 0 <= i < |es| - 1 ==> es[1..][i] == es[i + 1];
      }
    }
  }

  /** The fold is its closed form, for every history. */
  lemma {:induction false} FoldIsClosedForm(es: seq<Envelope>)
    ensures Fold(Requested, es) == ClosedForm(es)
    decreases |es|
  {
    if es != [] {
      if IsCommit(es[0]) {
        CommittedClosedForm(es[1..]);
      } else if IsCancel(es[0]) {
        FoldMovesForward(Cancelled, es[1..]);
      } else {
        FoldIsClosedForm(es[1..]);
        var r := FirstStart(es[1..]);
        assert r.Some? ==> es[1..][r.value] == es[r.value + 1] && es[1..][r.value + 1..] == es[r.value + 2..];
      }
    }
  }

  /** A completed or failed task was committed first, with nothing having cancelled it in between. */
  lemma DoneWasCommitted(es: seq<Envelope>)
    requires Fold(Requested, es) == Completed || Fold(Requested, es) == Failed
    ensures exists i, j :: 0 <= i < j < |es| && IsCommit(es[i]) && IsDone(es[j])
                           && Fold(Requested, es[..i]) == Requested && Fold(Requested, es[..j]) == Committed
  {
    FoldIsClosedForm(es);
    var i := FirstStart(es).value;
    var k := FirstEnd(es[i + 1..]).value;
    QuietBeforeStart(es, i);
    QuietBeforeEnd(es[i + 1..], k);
    CommitsOnTheWay(es, i, k);
    assert es[i + 1 + k] == es[i + 1..][k];
  }

  lemma CommitsOnTheWay(es: seq<Envelope>, i: nat, k: nat)
    requires i < |es| && IsCommit(es[i]) && i + 1 + k <= |es|
    requires Fold(Requested, es[..i]) == Requested && Fold(Committed, es[i + 1..][..k]) == Committed
    ensures Fold(Requested, es[..i + 1 + k]) == Committed
  {
    var rest := [es[i]] + es[i + 1..][..k];
    CutAroundCommit(es, i, k);
    FoldConcat(Requested, es[..i], rest);
    assert rest[1..] == es[i + 1..][..k];
  }

  lemma CutAroundCommit(es: seq<Envelope>, i: nat, k: nat)
    requires i + 1 + k <= |es|
    ensures es[..i + 1 + k] == es[..i] + ([es[i]] + es[i + 1..][..k])
  {
    var a, b := es[..i + 1 + k], es[..i] + ([es[i]] + es[i + 1..][..k]);
    assert |a| == |b|;
    assert forall j :: 0 <= j < |a| ==> a[j] == es[j];
    assert forall j :: i < j < |b| ==> b[j] == es[i + 1..][j - i - 1];
  }

  lemma QuietBeforeStart(es: seq<Envelope>, i: nat)
    requires FirstStart(es) == Some(i)
    ensures Fold(Requested, es[..i]) == Requested
  {
    FoldIsClosedForm(es[..i]);
    assert FirstStart(es[..i]).None?;
  }

  lemma QuietBeforeEnd(es: seq<Envelope>, k: nat)
    requires FirstEnd(es) == Some(k)
    ensures Fold(Committed, es[..k]) == Committed
  {
    CommittedClosedForm(es[..k]);
    assert FirstEnd(es[..k]).None?;
  }

  /** Envelope `i` starts the task and envelope `j` ends it, each the first to do so. */
  ghost predicate RunsFrom(es: seq<Envelope>, i: nat, j: nat) {
    && i < j < |es| && IsCommit(es[i])
    && (forall k :: 0 <= k < i ==> !IsCommit(es[k]) && !IsCancel(es[k]))
    && (forall k :: i < k < j ==> !IsDone(es[k]) && !IsCancel(es[k]))
  }

  /** A task that runs to a delivery ends as that says. */
  lemma RunEndsAsDelivered(es: seq<Envelope>, i: nat, j: nat)
    requires RunsFrom(es, i, j) && IsDone(es[j])
    ensures Fold(Requested, es) == if es[j].status == Some(StatusCompleted) then Completed else Failed
  {
    FoldIsClosedForm(es);
    var rest := es[i + 1..];
    assert rest[j - i - 1] == es[j];
    assert forall k :: 0 <= k < j - i - 1 ==> rest[k] == es[k + i + 1];
    assert FirstStart(es) == Some(i) && FirstEnd(rest) == Some(j - i - 1);
  }

  /** And a finished task ran to one. */
  lemma FinishedRan(es: seq<Envelope>) returns (i: nat, j: nat)
    requires Fold(Requested, es) == Completed || Fold(Requested, es) == Failed
    ensures RunsFrom(es, i, j) && IsDone(es[j])
  {
    FoldIsClosedForm(es);
    i := FirstStart(es).value;
    var rest := es[i + 1..];
    var end := FirstEnd(rest).value;
    j := i + 1 + end;
    assert es[j] == rest[end];
    assert forall k :: i < k < j ==> es[k] == rest[k - i - 1];
  }

  ghost predicate RanTo(es: seq<Envelope>, status: TerminalStatus) {
    exists i: nat, j: nat :: RunsFrom(es, i, j) && es[j] == Envelope(Some(Deliver), Some(status))
  }

  /** What a finished task is shown as is what its delivery said, and only such a task is shown so. */
  lemma LabelTellsDelivery(es: seq<Envelope>)
    ensures LabelOf(Fold(Requested, es)) == "COMPLETED" <==> RanTo(es, StatusCompleted)
    ensures LabelOf(Fold(Requested, es)) == "FAILED" <==> RanTo(es, StatusFailed)
  {
    var s := Fold(Requested, es);
    LabelsDiffer(s);
    if s == Completed || s == Failed {
      var i, j := FinishedRan(es);
      RunEndsAsDelivered(es, i, j);
    }
    forall i: nat, j: nat | RunsFrom(es, i, j) && IsDone(es[j])
      ensures s == if es[j].status == Some(StatusCompleted) then Completed else Failed
    {
      RunEndsAsDelivered(es, i, j);
    }
  }

  lemma LabelsDiffer(s: TaskState)
    ensures LabelOf(s) == "COMPLETED" <==> s == Completed
    ensures LabelOf(s) == "FAILED" <==> s == Failed
  {
    var c, f := "COMPLETED", "FAILED";
    assert |c| == 9 && |f| == 6;
    assert "REQUESTED"[0] == 'R' && "COMMITTED"[2] == 'M' && "CANCELLED"[1] == 'A' && c[2] == 'M' && c[3] == 'P'
        && "COMMITTED"[3] == 'M' && c[0] == 'C' && c[1] == 'O';
  }
}
