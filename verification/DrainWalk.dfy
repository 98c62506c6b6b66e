/**
  The broker's one walk over drained records: decide for each whether to deliver, skip or stop,
  and move the cursor past exactly the records accounted for. Decoding, the filter and the
  self-authorship test are parameters.
 */
module DrainWalk {
  import opened Results
  import opened Octets
  import opened Jsonl
  import opened JsonlAgreement
  import opened Sequences

  datatype Decoded<V> = Decoded(isLocal: bool, value: V)

  /** What never changes between two walks of one owner: what it can read, and what it must never receive. */
  datatype Owner<!V> = Owner(decode: Bytes -> Option<Decoded<V>>, requireLocal: bool, isOwn: V -> bool)

  datatype Cap = Delivered(n: nat) | Scanned(n: nat)

  /** What one call asks for. */
  datatype Policy<!V> = Policy(matches: V -> bool, cap: Option<Cap>)

  /** The item a line holds for this owner under some filter; `None` is permanently ineligible. */
  function Eligible<V>(owner: Owner<V>, line: Bytes): Option<Decoded<V>> {
    match owner.decode(line)
    case None => None
    case Some(d) => if (owner.requireLocal && !d.isLocal) || owner.isOwn(d.value) then None else Some(d)
  }

  function EligibleIn<V>(owner: Owner<V>, lines: seq<Bytes>): seq<Decoded<V>> {
    if lines == [] then []
    else
      var last := Eligible(owner, lines[|lines| - 1]);
      EligibleIn(owner, lines[..|lines| - 1]) + if last.Some? then [last.value] else []
  }

  /** The walk must stop in front of an item that another filter may still want. */
  predicate Blocks<V>(owner: Owner<V>, p: Policy<V>, line: Bytes) {
    Eligible(owner, line).Some? && !p.matches(Eligible(owner, line).value.value)
  }

  /** The first `n` lines are all deliverable or ineligible, and no cap stops the walk among them. */
  predicate CanPass<V>(owner: Owner<V>, p: Policy<V>, lines: seq<Bytes>, n: nat)
    requires n <= |lines|
  {
    && (forall i :: 0 <= i < n ==> !Blocks(owner, p, lines[i]))
    && (p.cap.Some? && p.cap.value.Scanned? ==> n <= p.cap.value.n)
    && (n > 0 ==> !IsSpent(owner, p, lines[..n - 1]))
  }

  /** The delivery cap has been reached; a cap of zero never is. */
  predicate IsSpent<V>(owner: Owner<V>, p: Policy<V>, lines: seq<Bytes>) {
    p.cap.Some? && p.cap.value.Delivered? && 0 < p.cap.value.n <= |EligibleIn(owner, lines)|
  }

  function LinesOf(records: seq<Record>): (lines: seq<Bytes>)
    ensures |lines| == |records|
  {
    seq(|records|, i requires 0 <= i < |records| => records[i].bytes)
  }

  datatype Outcome<V> = Outcome(delivered: seq<Decoded<V>>, next: nat, fullyDrained: bool)

  /** The walk accounts for exactly the first `n` records: it can pass them, and cannot pass one more. */
  ghost predicate Accounts<V>(owner: Owner<V>, p: Policy<V>, since: nat, drain: Drain, n: nat, out: Outcome<V>) {
    var lines := LinesOf(drain.records);
    && n <= |drain.records|
    && CanPass(owner, p, lines, n) && (n < |lines| ==> !CanPass(owner, p, lines, n + 1))
    && out.delivered == EligibleIn(owner, lines[..n])
    && out.next == (if n == 0 then Least(since, drain.next) else drain.records[n - 1].end)
    && (out.fullyDrained <==> n == |lines| && !IsSpent(owner, p, lines))
  }

  function Least(a: nat, b: nat): nat { if a <= b then a else b }

  lemma OneMoreLine<V>(owner: Owner<V>, lines: seq<Bytes>, i: nat)
    requires i < |lines|
    ensures EligibleIn(owner, lines[..i + 1])
            == EligibleIn(owner, lines[..i])
               + if Eligible(owner, lines[i]).Some? then [Eligible(owner, lines[i]).value] else []
  {
    assert lines[..i + 1][..i] == lines[..i];
  }

  /** The scan cap leaves no room for line `n`. */
  predicate IsScanned<V>(p: Policy<V>, n: nat) {
    p.cap.Some? && p.cap.value.Scanned? && n >= p.cap.value.n
  }

  lemma PassOneMore<V>(owner: Owner<V>, p: Policy<V>, lines: seq<Bytes>, n: nat)
    requires n < |lines|
    ensures CanPass(owner, p, lines, n + 1)
            <==> && CanPass(owner, p, lines, n)
                 && !Blocks(owner, p, lines[n]) && !IsScanned(p, n) && !IsSpent(owner, p, lines[..n])
  {
    if n > 0 { OneMoreLine(owner, lines, n - 1); }
  }

  /** The walk so far: `n` records passed, what they gave, and the cursor after them. */
  ghost predicate Passed<V>(owner: Owner<V>, p: Policy<V>, since: nat, drain: Drain, n: nat,
                            delivered: seq<Decoded<V>>, next: nat)
  {
    var lines := LinesOf(drain.records);
    && n <= |drain.records|
    && CanPass(owner, p, lines, n)
    && delivered == EligibleIn(owner, lines[..n])
    && next == if n == 0 then Least(since, drain.next) else drain.records[n - 1].end
  }

  /** The walk goes no further: an obstacle, the scan cap, a spent cap, or the end. */
  predicate HasToStop<V>(owner: Owner<V>, p: Policy<V>, drain: Drain, n: nat, delivered: seq<Decoded<V>>) {
    || n >= |drain.records| || Blocks(owner, p, drain.records[n].bytes) || IsScanned(p, n) || IsSpentBy(p, delivered)
  }

  predicate IsSpentBy<V>(p: Policy<V>, delivered: seq<Decoded<V>>) {
    p.cap.Some? && p.cap.value.Delivered? && 0 < p.cap.value.n <= |delivered|
  }

  /** One record further. */
  lemma PassesOne<V>(owner: Owner<V>, p: Policy<V>, since: nat, drain: Drain, n: nat, delivered: seq<Decoded<V>>,
                     next: nat)
    requires Passed(owner, p, since, drain, n, delivered, next) && !HasToStop(owner, p, drain, n, delivered)
    ensures Passed(owner, p, since, drain, n + 1, Given(owner, delivered, drain.records[n].bytes), drain.records[n].end)
  {
    var lines := LinesOf(drain.records);
    OneMoreLine(owner, lines, n);
    PassOneMore(owner, p, lines, n);
  }

  /** What has been given after one more line. */
  function Given<V>(owner: Owner<V>, delivered: seq<Decoded<V>>, line: Bytes): seq<Decoded<V>> {
    var item := Eligible(owner, line);
    if item.Some? then delivered + [item.value] else delivered
  }

  /** A walk that has to stop has its outcome. */
  lemma Settles<V>(owner: Owner<V>, p: Policy<V>, since: nat, drain: Drain, n: nat, out: Outcome<V>)
    requires Passed(owner, p, since, drain, n, out.delivered, out.next) && HasToStop(owner, p, drain, n, out.delivered)
    requires out.fullyDrained <==> n == |drain.records| && !IsSpentBy(p, out.delivered)
    ensures Accounts(owner, p, since, drain, n, out)
  {
    var lines := LinesOf(drain.records);
    if n < |lines| { PassOneMore(owner, p, lines, n); }
    assert n == |lines| ==> lines[..n] == lines;
  }

  /** How many records the scan cap lets the walk look at. */
  function ScanLength<V>(p: Policy<V>, records: seq<Record>): (n: nat)
    ensures n <= |records|
  {
    if p.cap.Some? && p.cap.value.Scanned? then Least(p.cap.value.n, |records|) else |records|
  }

  /** The rest of a walk that stands at record `n`. */
  function WalkFrom<V>(owner: Owner<V>, p: Policy<V>, records: seq<Record>, n: nat,
                       delivered: seq<Decoded<V>>, next: nat): Outcome<V>
    decreases |records| - n
  {
    if n >= ScanLength(p, records) then Outcome(delivered, next, ScanLength(p, records) == |records|)
    else if Blocks(owner, p, records[n].bytes) then Outcome(delivered, next, false)
    else
      var given := Given(owner, delivered, records[n].bytes);
      if |given| > |delivered| && p.cap == Some(Delivered(|given|)) then Outcome(given, records[n].end, false)
      else WalkFrom(owner, p, records, n + 1, given, records[n].end)
  }

  function WalkOf<V>(owner: Owner<V>, p: Policy<V>, since: nat, drain: Drain): Outcome<V> {
    WalkFrom(owner, p, drain.records, 0, [], Least(since, drain.next))
  }

  /** `walk`, branch by branch. */
  method Walk<V>(owner: Owner<V>, p: Policy<V>, since: nat, drain: Drain) returns (out: Outcome<V>)
    ensures out == WalkOf(owner, p, since, drain)
    ensures exists n :: Accounts(owner, p, since, drain, n, out)
  {
    WalkAccounts(owner, p, since, drain);
    var records := drain.records;
    var scan, fullyDrained := |records|, true;
    if p.cap.Some? && p.cap.value.Scanned? {
      if p.cap.value.n <= |records| { scan := p.cap.value.n; }
      fullyDrained := |records| <= p.cap.value.n;
    }
    var delivered: seq<Decoded<V>> := [];
    var next := Least(since, drain.next);
    for n := 0 to scan
      invariant WalkFrom(owner, p, records, n, delivered, next) == WalkOf(owner, p, since, drain)
    {
      var record := records[n];
      var decoded := owner.decode(record.bytes);
      if decoded.None? {
        next := record.end;
      } else if owner.requireLocal && !decoded.value.isLocal {
        next := record.end;
      } else if owner.isOwn(decoded.value.value) {
        next := record.end;
      } else if p.matches(decoded.value.value) {
        delivered := delivered + [decoded.value];
        next := record.end;
        if p.cap.Some? && p.cap.value.Delivered? && p.cap.value.n == |delivered| {
          return Outcome(delivered, next, false);
        }
      } else {
        return Outcome(delivered, next, false);
      }
    }
    return Outcome(delivered, next, fullyDrained);
  }

  /** How many records the rest of a walk that stands at record `n` accounts for, with those before. */
  function CountFrom<V>(owner: Owner<V>, p: Policy<V>, records: seq<Record>, n: nat, delivered: seq<Decoded<V>>): nat
    decreases |records| - n
  {
    if n >= ScanLength(p, records) || Blocks(owner, p, records[n].bytes) then n
    else
      var given := Given(owner, delivered, records[n].bytes);
      if |given| > |delivered| && p.cap == Some(Delivered(|given|)) then n + 1
      else CountFrom(owner, p, records, n + 1, given)
  }

  function CountOf<V>(owner: Owner<V>, p: Policy<V>, drain: Drain): nat {
    CountFrom(owner, p, drain.records, 0, [])
  }

  lemma {:induction false} WalkFromAccounts<V>(owner: Owner<V>, p: Policy<V>, since: nat, drain: Drain, n: nat,
                                               delivered: seq<Decoded<V>>, next: nat)
    requires Passed(owner, p, since, drain, n, delivered, next) && !IsSpentBy(p, delivered)
    requires n <= ScanLength(p, drain.records)
    ensures Accounts(owner, p, since, drain, CountFrom(owner, p, drain.records, n, delivered),
                     WalkFrom(owner, p, drain.records, n, delivered, next))
    decreases |drain.records| - n
  {
    if HasToStop(owner, p, drain, n, delivered) {
      StopOfWalk(owner, p, drain, n, delivered, next);
      StopAccounts(owner, p, since, drain, n, delivered, next);
    } else {
      var given, end := Given(owner, delivered, drain.records[n].bytes), drain.records[n].end;
      NotScanned(owner, p, drain, n, delivered);
      PassesOne(owner, p, since, drain, n, delivered, next);
      StepOfWalk(owner, p, drain, n, delivered, next);
      if IsSpentBy(p, given) {
        SpentAccounts(owner, p, since, drain, n + 1, given, end);
      } else {
        WalkFromAccounts(owner, p, since, drain, n + 1, given, end);
      }
    }
  }

  lemma NotScanned<V>(owner: Owner<V>, p: Policy<V>, drain: Drain, n: nat, delivered: seq<Decoded<V>>)
    requires !HasToStop(owner, p, drain, n, delivered)
    ensures n < |drain.records| && n + 1 <= ScanLength(p, drain.records)
  {
  }

  lemma StopAccounts<V>(owner: Owner<V>, p: Policy<V>, since: nat, drain: Drain, n: nat,
                        delivered: seq<Decoded<V>>, next: nat)
    requires Passed(owner, p, since, drain, n, delivered, next) && HasToStop(owner, p, drain, n, delivered)
    requires !IsSpentBy(p, delivered)
    ensures Accounts(owner, p, since, drain, n, Outcome(delivered, next, n == |drain.records|))
  {
    Settles(owner, p, since, drain, n, Outcome(delivered, next, n == |drain.records|));
  }

  lemma SpentAccounts<V>(owner: Owner<V>, p: Policy<V>, since: nat, drain: Drain, n: nat,
                         delivered: seq<Decoded<V>>, next: nat)
    requires Passed(owner, p, since, drain, n, delivered, next) && IsSpentBy(p, delivered)
    ensures Accounts(owner, p, since, drain, n, Outcome(delivered, next, false))
  {
    Settles(owner, p, since, drain, n, Outcome(delivered, next, false));
  }

  lemma StopOfWalk<V>(owner: Owner<V>, p: Policy<V>, drain: Drain, n: nat, delivered: seq<Decoded<V>>, next: nat)
    requires HasToStop(owner, p, drain, n, delivered) && !IsSpentBy(p, delivered) && n <= ScanLength(p, drain.records)
    ensures CountFrom(owner, p, drain.records, n, delivered) == n
    ensures WalkFrom(owner, p, drain.records, n, delivered, next) == Outcome(delivered, next, n == |drain.records|)
  {
  }

  lemma StepOfWalk<V>(owner: Owner<V>, p: Policy<V>, drain: Drain, n: nat, delivered: seq<Decoded<V>>, next: nat)
    requires n < |drain.records| && !HasToStop(owner, p, drain, n, delivered)
    ensures var given, end := Given(owner, delivered, drain.records[n].bytes), drain.records[n].end;
            if IsSpentBy(p, given) then
              && CountFrom(owner, p, drain.records, n, delivered) == n + 1
              && WalkFrom(owner, p, drain.records, n, delivered, next) == Outcome(given, end, false)
            else
              && CountFrom(owner, p, drain.records, n, delivered) == CountFrom(owner, p, drain.records, n + 1, given)
              && WalkFrom(owner, p, drain.records, n, delivered, next)
                 == WalkFrom(owner, p, drain.records, n + 1, given, end)
  {
  }

  /** The walk accounts for exactly the records it counts. */
  lemma WalkAccounts<V>(owner: Owner<V>, p: Policy<V>, since: nat, drain: Drain)
    ensures Accounts(owner, p, since, drain, CountOf(owner, p, drain), WalkOf(owner, p, since, drain))
  {
    WalkFromAccounts(owner, p, since, drain, 0, [], Least(since, drain.next));
  }

  // ---------------------------------------------------------------- the outcome is determined

  lemma {:induction false} PassIsClosed<V>(owner: Owner<V>, p: Policy<V>, lines: seq<Bytes>, m: nat, n: nat)
    requires m <= n <= |lines| && CanPass(owner, p, lines, n)
    ensures CanPass(owner, p, lines, m)
    decreases n
  {
    if m < n {
      PassOneMore(owner, p, lines, n - 1);
      PassIsClosed(owner, p, lines, m, n - 1);
    }
  }

  /** Two outcomes of one walk are the same: the contract leaves the walk no choice. */
  lemma OutcomeIsUnique<V>(owner: Owner<V>, p: Policy<V>, since: nat, drain: Drain,
                           m: nat, n: nat, a: Outcome<V>, b: Outcome<V>)
    requires Accounts(owner, p, since, drain, m, a) && Accounts(owner, p, since, drain, n, b)
    ensures m == n && a == b
  {
    var lines := LinesOf(drain.records);
    if m < n { PassIsClosed(owner, p, lines, m + 1, n); }
    if n < m { PassIsClosed(owner, p, lines, n + 1, m); }
  }

  // ---------------------------------------------------------------- lines behind and ahead of a cursor

  /** How many lines start before the cursor. */
  function Behind(lines: seq<Bytes>, cursor: nat): (j: nat)
    ensures j <= |lines|
  {
    if lines == [] then 0
    else if SizeOf(lines[..|lines| - 1]) < cursor then |lines|
    else Behind(lines[..|lines| - 1], cursor)
  }

  /** The lines a walk can still come to. */
  function Due(lines: seq<Bytes>, cursor: nat): seq<Bytes> {
    lines[Behind(lines, cursor)..]
  }

  lemma {:induction false} BehindIs(lines: seq<Bytes>, cursor: nat)
    ensures var j := Behind(lines, cursor);
            && (forall i :: 0 <= i < j ==> SizeOf(lines[..i]) < cursor)
            && (j < |lines| ==> cursor <= SizeOf(lines[..j]))
  {
    if lines != [] {
      var k := |lines| - 1;
      if SizeOf(lines[..k]) < cursor {
        forall i | 0 <= i < |lines| ensures SizeOf(lines[..i]) < cursor {
          if i < k { PrefixesGrow(lines, i, k); }
        }
      } else {
        BehindIs(lines[..k], cursor);
        assert forall i :: 0 <= i <= k ==> lines[..k][..i] == lines[..i];
      }
    }
  }

  /** Standing at a line start leaves exactly the lines before it behind. */
  lemma BehindAtLine(lines: seq<Bytes>, k: nat)
    requires k <= |lines|
    ensures Behind(lines, SizeOf(lines[..k])) == k
  {
    var j := Behind(lines, SizeOf(lines[..k]));
    BehindIs(lines, SizeOf(lines[..k]));
    if j < k { PrefixesGrow(lines, j, k); }
    assert forall i :: 0 <= i < j ==> SizeOf(lines[..i]) < SizeOf(lines[..k]);
  }

  lemma PrefixFits(lines: seq<Bytes>, j: nat)
    requires j <= |lines|
    ensures SizeOf(lines[..j]) <= SizeOf(lines)
    ensures j < |lines| ==> SizeOf(lines[..j]) < SizeOf(lines)
  {
    assert lines[..|lines|] == lines;
    if j < |lines| { PrefixesGrow(lines, j, |lines|); }
  }

  lemma TakeMore(lines: seq<Bytes>, j: nat, n: nat)
    requires j + n <= |lines|
    ensures lines[..j] + lines[j..][..n] == lines[..j + n]
  {
  }

  lemma {:induction false} PayloadsAt(records: seq<Record>)
    ensures PayloadsOf(records) == LinesOf(records)
  {
    if records != [] { PayloadsAt(records[1..]); }
  }

  /** A drain at any cursor at all, mid-line or past the end, looks at the records of the due lines. */
  lemma DrainedFrom(lines: seq<Bytes>, cursor: nat)
    ensures var j := Behind(lines, cursor);
            DrainLines(lines, cursor).records == RecordsFrom(lines[j..], SizeOf(lines[..j]), cursor)
  {
    var j := Behind(lines, cursor);
    BehindIs(lines, cursor);
    SkipRecords(lines, j, cursor);
    PrefixFits(lines, j);
    if cursor >= SizeOf(lines) { assert j == |lines|; }
  }

  lemma DrainedAreDue(lines: seq<Bytes>, cursor: nat)
    ensures LinesOf(DrainLines(lines, cursor).records) == Due(lines, cursor)
  {
    var j := Behind(lines, cursor);
    var rest := lines[j..];
    DrainedFrom(lines, cursor);
    BehindIs(lines, cursor);
    var records := DrainLines(lines, cursor).records;
    if j < |lines| {
      RecordsAreLines(rest, SizeOf(lines[..j]), cursor, |rest|);
      assert records[..|rest|] == records && rest[..|rest|] == rest;
    }
    PayloadsAt(records);
  }

  /** Each ends where the lines up to it do. */
  lemma DrainedEnds(lines: seq<Bytes>, cursor: nat, n: nat)
    requires 0 < n <= |Due(lines, cursor)|
    ensures var records := DrainLines(lines, cursor).records;
            n <= |records| && records[n - 1].end == SizeOf(lines[..Behind(lines, cursor) + n])
  {
    var j := Behind(lines, cursor);
    DrainedFrom(lines, cursor);
    BehindIs(lines, cursor);
    RecordEndsAt(lines, j, cursor, n);
  }

  lemma RecordEndsAt(lines: seq<Bytes>, j: nat, cursor: nat, n: nat)
    requires 0 < n && j + n <= |lines| && cursor <= SizeOf(lines[..j])
    ensures var records := RecordsFrom(lines[j..], SizeOf(lines[..j]), cursor);
            n <= |records| && records[n - 1].end == SizeOf(lines[..j + n])
  {
    RecordsAreLines(lines[j..], SizeOf(lines[..j]), cursor, n);
    TakeMore(lines, j, n);
    SizeOfConcat(lines[..j], lines[j..][..n]);
  }

  // ---------------------------------------------------------------- runs of appends, walks and truncations

  /** One mailbox, one owner's cursor into it, and everything that owner has been given. */
  datatype Inflow<V> = Inflow(lines: seq<Bytes>, cursor: nat, given: seq<Decoded<V>>)

  datatype Event<!V> = Arrived(line: Bytes) | Walked(p: Policy<V>) | Truncated

  function After<V>(owner: Owner<V>, s: Inflow<V>, e: Event<V>): Inflow<V> {
    match e
    case Arrived(line) => s.(lines := s.lines + [line])
    case Truncated => s.(lines := [])
    case Walked(p) =>
      var out := WalkOf(owner, p, s.cursor, DrainLines(s.lines, s.cursor));
      s.(cursor := out.next, given := s.given + out.delivered)
  }

  function InflowAfter<V>(owner: Owner<V>, s: Inflow<V>, events: seq<Event<V>>): Inflow<V> {
    if events == [] then s
    else After(owner, InflowAfter(owner, s, events[..|events| - 1]), events[|events| - 1])
  }

  function DueIn<V>(s: Inflow<V>): seq<Bytes> { Due(s.lines, s.cursor) }

  /** The lines this event makes the walk pass: delivered, or skipped as ineligible for good. */
  function PassedBy<V>(owner: Owner<V>, s: Inflow<V>, e: Event<V>): seq<Bytes> {
    if !e.Walked? then []
    else
      var n := CountOf(owner, e.p, DrainLines(s.lines, s.cursor));
      if n <= |DueIn(s)| then DueIn(s)[..n] else []
  }

  /** The lines this event puts out of reach: those due at a truncation, and one that arrives behind the cursor. */
  function LostBy<V>(s: Inflow<V>, e: Event<V>): seq<Bytes> {
    match e
    case Walked(_) => []
    case Truncated => DueIn(s)
    case Arrived(line) => if SizeOf(s.lines) < s.cursor then [line] else []
  }

  function ArrivedBy<V>(e: Event<V>): seq<Bytes> { if e.Arrived? then [e.line] else [] }

  lemma {:induction false} EligibleInConcat<V>(owner: Owner<V>, a: seq<Bytes>, b: seq<Bytes>)
    ensures EligibleIn(owner, a + b) == EligibleIn(owner, a) + EligibleIn(owner, b)
    decreases |b|
  {
    if b == [] {
      assert a + b == a;
    } else {
      var k := |b| - 1;
      assert (a + b)[..|a| + k] == a + b[..k];
      EligibleInConcat(owner, a, b[..k]);
      var last := if Eligible(owner, b[k]).Some? then [Eligible(owner, b[k]).value] else [];
      Associates(EligibleIn(owner, a), EligibleIn(owner, b[..k]), last);
    }
  }

  lemma ArrivalIsDue(lines: seq<Bytes>, cursor: nat, line: Bytes)
    ensures Due(lines + [line], cursor) == if SizeOf(lines) < cursor then [] else Due(lines, cursor) + [line]
    ensures SizeOf(lines) < cursor ==> Due(lines, cursor) == []
  {
    var all, j := lines + [line], Behind(lines, cursor);
    assert all[..|all| - 1] == lines;
    BehindIs(lines, cursor);
    PrefixFits(lines, j);
    if SizeOf(lines) >= cursor { assert all[j..] == lines[j..] + [line]; }
  }

  /** One walk: it passes a first part of what is due, gives what that part holds, and leaves the rest due. */
  lemma WalkTakesDue<V>(owner: Owner<V>, s: Inflow<V>, p: Policy<V>)
    ensures var s', passed := After(owner, s, Walked(p)), PassedBy(owner, s, Walked(p));
            && DueIn(s) == passed + DueIn(s')
            && s'.given == s.given + EligibleIn(owner, passed)
            && s'.cursor <= SizeOf(s.lines)
  {
    var drain := DrainLines(s.lines, s.cursor);
    WalkAccounts(owner, p, s.cursor, drain);
    AccountedMovesOn(owner, p, s.lines, s.cursor, CountOf(owner, p, drain), WalkOf(owner, p, s.cursor, drain));
  }

  lemma AccountedMovesOn<V>(owner: Owner<V>, p: Policy<V>, lines: seq<Bytes>, cursor: nat, n: nat, out: Outcome<V>)
    requires Accounts(owner, p, cursor, DrainLines(lines, cursor), n, out)
    ensures n <= |Due(lines, cursor)| && out.delivered == EligibleIn(owner, Due(lines, cursor)[..n])
    ensures Due(lines, cursor) == Due(lines, cursor)[..n] + Due(lines, out.next) && out.next <= SizeOf(lines)
  {
    DrainedAreDue(lines, cursor);
    if n > 0 {
      DrainedEnds(lines, cursor, n);
      LandsOnLine(lines, Behind(lines, cursor), n, out.next);
    } else {
      LandsInPlace(lines, cursor);
      StaysDue(Due(lines, cursor), Due(lines, out.next));
    }
  }

  lemma StaysDue(due: seq<Bytes>, due': seq<Bytes>)
    requires due == due'
    ensures due == due[..0] + due'
  {
  }

  lemma DueAtLine(lines: seq<Bytes>, k: nat)
    requires k <= |lines|
    ensures Due(lines, SizeOf(lines[..k])) == lines[k..]
  {
    BehindAtLine(lines, k);
  }

  /** Passing `n` of the due lines leaves the others due. */
  lemma LandsOnLine(lines: seq<Bytes>, j: nat, n: nat, next: nat)
    requires j + n <= |lines| && next == SizeOf(lines[..j + n])
    ensures lines[j..] == lines[j..][..n] + Due(lines, next) && next <= SizeOf(lines)
  {
    DueAtLine(lines, j + n);
    PrefixFits(lines, j + n);
    CutAgain(lines, j, n);
  }

  /** Not passing anything leaves the same lines due, even where the cursor is brought back to the end. */
  lemma LandsInPlace(lines: seq<Bytes>, cursor: nat)
    ensures Due(lines, Least(cursor, SizeOf(lines))) == Due(lines, cursor)
  {
    if cursor > SizeOf(lines) {
      BehindIs(lines, cursor);
      PrefixFits(lines, Behind(lines, cursor));
      assert lines[..|lines|] == lines;
      BehindAtLine(lines, |lines|);
    }
  }

  /** Everything that ever happened to the lines of a run. */
  datatype Ledger = Ledger(arrived: seq<Bytes>, passed: seq<Bytes>, lost: seq<Bytes>)

  function LedgerAfter<V>(owner: Owner<V>, s: Inflow<V>, events: seq<Event<V>>): Ledger {
    if events == [] then Ledger([], [], [])
    else
      var k := |events| - 1;
      var before, now, e := LedgerAfter(owner, s, events[..k]), InflowAfter(owner, s, events[..k]), events[k];
      Ledger(before.arrived + ArrivedBy(e), before.passed + PassedBy(owner, now, e), before.lost + LostBy(now, e))
  }

  type Bag = multiset<Bytes>

  lemma BagOfConcat(a: seq<Bytes>, b: seq<Bytes>)
    ensures multiset(a + b) == multiset(a) + multiset(b)
  {
  }

  lemma BagsBalance(arrived: Bag, passed: Bag, lost: Bag, due: Bag, a: Bag, p: Bag, l: Bag, due': Bag)
    requires arrived == passed + lost + due && due + a == p + l + due'
    ensures arrived + a == (passed + p) + (lost + l) + due'
  {
    forall x: Bytes ensures (arrived + a)[x] == ((passed + p) + (lost + l) + due')[x] {
      assert arrived[x] == (passed + lost + due)[x] && (due + a)[x] == (p + l + due')[x];
    }
  }

  const NO_LINES: seq<Bytes> := []

  /** What one event does to the lines in reach: taken off the front, added at the end, or all given up. */
  lemma TakenBalance(due: seq<Bytes>, passed: seq<Bytes>, due': seq<Bytes>)
    requires due == passed + due'
    ensures multiset(due) + multiset(NO_LINES) == multiset(passed) + multiset(NO_LINES) + multiset(due')
  {
    BagOfConcat(passed, due');
  }

  lemma LostBalance(due: seq<Bytes>, a: seq<Bytes>, l: seq<Bytes>, due': seq<Bytes>)
    requires due + a == l + due'
    ensures multiset(due) + multiset(a) == multiset(NO_LINES) + multiset(l) + multiset(due')
  {
    BagOfConcat(due, a);
    BagOfConcat(l, due');
  }

  /** One event: what is due, plus what arrives, is what is passed, what is lost and what is still due. */
  lemma EventConserves<V>(owner: Owner<V>, s: Inflow<V>, e: Event<V>)
    ensures multiset(DueIn(s)) + multiset(ArrivedBy(e))
            == multiset(PassedBy(owner, s, e)) + multiset(LostBy(s, e)) + multiset(DueIn(After(owner, s, e)))
  {
    match e {
      case Arrived(line) => ArrivalConserves(s.lines, s.cursor, line);
      case Walked(p) => WalkConserves(owner, s, p);
      case Truncated => LostBalance(DueIn(s), NO_LINES, DueIn(s), NO_LINES);
    }
  }

  lemma ArrivalConserves(lines: seq<Bytes>, cursor: nat, line: Bytes)
    ensures multiset(Due(lines, cursor)) + multiset([line])
            == multiset(NO_LINES) + multiset(if SizeOf(lines) < cursor then [line] else [])
               + multiset(Due(lines + [line], cursor))
  {
    ArrivalIsDue(lines, cursor, line);
    if SizeOf(lines) < cursor {
      LostBalance(NO_LINES, [line], [line], NO_LINES);
    } else {
      AheadBalance(Due(lines, cursor), line);
    }
  }

  lemma AheadBalance(due: seq<Bytes>, line: Bytes)
    ensures multiset(due) + multiset([line]) == multiset(NO_LINES) + multiset(NO_LINES) + multiset(due + [line])
  {
    BagOfConcat(due, [line]);
  }

  lemma WalkConserves<V>(owner: Owner<V>, s: Inflow<V>, p: Policy<V>)
    ensures multiset(DueIn(s)) + multiset(NO_LINES)
            == multiset(PassedBy(owner, s, Walked(p))) + multiset(NO_LINES)
               + multiset(DueIn(After(owner, s, Walked(p))))
  {
    WalkTakesDue(owner, s, p);
    TakenBalance(DueIn(s), PassedBy(owner, s, Walked(p)), DueIn(After(owner, s, Walked(p))));
  }

  lemma EventGives<V>(owner: Owner<V>, s: Inflow<V>, e: Event<V>)
    ensures After(owner, s, e).given == s.given + EligibleIn(owner, PassedBy(owner, s, e))
  {
    if e.Walked? { WalkTakesDue(owner, s, e.p); }
  }

  lemma {:induction false} LinesAreConserved<V>(owner: Owner<V>, start: Inflow<V>, events: seq<Event<V>>)
    requires start.lines == []
    ensures var l := LedgerAfter(owner, start, events);
            multiset(l.arrived)
            == multiset(l.passed) + multiset(l.lost) + multiset(DueIn(InflowAfter(owner, start, events)))
    decreases |events|
  {
    if events != [] {
      var k := |events| - 1;
      LinesAreConserved(owner, start, events[..k]);
      var s, l, e := InflowAfter(owner, start, events[..k]), LedgerAfter(owner, start, events[..k]), events[k];
      EventConserves(owner, s, e);
      BagOfConcat(l.arrived, ArrivedBy(e));
      BagOfConcat(l.passed, PassedBy(owner, s, e));
      BagOfConcat(l.lost, LostBy(s, e));
      BagsBalance(multiset(l.arrived), multiset(l.passed), multiset(l.lost), multiset(DueIn(s)), multiset(ArrivedBy(e)),
                  multiset(PassedBy(owner, s, e)), multiset(LostBy(s, e)), multiset(DueIn(After(owner, s, e))));
    }
  }

  lemma {:induction false} PassedIsGiven<V>(owner: Owner<V>, start: Inflow<V>, events: seq<Event<V>>)
    ensures InflowAfter(owner, start, events).given
            == start.given + EligibleIn(owner, LedgerAfter(owner, start, events).passed)
    decreases |events|
  {
    if events == [] {
      assert start.given + EligibleIn(owner, []) == start.given;
    } else {
      var k := |events| - 1;
      PassedIsGiven(owner, start, events[..k]);
      var s, l, e := InflowAfter(owner, start, events[..k]), LedgerAfter(owner, start, events[..k]), events[k];
      EventGives(owner, s, e);
      EligibleInConcat(owner, l.passed, PassedBy(owner, s, e));
      Associates(start.given, EligibleIn(owner, l.passed), EligibleIn(owner, PassedBy(owner, s, e)));
    }
  }

  /**
    Every line is accounted for, over every run of arrivals, walks under any filters and caps, and
    truncations. Each line that arrived was passed, or was lost, or is still due; and what the
    owner has been given is, in order and each once, exactly what the passed lines hold for it. A
    line is lost only when it is due at a truncation, or when it arrives in a truncated mailbox
    behind the old cursor, before a walk has brought that back.
   */
  lemma EveryLineIsAccountedFor<V>(owner: Owner<V>, base: seq<Decoded<V>>, events: seq<Event<V>>)
    ensures var s := InflowAfter(owner, Inflow([], 0, base), events);
            var l := LedgerAfter(owner, Inflow([], 0, base), events);
            && multiset(l.arrived) == multiset(l.passed) + multiset(l.lost) + multiset(DueIn(s))
            && s.given == base + EligibleIn(owner, l.passed)
  {
    LinesAreConserved(owner, Inflow([], 0, base), events);
    PassedIsGiven(owner, Inflow([], 0, base), events);
  }

  /** What this owner may be given: not its own, and local where it asks for that. */
  predicate MayReceive<V>(owner: Owner<V>, d: Decoded<V>) {
    !owner.isOwn(d.value) && (owner.requireLocal ==> d.isLocal)
  }

  /** The `k`-th item comes from the `at(k)`-th line, in order. */
  ghost predicate ComesFrom<V>(owner: Owner<V>, lines: seq<Bytes>, items: seq<Decoded<V>>, at: seq<nat>) {
    && |at| == |items|
    && (forall k :: 0 <= k < |at| ==> at[k] < |lines| && owner.decode(lines[at[k]]) == Some(items[k]))
    && (forall k, l :: 0 <= k < l < |at| ==> at[k] < at[l])
  }

  /** Every line that decodes to something the owner may have is one of those. */
  ghost predicate OmitsNone<V>(owner: Owner<V>, lines: seq<Bytes>, at: seq<nat>) {
    forall i :: 0 <= i < |lines| && owner.decode(lines[i]).Some? && MayReceive(owner, owner.decode(lines[i]).value)
                ==> i in at
  }

  lemma ComesFromMore<V>(owner: Owner<V>, lines: seq<Bytes>, items: seq<Decoded<V>>, at: seq<nat>, last: Bytes)
    requires ComesFrom(owner, lines, items, at)
    ensures ComesFrom(owner, lines + [last], items, at)
    ensures owner.decode(last).Some? ==>
              ComesFrom(owner, lines + [last], items + [owner.decode(last).value], at + [|lines|])
  {
    assert forall k :: 0 <= k < |at| ==> (lines + [last])[at[k]] == lines[at[k]];
  }

  lemma OmitsNoneMore<V>(owner: Owner<V>, lines: seq<Bytes>, at: seq<nat>, last: Bytes)
    requires OmitsNone(owner, lines, at)
    ensures OmitsNone(owner, lines + [last], at + [|lines|])
    ensures Eligible(owner, last).None? ==> OmitsNone(owner, lines + [last], at)
  {
    var all, at' := lines + [last], at + [|lines|];
    assert at'[|at|] == |lines|;
    forall i | 0 <= i < |lines| && owner.decode(all[i]).Some? && MayReceive(owner, owner.decode(all[i]).value)
      ensures i in at
    {
      assert all[i] == lines[i];
    }
  }

  /** What lines hold for an owner is each permitted item they decode to, once, in order, and nothing else. */
  lemma {:induction false} EligibleAre<V>(owner: Owner<V>, lines: seq<Bytes>) returns (at: seq<nat>)
    ensures ComesFrom(owner, lines, EligibleIn(owner, lines), at) && OmitsNone(owner, lines, at)
    ensures forall d <- EligibleIn(owner, lines) :: MayReceive(owner, d)
  {
    if lines == [] {
      at := [];
    } else {
      var k := |lines| - 1;
      var before := EligibleAre(owner, lines[..k]);
      assert lines[..k] + [lines[k]] == lines;
      ComesFromMore(owner, lines[..k], EligibleIn(owner, lines[..k]), before, lines[k]);
      OmitsNoneMore(owner, lines[..k], before, lines[k]);
      at := if Eligible(owner, lines[k]).Some? then before + [k] else before;
    }
  }

  /**
    Over every run: what the owner has been given beyond `base` is, in order and each once, every
    item it may have that a passed line decodes to. It is never given its own posts, nor, where it
    asks for local ones, anything from elsewhere.
   */
  lemma GivenIsWhatItMayHave<V>(owner: Owner<V>, base: seq<Decoded<V>>, events: seq<Event<V>>) returns (at: seq<nat>)
    ensures var given := InflowAfter(owner, Inflow([], 0, base), events).given;
            var passed := LedgerAfter(owner, Inflow([], 0, base), events).passed;
            && base <= given
            && (forall d <- given[|base|..] :: !owner.isOwn(d.value) && (owner.requireLocal ==> d.isLocal))
            && ComesFrom(owner, passed, given[|base|..], at) && OmitsNone(owner, passed, at)
  {
    PassedIsGiven(owner, Inflow([], 0, base), events);
    var passed := LedgerAfter(owner, Inflow([], 0, base), events).passed;
    at := EligibleAre(owner, passed);
    assert (base + EligibleIn(owner, passed))[|base|..] == EligibleIn(owner, passed);
  }

  /** The cursor is past the end only between a truncation and the next walk. */
  ghost predicate IsStale<V>(s: Inflow<V>) { SizeOf(s.lines) < s.cursor }

  /**
    Without a truncation nothing is ever lost, whatever the filters and caps, and the lines that
    arrived are the passed ones followed by the due ones, in order.
   */
  lemma {:induction false} NothingIsLost<V>(owner: Owner<V>, base: seq<Decoded<V>>, events: seq<Event<V>>)
    requires Truncated !in events
    ensures var s := InflowAfter(owner, Inflow([], 0, base), events);
            var l := LedgerAfter(owner, Inflow([], 0, base), events);
            l.lost == [] && l.arrived == l.passed + DueIn(s) && !IsStale(s)
    decreases |events|
  {
    if events != [] {
      var k, start := |events| - 1, Inflow([], 0, base);
      NothingIsLost(owner, base, events[..k]);
      var s, l := InflowAfter(owner, start, events[..k]), LedgerAfter(owner, start, events[..k]);
      assert events[k] in events;
      LosesNothing(owner, s, events[k], l.arrived, l.passed);
    }
  }

  lemma LosesNothing<V>(owner: Owner<V>, s: Inflow<V>, e: Event<V>, arrived: seq<Bytes>, passed: seq<Bytes>)
    requires !e.Truncated? && !IsStale(s) && arrived == passed + DueIn(s)
    ensures LostBy(s, e) == [] && !IsStale(After(owner, s, e))
    ensures arrived + ArrivedBy(e) == (passed + PassedBy(owner, s, e)) + DueIn(After(owner, s, e))
  {
    match e {
      case Arrived(line) =>
        ArrivalIsDue(s.lines, s.cursor, line);
        SizeOfConcat(s.lines, [line]);
        Associates(passed, DueIn(s), [line]);
      case Walked(p) =>
        WalkTakesDue(owner, s, p);
        Associates(passed, PassedBy(owner, s, e), DueIn(After(owner, s, e)));
    }
  }

  /** A walk heals: it never leaves the cursor past the end, so nothing that arrives before a truncation is lost. */
  lemma WalkHeals<V>(owner: Owner<V>, s: Inflow<V>, p: Policy<V>, line: Bytes)
    ensures var s' := After(owner, s, Walked(p));
            !IsStale(s') && LostBy(s', Event<V>.Arrived(line)) == []
  {
    WalkTakesDue(owner, s, p);
  }

  /** A walk that reports itself fully drained has left nothing due, in whatever state it started. */
  lemma FullWalkCatchesUp<V>(owner: Owner<V>, s: Inflow<V>, p: Policy<V>)
    requires WalkOf(owner, p, s.cursor, DrainLines(s.lines, s.cursor)).fullyDrained
    ensures DueIn(After(owner, s, Walked(p))) == [] && PassedBy(owner, s, Walked(p)) == DueIn(s)
  {
    var drain := DrainLines(s.lines, s.cursor);
    WalkAccounts(owner, p, s.cursor, drain);
    DrainedAreDue(s.lines, s.cursor);
    WalkTakesDue(owner, s, p);
  }

  /** And a walk without filter or cap always does. */
  lemma UnfilteredIsFull<V(!new)>(owner: Owner<V>, p: Policy<V>, since: nat, drain: Drain)
    requires p.cap.None? && forall v :: p.matches(v)
    ensures WalkOf(owner, p, since, drain).fullyDrained
  {
    WalkAccounts(owner, p, since, drain);
    UnfilteredPassesAll(owner, p, LinesOf(drain.records), CountOf(owner, p, drain));
  }

  lemma UnfilteredPassesAll<V(!new)>(owner: Owner<V>, p: Policy<V>, lines: seq<Bytes>, n: nat)
    requires p.cap.None? && (forall v :: p.matches(v)) && n <= |lines|
    ensures CanPass(owner, p, lines, n) && !IsSpent(owner, p, lines)
    ensures n < |lines| ==> CanPass(owner, p, lines, n + 1)
  {
  }

  /**
    Lines appended after the mailbox is emptied and before the next walk: a drain at the old
    cursor returns them all if and only if that cursor was at the start or there are none.
   */
  lemma RegrownIsSeenIff(lines: seq<Bytes>, cursor: nat)
    ensures LinesOf(DrainLines(lines, cursor).records) == lines <==> cursor == 0 || lines == []
  {
    var j := Behind(lines, cursor);
    DrainedAreDue(lines, cursor);
    BehindIs(lines, cursor);
    if j == 0 {
      assert lines[0..] == lines && lines[..0] == [];
    } else {
      assert |lines[j..]| < |lines| && SizeOf(lines[..0]) < cursor;
    }
  }
}
