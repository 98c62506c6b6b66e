/** The two fixed-window rate limiters, and how much either can admit over any span of time. */
module RateLimit {
  import opened Results
  import opened Clock

  const RATE_MAX: nat := 120
  const RATE_WINDOW_SECS: int := 60
  const WINDOW: int := RATE_WINDOW_SECS * NANOS

  datatype Bucket = Bucket(start: Instant, count: nat)

  /** One bucket per tenant. */
  type Buckets = map<string, Bucket>

  function BucketOf(buckets: Buckets, tenant: string): Option<Bucket> {
    if tenant in buckets then Some(buckets[tenant]) else None
  }

  datatype Admission = Admission(bucket: Bucket, admitted: bool)

  /** Gateway form: a lapsed window restarts at one and returns at once. */
  function GatewayAdmit(held: Option<Bucket>, now: Instant): Admission {
    var b := if held.Some? then held.value else Bucket(now, 0);
    if WholeSeconds(now - b.start) >= RATE_WINDOW_SECS then Admission(Bucket(now, 1), true)
    else if b.count < RATE_MAX then Admission(b.(count := b.count + 1), true)
    else Admission(b, false)
  }

  /** Relay form: a lapsed window restarts at zero and falls through to the limit test. */
  function RelayAdmit(held: Option<Bucket>, now: Instant): Admission {
    var b := if held.Some? then held.value else Bucket(now, 0);
    var c := if WholeSeconds(now - b.start) >= RATE_WINDOW_SECS then Bucket(now, 0) else b;
    if c.count >= RATE_MAX then Admission(c, false)
    else Admission(c.(count := c.count + 1), true)
  }

  datatype Trail = Trail(held: Option<Bucket>, verdicts: seq<bool>)

  /** One key's calls in order, through a given limiter. */
  function RunOf(admit: (Option<Bucket>, Instant) -> Admission, times: seq<Instant>): (r: Trail)
    ensures |r.verdicts| == |times|
  {
    if times == [] then Trail(None, [])
    else
      var before := RunOf(admit, times[..|times| - 1]);
      var a := admit(before.held, times[|times| - 1]);
      Trail(Some(a.bucket), before.verdicts + [a.admitted])
  }

  /** The two limiters are the same machine: same verdicts and same bucket on every call sequence. */
  lemma {:induction false} LimitersAgree(times: seq<Instant>)
    ensures RunOf(GatewayAdmit, times) == RunOf(RelayAdmit, times)
  {
    if times != [] {
      LimitersAgree(times[..|times| - 1]);
    }
  }

  // ---------------------------------------------------------------- the span bound

  function CeilDiv(n: int, d: int): int
    requires d > 0
  {
    (n + d - 1) / d
  }

  /** Most admissions any closed span of this length can hold: one window more than it covers. */
  function SpanBudget(length: int): int {
    RATE_MAX * (CeilDiv(length, WINDOW) + 1)
  }

  /** Weight of one admission at `now` when counting the closed span `[lo, hi]`. */
  function InSpan(now: Instant, lo: Instant, hi: Instant): nat {
    if lo <= now <= hi then 1 else 0
  }

  function AdmittedIn(verdicts: seq<bool>, times: seq<Instant>, lo: Instant, hi: Instant): nat
    requires |verdicts| == |times|
  {
    if times == [] then 0
    else
      var k := |times| - 1;
      AdmittedIn(verdicts[..k], times[..k], lo, hi) + (if verdicts[k] then InSpan(times[k], lo, hi) else 0)
  }

  /**
    What one limiter's bucket knows about the `n` admissions it has made inside `[lo, hi]`: they
    fit in the current window plus the full windows that opened after `lo`. Calls may come out of
    order, but no call may find a window that opened more than `late` after its own instant.
   */
  predicate Accounted(held: Option<Bucket>, lo: Instant, hi: Instant, late: int, n: nat) {
    if held.None? then n == 0
    else
      var b := held.value;
      && b.count <= RATE_MAX
      && n <= SpanBudget(hi - lo + late)
      && (b.start <= lo - WINDOW ==> n == 0)
      && (lo - WINDOW < b.start <= lo ==> n <= b.count)
      && (lo < b.start ==> n <= b.count + RATE_MAX * CeilDiv(b.start - lo, WINDOW))
  }

  lemma AdmitKeepsAccount(held: Option<Bucket>, now: Instant, lo: Instant, hi: Instant, late: int, n: nat)
    requires lo <= hi && 0 <= late && Accounted(held, lo, hi, late, n)
    requires held.Some? ==> held.value.start <= now + late
    ensures var a := RelayAdmit(held, now);
            Accounted(Some(a.bucket), lo, hi, late, n + if a.admitted then InSpan(now, lo, hi) else 0)
  {
  }

  lemma AccountedIsBounded(held: Option<Bucket>, lo: Instant, hi: Instant, late: int, n: nat)
    requires lo <= hi && 0 <= late && Accounted(held, lo, hi, late, n)
    ensures n <= SpanBudget(hi - lo + late)
  {
  }

  /** No call comes more than `late` after one that read a later clock. */
  predicate Within(times: seq<Instant>, late: int) {
    forall i, j :: 0 <= i < j < |times| ==> times[i] <= times[j] + late
  }

  lemma {:induction false} RunIsAccounted(times: seq<Instant>, lo: Instant, hi: Instant, late: int)
    requires Within(times, late) && lo <= hi && 0 <= late
    ensures var r := RunOf(RelayAdmit, times);
            && Accounted(r.held, lo, hi, late, AdmittedIn(r.verdicts, times, lo, hi))
            && (r.held.Some? ==> r.held.value.start in times)
  {
    if times != [] {
      var k := |times| - 1;
      RunIsAccounted(times[..k], lo, hi, late);
      var before := RunOf(RelayAdmit, times[..k]);
      assert RunOf(RelayAdmit, times).verdicts[..k] == before.verdicts;
      AdmitKeepsAccount(before.held, times[k], lo, hi, late, AdmittedIn(before.verdicts, times[..k], lo, hi));
    }
  }

  /**
    Rate bound: whatever the call times, if no call is more than `late` overdue, a limiter admits
    at most `RATE_MAX * (ceil((L + late) / window) + 1)` calls in any closed span of length `L`.
   */
  lemma RateBound(times: seq<Instant>, lo: Instant, hi: Instant, late: int)
    requires Within(times, late) && lo <= hi && 0 <= late
    ensures AdmittedIn(RunOf(RelayAdmit, times).verdicts, times, lo, hi) <= SpanBudget(hi - lo + late)
    ensures AdmittedIn(RunOf(GatewayAdmit, times).verdicts, times, lo, hi) <= SpanBudget(hi - lo + late)
  {
    RunIsAccounted(times, lo, hi, late);
    var r := RunOf(RelayAdmit, times);
    AccountedIsBounded(r.held, lo, hi, late, AdmittedIn(r.verdicts, times, lo, hi));
    LimitersAgree(times);
  }

  // ---------------------------------------------------------------- what must be let through

  /** A span that misses no call of another holds no fewer admissions. */
  lemma {:induction false} WiderSpanHoldsMore(verdicts: seq<bool>, times: seq<Instant>, lo: Instant, hi: Instant,
                                              lo': Instant, hi': Instant)
    requires |verdicts| == |times| && forall t <- times :: lo <= t <= hi ==> lo' <= t <= hi'
    ensures AdmittedIn(verdicts, times, lo, hi) <= AdmittedIn(verdicts, times, lo', hi')
  {
    if times != [] {
      var k := |times| - 1;
      assert times[k] in times && forall t <- times[..k] :: t in times;
      WiderSpanHoldsMore(verdicts[..k], times[..k], lo, hi, lo', hi');
    }
  }

  /** What one window can have admitted: calls from `late` before it opened to its last instant. */
  function AdmittedSince(r: Trail, times: seq<Instant>, start: Instant, late: int): nat
    requires |r.verdicts| == |times|
  {
    AdmittedIn(r.verdicts, times, start - late, start + WINDOW - 1)
  }

  /** The bucket counts no more than its window has admitted. */
  lemma {:induction false} CountWasAdmitted(times: seq<Instant>, late: int)
    requires Within(times, late) && 0 <= late
    ensures var r := RunOf(RelayAdmit, times);
            r.held.Some? ==>
              r.held.value.start in times && r.held.value.count <= AdmittedSince(r, times, r.held.value.start, late)
  {
    if times != [] {
      var k := |times| - 1;
      CountWasAdmitted(times[..k], late);
      assert RunOf(RelayAdmit, times).verdicts[..k] == RunOf(RelayAdmit, times[..k]).verdicts;
    }
  }

  lemma RefusalShowsFull(held: Option<Bucket>, now: Instant)
    requires !RelayAdmit(held, now).admitted
    ensures held.Some? && held.value.count >= RATE_MAX && now - WINDOW < held.value.start
  {
  }

  lemma SameVerdict(held: Option<Bucket>, now: Instant)
    ensures GatewayAdmit(held, now) == RelayAdmit(held, now)
  {
  }

  /**
    No refusal without cause: if no call is more than `late` overdue, either limiter refuses one only
    when it has let through `RATE_MAX` calls in the window's length that ends with it, give or take
    `late` at either end. In clock order that is the window's length exactly.
   */
  lemma RefusedOnlyWhenFull(times: seq<Instant>, now: Instant, late: int)
    requires Within(times, late) && 0 <= late && forall t <- times :: t <= now + late
    ensures var lo, hi := now - WINDOW + 1 - late, now + late;
            && (!RelayAdmit(RunOf(RelayAdmit, times).held, now).admitted ==>
                  AdmittedIn(RunOf(RelayAdmit, times).verdicts, times, lo, hi) >= RATE_MAX)
            && (!GatewayAdmit(RunOf(GatewayAdmit, times).held, now).admitted ==>
                  AdmittedIn(RunOf(GatewayAdmit, times).verdicts, times, lo, hi) >= RATE_MAX)
  {
    LimitersAgree(times);
    var r := RunOf(RelayAdmit, times);
    SameVerdict(r.held, now);
    if !RelayAdmit(r.held, now).admitted {
      RefusalShowsFull(r.held, now);
      CountWasAdmitted(times, late);
      var start := r.held.value.start;
      WiderSpanHoldsMore(r.verdicts, times, start - late, start + WINDOW - 1, now - WINDOW + 1 - late, now + late);
    }
  }
}
