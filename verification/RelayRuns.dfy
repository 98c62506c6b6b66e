/**
  Whole runs of the relay's fetch gate: an authorization drains a queue at most once exactly
  when its timestamp is a whole second and the nonce cache is reached in clock order.
 */
module RelayRuns {
  import opened Results
  import opened Clock
  import opened RateLimit
  import opened NonceCache
  import opened RelayFetch

  // ---------------------------------------------------------------- accounting

  function EntriesIn(m: Entries, lo: Instant, hi: Instant): set<string> {
    set n | n in m && lo <= m[n] <= hi
  }

  function PendingIn(pending: map<nat, Fetch>, domain: string, lo: Instant, hi: Instant): set<nat> {
    set id | id in pending && pending[id].domain == domain && lo <= pending[id].now <= hi
  }

  /** One if this step is a request for `domain`, inside the span, that the limiter lets through. */
  ghost function Payment(cfg: Config, st: State, s: Step, domain: string, lo: Instant, hi: Instant): nat {
    if s.Begin? && s.domain == domain && Next(cfg, st, s).outcome.Admitted? then InSpan(s.now, lo, hi) else 0
  }

  /** Requests for `domain` the limiter let through inside the span, over the first `k` steps. */
  ghost function AdmittedTo(cfg: Config, run: Run, k: nat, domain: string, lo: Instant, hi: Instant): nat
    requires k <= |run.steps| < |run.states|
  {
    if k == 0 then 0
    else AdmittedTo(cfg, run, k - 1, domain, lo, hi) + Payment(cfg, run.states[k - 1], run.steps[k - 1], domain, lo, hi)
  }

  /** Every nonce on record and every request in flight was paid for by an admission. */
  ghost predicate PaidFor(st: State, domain: string, lo: Instant, hi: Instant, n: nat) {
    |EntriesIn(Held(st.nonces, domain), lo, hi)| + |PendingIn(st.pending, domain, lo, hi)| <= n
  }

  lemma RecordAddsAtMostOne(m: Entries, nonce: string, now: Instant, lo: Instant, hi: Instant)
    ensures |EntriesIn(Record(m, nonce, now, RETENTION).entries, lo, hi)|
            <= |EntriesIn(m, lo, hi)| + if Record(m, nonce, now, RETENTION).recorded then InSpan(now, lo, hi) else 0
  {
    var r := Record(m, nonce, now, RETENTION);
    if r.recorded && lo <= now <= hi {
      assert EntriesIn(r.entries, lo, hi) <= EntriesIn(m, lo, hi) + {nonce};
      SubsetIsNoLarger(EntriesIn(r.entries, lo, hi), EntriesIn(m, lo, hi) + {nonce});
    } else {
      SubsetIsNoLarger(EntriesIn(r.entries, lo, hi), EntriesIn(m, lo, hi));
    }
  }

  lemma FinishKeepsPaid(cfg: Config, st: State, id: nat, domain: string, lo: Instant, hi: Instant, n: nat)
    requires PaidFor(st, domain, lo, hi, n)
    ensures PaidFor(Next(cfg, st, Finish(id)).state, domain, lo, hi, n)
  {
    var st' := Next(cfg, st, Finish(id)).state;
    if id in st.pending && st.pending[id].domain in cfg.domains {
      var f := st.pending[id];
      assert PendingIn(st'.pending, domain, lo, hi) == PendingIn(st.pending, domain, lo, hi) - {id};
      if f.domain == domain {
        RecordAddsAtMostOne(Held(st.nonces, domain), f.auth.nonce, f.now, lo, hi);
      }
    }
  }

  lemma SweepKeepsPaid(cfg: Config, st: State, now: Instant, domain: string, lo: Instant, hi: Instant, n: nat)
    requires PaidFor(st, domain, lo, hi, n)
    ensures PaidFor(Next(cfg, st, Sweep(now)).state, domain, lo, hi, n)
  {
    var st' := Next(cfg, st, Sweep(now)).state;
    SubsetIsNoLarger(EntriesIn(Held(st'.nonces, domain), lo, hi), EntriesIn(Held(st.nonces, domain), lo, hi));
  }

  lemma BeginKeepsPaid(cfg: Config, st: State, s: Step, domain: string, lo: Instant, hi: Instant, n: nat)
    requires s.Begin? && PaidFor(st, domain, lo, hi, n)
    ensures PaidFor(Next(cfg, st, s).state, domain, lo, hi, n + Payment(cfg, st, s, domain, lo, hi))
  {
    var t := Next(cfg, st, s);
    if t.outcome.Admitted? {
      if s.domain == domain && lo <= s.now <= hi {
        assert PendingIn(t.state.pending, domain, lo, hi) == PendingIn(st.pending, domain, lo, hi) + {s.id};
      } else {
        assert PendingIn(t.state.pending, domain, lo, hi) == PendingIn(st.pending, domain, lo, hi);
      }
    }
  }

  lemma StepKeepsPaid(cfg: Config, st: State, s: Step, domain: string, lo: Instant, hi: Instant, n: nat)
    requires PaidFor(st, domain, lo, hi, n)
    ensures PaidFor(Next(cfg, st, s).state, domain, lo, hi, n + Payment(cfg, st, s, domain, lo, hi))
  {
    match s {
      case Sweep(now) => SweepKeepsPaid(cfg, st, now, domain, lo, hi, n);
      case Finish(id) => FinishKeepsPaid(cfg, st, id, domain, lo, hi, n);
      case Begin(_, _, _, _) => BeginKeepsPaid(cfg, st, s, domain, lo, hi, n);
    }
  }

  /** The bucket accounts for the payments. */
  lemma StepKeepsAccount(cfg: Config, st: State, s: Step, domain: string, lo: Instant, hi: Instant, late: int, n: nat)
    requires lo <= hi && 0 <= late && Accounted(BucketOf(st.buckets, domain), lo, hi, late, n)
    requires s.Begin? && domain in st.buckets ==> st.buckets[domain].start <= s.now + late
    ensures Accounted(BucketOf(Next(cfg, st, s).state.buckets, domain), lo, hi, late,
                      n + Payment(cfg, st, s, domain, lo, hi))
  {
    if s.Begin? && s.domain == domain && Next(cfg, st, s).outcome in {Admitted, Rejected(RateLimited)} {
      AdmitKeepsAccount(BucketOf(st.buckets, domain), s.now, lo, hi, late, n);
    }
  }

  ghost predicate HasBeginAt(run: Run, k: nat, at: Instant)
    requires k <= |run.steps|
  {
    exists i :: 0 <= i < k && run.steps[i].Begin? && run.steps[i].now == at
  }

  lemma StepOpensWindow(cfg: Config, st: State, s: Step, domain: string)
    requires domain in Next(cfg, st, s).state.buckets
    ensures var start := Next(cfg, st, s).state.buckets[domain].start;
            (domain in st.buckets && start == st.buckets[domain].start) || (s.Begin? && start == s.now)
  {
  }

  /** Every window on record was opened by an earlier request, at its clock reading. */
  lemma {:induction false} WindowsAreOpened(cfg: Config, run: Run, k: nat, domain: string)
    requires IsRun(cfg, run) && k <= |run.steps| && domain in run.states[k].buckets
    ensures HasBeginAt(run, k, run.states[k].buckets[domain].start)
  {
    assert Follows(cfg, run, k - 1);
    StepOpensWindow(cfg, run.states[k - 1], run.steps[k - 1], domain);
    var start := run.states[k].buckets[domain].start;
    if run.steps[k - 1].Begin? && start == run.steps[k - 1].now {
      assert HasBeginAt(run, k, start);
    } else {
      WindowsAreOpened(cfg, run, k - 1, domain);
      var i :| 0 <= i < k - 1 && run.steps[i].Begin? && run.steps[i].now == start;
      assert HasBeginAt(run, k, start);
    }
  }

  /** Along a run: entries and requests in flight are paid for, and the bucket accounts for the payments. */
  lemma {:induction false} RunIsPaidFor(cfg: Config, run: Run, k: nat, domain: string, lo: Instant, hi: Instant,
                                        late: int)
    requires IsRun(cfg, run) && BeginsWithin(run, late) && k <= |run.steps| && lo <= hi && 0 <= late
    ensures var st := run.states[k];
            var n := AdmittedTo(cfg, run, k, domain, lo, hi);
            PaidFor(st, domain, lo, hi, n) && Accounted(BucketOf(st.buckets, domain), lo, hi, late, n)
  {
    if k > 0 {
      RunIsPaidFor(cfg, run, k - 1, domain, lo, hi, late);
      assert Follows(cfg, run, k - 1);
      var st, s, n := run.states[k - 1], run.steps[k - 1], AdmittedTo(cfg, run, k - 1, domain, lo, hi);
      StepKeepsPaid(cfg, st, s, domain, lo, hi, n);
      if s.Begin? && domain in st.buckets { WindowsAreOpened(cfg, run, k - 1, domain); }
      StepKeepsAccount(cfg, st, s, domain, lo, hi, late, n);
    }
  }

  /** With requests this much overdue at the limiter, one retention period still cannot fill the cache. */
  predicate IsTolerable(late: int) {
    0 <= late && SpanBudget(RETENTION - 1 + late) < CAPACITY
  }

  /** That is, up to 1379 seconds and a nanosecond. */
  lemma ToleranceIs(late: int)
    ensures IsTolerable(late) <==> 0 <= late <= 1379 * NANOS + 1
  {
  }

  /** At every point of a run, fewer entries than the capacity carry instants of one retention period. */
  lemma FewEntriesInSpan(cfg: Config, run: Run, k: nat, domain: string, lo: Instant, hi: Instant, late: int)
    requires IsRun(cfg, run) && BeginsWithin(run, late) && IsTolerable(late)
    requires k <= |run.steps| && lo <= hi < lo + RETENTION
    ensures |EntriesIn(Held(run.states[k].nonces, domain), lo, hi)| <= SpanBudget(RETENTION - 1 + late) < CAPACITY
  {
    RunIsPaidFor(cfg, run, k, domain, lo, hi, late);
    AccountedIsBounded(BucketOf(run.states[k].buckets, domain), lo, hi, late, AdmittedTo(cfg, run, k, domain, lo, hi));
    BudgetGrows(hi - lo + late, RETENTION - 1 + late);
  }

  lemma BudgetGrows(a: int, b: int)
    requires a <= b
    ensures SpanBudget(a) <= SpanBudget(b)
  {
  }

  // ---------------------------------------------------------------- survival of one entry

  /** Two fresh acceptances of one whole-second timestamp lie strictly within the retention period. */
  lemma FreshSpan(ts: Instant, t1: Instant, t2: Instant)
    requires IsFresh(ts, t1) && IsFresh(ts, t2) && IsWholeSecond(ts)
    ensures t2 - t1 < RETENTION
  {
  }

  predicate NoneNewer(m: Entries, hi: Instant) {
    forall n <- m :: m[n] <= hi
  }

  lemma StepKeepsNoneNewer(cfg: Config, st: State, s: Step, domain: string, hi: Instant)
    requires NoneNewer(Held(st.nonces, domain), hi)
    requires CacheTime(st, s).Some? ==> CacheTime(st, s).value <= hi
    ensures NoneNewer(Held(Next(cfg, st, s).state.nonces, domain), hi)
  {
  }

  /** Nothing before step `k` brings the cache an instant past `hi`. */
  ghost predicate NothingPast(run: Run, k: nat, hi: Instant)
    requires k <= |run.steps| && |run.states| == |run.steps| + 1
  {
    forall i :: 0 <= i < k && CacheTimeAt(run, i).Some? ==> CacheTimeAt(run, i).value <= hi
  }

  lemma {:induction false} RunKeepsNoneNewer(cfg: Config, run: Run, k: nat, domain: string, hi: Instant)
    requires IsRun(cfg, run) && k <= |run.steps| && NothingPast(run, k, hi)
    ensures NoneNewer(Held(run.states[k].nonces, domain), hi)
  {
    if k > 0 {
      RunKeepsNoneNewer(cfg, run, k - 1, domain, hi);
      assert Follows(cfg, run, k - 1);
      assert CacheTimeAt(run, k - 1).Some? ==> CacheTimeAt(run, k - 1).value <= hi;
      StepKeepsNoneNewer(cfg, run.states[k - 1], run.steps[k - 1], domain, hi);
    }
  }

  /** The cap evicts an older entry, if it evicts at all. */
  lemma NotEvicted(m: Entries, nonce: string, lo: Instant, hi: Instant)
    requires nonce in m && m[nonce] == lo && NoneNewer(m, hi)
    requires |EntriesIn(m, lo, hi)| < CAPACITY
    ensures nonce in Trimmed(m)
  {
    if |m| >= CAPACITY {
      assert |m| == |m.Keys|;
      assert EntriesIn(m, lo, hi) <= m.Keys && EntriesIn(m, lo, hi) != m.Keys;
      var older :| older in m.Keys && older !in EntriesIn(m, lo, hi);
      assert !RanksBefore(m, nonce, older);
    }
  }

  ghost predicate Remembers(st: State, domain: string, nonce: string, at: Instant) {
    nonce in Held(st.nonces, domain) && Held(st.nonces, domain)[nonce] == at
  }

  lemma RecordKeepsEntry(m: Entries, nonce: string, lo: Instant, hi: Instant, other: string, now: Instant)
    requires nonce in m && m[nonce] == lo && NoneNewer(m, hi) && now <= hi < lo + RETENTION
    requires |EntriesIn(m, lo, hi)| < CAPACITY
    ensures var r := Record(m, other, now, RETENTION).entries; nonce in r && r[nonce] == lo
  {
    var live := Live(m, now, RETENTION);
    SubsetIsNoLarger(EntriesIn(live, lo, hi), EntriesIn(m, lo, hi));
    NotEvicted(live, nonce, lo, hi);
  }

  lemma StepKeepsEntry(cfg: Config, st: State, s: Step, domain: string, nonce: string, lo: Instant, hi: Instant)
    requires Remembers(st, domain, nonce, lo) && NoneNewer(Held(st.nonces, domain), hi)
    requires |EntriesIn(Held(st.nonces, domain), lo, hi)| < CAPACITY
    requires CacheTime(st, s).Some? ==> CacheTime(st, s).value <= hi
    requires lo <= hi < lo + RETENTION
    ensures Remembers(Next(cfg, st, s).state, domain, nonce, lo)
  {
    if s.Finish? && s.id in st.pending && st.pending[s.id].domain == domain {
      RecordKeepsEntry(Held(st.nonces, domain), nonce, lo, hi, st.pending[s.id].auth.nonce, st.pending[s.id].now);
    }
  }

  /**
    Recorded by step `i` at `lo`, a nonce stays on record, in whatever order the cache is reached,
    until something brings the cache an instant a whole retention past `lo`.
   */
  lemma {:induction false} EntrySurvives(cfg: Config, run: Run, i: nat, k: nat, domain: string, nonce: string,
                                         lo: Instant, late: int)
    requires IsRun(cfg, run) && BeginsWithin(run, late) && IsTolerable(late) && i < k <= |run.steps|
    requires Remembers(run.states[i + 1], domain, nonce, lo) && NothingPast(run, k, lo + RETENTION - 1)
    ensures Remembers(run.states[k], domain, nonce, lo)
  {
    if i + 1 < k {
      var hi := lo + RETENTION - 1;
      EntrySurvives(cfg, run, i, k - 1, domain, nonce, lo, late);
      FewEntriesInSpan(cfg, run, k - 1, domain, lo, hi, late);
      RunKeepsNoneNewer(cfg, run, k - 1, domain, hi);
      assert CacheTimeAt(run, k - 1).Some? ==> CacheTimeAt(run, k - 1).value <= hi;
      assert Follows(cfg, run, k - 1);
      StepKeepsEntry(cfg, run.states[k - 1], run.steps[k - 1], domain, nonce, lo, hi);
    }
  }

  // ---------------------------------------------------------------- main results

  /** This step drains `domain`'s queue on the authority of this nonce and timestamp. */
  ghost predicate Drains(cfg: Config, st: State, s: Step, domain: string, nonce: string, ts: string) {
    && s.Finish? && s.id in st.pending
    && Next(cfg, st, s).outcome.Drained?
    && var f := st.pending[s.id];
       f.domain == domain && f.auth.nonce == nonce && f.auth.ts == ts
  }

  ghost predicate DrainsAt(cfg: Config, run: Run, i: nat, domain: string, nonce: string, ts: string)
    requires i < |run.steps| < |run.states|
  {
    Drains(cfg, run.states[i], run.steps[i], domain, nonce, ts)
  }

  /** This step drains some queue on the authority of this signature. */
  ghost predicate DrainsOn(cfg: Config, st: State, s: Step, sig: string) {
    s.Finish? && s.id in st.pending && Next(cfg, st, s).outcome.Drained? && st.pending[s.id].auth.sig == sig
  }

  ghost predicate DrainsOnAt(cfg: Config, run: Run, i: nat, sig: string)
    requires i < |run.steps| < |run.states|
  {
    DrainsOn(cfg, run.states[i], run.steps[i], sig)
  }

  /** What a drain says about the state it leaves and the state it found. */
  lemma DrainFacts(cfg: Config, st: State, s: Step, domain: string, nonce: string, ts: string)
    returns (at: Instant)
    requires Drains(cfg, st, s, domain, nonce, ts) && cfg.parseTime(ts).Some?
    ensures CacheTime(st, s) == Some(at)
    ensures IsFresh(cfg.parseTime(ts).value, at)
    ensures nonce !in Live(Held(st.nonces, domain), at, RETENTION)
    ensures Remembers(Next(cfg, st, s).state, domain, nonce, at)
  {
    at := st.pending[s.id].now;
  }

  /**
    Whole-run safety, in whatever order the cache is reached: a domain's queue drained twice on
    one nonce and one whole-second timestamp means that, before the second drain, some request
    or sweep brought the cache a clock reading a whole retention past the first; which is later
    than the second drain's own reading.
   */
  lemma DrainedAgainOnlyIfOvertaken(cfg: Config, run: Run, i: nat, j: nat, domain: string, nonce: string, ts: string,
                                    late: int) returns (k: nat)
    requires IsRun(cfg, run) && BeginsWithin(run, late) && IsTolerable(late) && i < j < |run.steps|
    requires cfg.parseTime(ts).Some? && IsWholeSecond(cfg.parseTime(ts).value)
    requires DrainsAt(cfg, run, i, domain, nonce, ts) && DrainsAt(cfg, run, j, domain, nonce, ts)
    ensures k < j && CacheTimeAt(run, i).Some? && CacheTimeAt(run, j).Some? && CacheTimeAt(run, k).Some?
    ensures CacheTimeAt(run, j).value < CacheTimeAt(run, i).value + RETENTION <= CacheTimeAt(run, k).value
  {
    var t1 := DrainFacts(cfg, run.states[i], run.steps[i], domain, nonce, ts);
    var t2 := DrainFacts(cfg, run.states[j], run.steps[j], domain, nonce, ts);
    FreshSpan(cfg.parseTime(ts).value, t1, t2);
    assert Follows(cfg, run, i);
    if NothingPast(run, j, t1 + RETENTION - 1) {
      EntrySurvives(cfg, run, i, j, domain, nonce, t1, late);
      assert false;
    }
    k :| 0 <= k < j && CacheTimeAt(run, k).Some? && CacheTimeAt(run, k).value > t1 + RETENTION - 1;
  }

  // ---------------------------------------------------------------- exactly when it holds

  /** No run this timely drains this domain twice on this nonce and timestamp. */
  ghost predicate NeverDrainsTwice(cfg: Config, domain: string, nonce: string, ts: string, late: Lateness) {
    forall run: Run, i: nat, j: nat
      | IsTimelyRun(cfg, run, late) && i < j < |run.steps| && DrainsAt(cfg, run, i, domain, nonce, ts) ::
      !DrainsAt(cfg, run, j, domain, nonce, ts)
  }

  function HeadersOf(auth: Presented): Headers {
    Headers(Some(auth.aud), Some(auth.ts), Some(auth.nonce), Some(auth.sig))
  }

  /** A lone request, on an idle state whose entries and window have lapsed, drains. */
  lemma LoneFetchDrains(cfg: Config, st: State, domain: string, auth: Presented, now: Instant)
    returns (begun: State, done: State)
    requires IsAuthentic(cfg, domain, auth) && IsFresh(cfg.parseTime(auth.ts).value, now)
    requires st.pending == map[] && Live(Held(st.nonces, domain), now, RETENTION) == map[]
    requires domain in st.buckets ==> now - st.buckets[domain].start >= WINDOW
    ensures begun == Next(cfg, st, Begin(0, domain, HeadersOf(auth), now)).state
    ensures CacheTime(begun, Finish(0)) == Some(now)
    ensures done == Next(cfg, begun, Finish(0)).state && Drains(cfg, begun, Finish(0), domain, auth.nonce, auth.ts)
    ensures DrainsOn(cfg, begun, Finish(0), auth.sig)
    ensures done.pending == map[] && Held(done.nonces, domain) == map[auth.nonce := now]
    ensures domain in done.buckets && done.buckets[domain].start == now
  {
    begun := State(st.nonces, st.buckets[domain := Bucket(now, 1)], map[0 := Fetch(domain, auth, now)]);
    assert begun == Next(cfg, st, Begin(0, domain, HeadersOf(auth), now)).state;
    done := State(st.nonces[domain := map[auth.nonce := now]], begun.buckets, map[]);
    assert begun.pending - {0} == map[];
    assert Record(Held(begun.nonces, domain), auth.nonce, now, RETENTION) == Recording(map[auth.nonce := now], true);
  }

  /** The run of an authorization presented once at `t1` and again at `t2`, past retention, drains twice. */
  lemma TwoFetches(cfg: Config, domain: string, auth: Presented, t1: Instant, t2: Instant, late: Lateness)
    returns (run: Run)
    requires IsAuthentic(cfg, domain, auth) && t1 + RETENTION <= t2 && 0 <= late.limiter && 0 <= late.cache
    requires IsFresh(cfg.parseTime(auth.ts).value, t1) && IsFresh(cfg.parseTime(auth.ts).value, t2)
    ensures IsTimelyRun(cfg, run, late) && |run.steps| == 4
    ensures DrainsAt(cfg, run, 1, domain, auth.nonce, auth.ts) && DrainsAt(cfg, run, 3, domain, auth.nonce, auth.ts)
    ensures DrainsOnAt(cfg, run, 1, auth.sig) && DrainsOnAt(cfg, run, 3, auth.sig)
  {
    assert Live(Held(INITIAL.nonces, domain), t1, RETENTION) == map[];
    var s1, s2 := LoneFetchDrains(cfg, INITIAL, domain, auth, t1);
    assert Live(Held(s2.nonces, domain), t2, RETENTION) == map[];
    var s3, s4 := LoneFetchDrains(cfg, s2, domain, auth, t2);
    var b1, b2 := Begin(0, domain, HeadersOf(auth), t1), Begin(0, domain, HeadersOf(auth), t2);
    run := Run([INITIAL, s1, s2, s3, s4], [b1, Finish(0), b2, Finish(0)]);
    forall k | 0 <= k < 4 ensures Follows(cfg, run, k) {
      if k == 0 {} else if k == 1 {} else if k == 2 {} else {}
    }
    TwoFetchesClock(run, t1, t2, late);
  }

  lemma TwoFetchesClock(run: Run, t1: Instant, t2: Instant, late: Lateness)
    requires |run.steps| == 4 && |run.states| == 5 && t1 <= t2 && 0 <= late.limiter && 0 <= late.cache
    requires run.steps[0].Begin? && run.steps[0].now == t1 && run.steps[2].Begin? && run.steps[2].now == t2
    requires run.steps[1].Finish? && CacheTimeAt(run, 1) == Some(t1)
    requires run.steps[3].Finish? && CacheTimeAt(run, 3) == Some(t2)
    ensures BeginsWithin(run, late.limiter) && CacheWithin(run, late.cache)
  {
  }

  /** The state after a sweep that finds every entry of `domain` lapsed. */
  lemma SweepForgets(cfg: Config, st: State, domain: string, now: Instant) returns (swept: State)
    requires Live(Held(st.nonces, domain), now, RETENTION) == map[]
    ensures swept == Next(cfg, st, Sweep(now)).state
    ensures swept.pending == st.pending && swept.buckets == st.buckets && Held(swept.nonces, domain) == map[]
  {
    swept := Next(cfg, st, Sweep(now)).state;
  }

  /** A pending authentic request with nothing of its domain on record drains. */
  lemma PendingDrains(cfg: Config, st: State, domain: string, auth: Presented, now: Instant) returns (done: State)
    requires IsAuthentic(cfg, domain, auth) && IsFresh(cfg.parseTime(auth.ts).value, now)
    requires st.pending == map[0 := Fetch(domain, auth, now)] && Held(st.nonces, domain) == map[]
    ensures done == Next(cfg, st, Finish(0)).state && Drains(cfg, st, Finish(0), domain, auth.nonce, auth.ts)
    ensures DrainsOn(cfg, st, Finish(0), auth.sig)
    ensures CacheTime(st, Finish(0)) == Some(now)
  {
    done := Next(cfg, st, Finish(0)).state;
    assert Live(Held(st.nonces, domain), now, RETENTION) == map[];
  }

  /** A lone request's first half, on an idle state whose window has lapsed. */
  lemma LoneBegin(cfg: Config, st: State, domain: string, auth: Presented, now: Instant) returns (begun: State)
    requires IsAuthentic(cfg, domain, auth) && st.pending == map[]
    requires domain in st.buckets ==> now - st.buckets[domain].start >= WINDOW
    ensures begun == Next(cfg, st, Begin(0, domain, HeadersOf(auth), now)).state
    ensures begun.pending == map[0 := Fetch(domain, auth, now)] && begun.nonces == st.nonces
  {
    begun := Next(cfg, st, Begin(0, domain, HeadersOf(auth), now)).state;
  }

  /**
    Order at the cache is needed, down to the nanosecond. For every authentic whole-second
    authorization: drained at the start of its window; replayed at the last instant of it; and
    between the replay's clock reading and its turn at the cache, a sweep that read the clock one
    nanosecond later. The replay drains again.
   */
  lemma OvertakenFetchDrainsAgain(cfg: Config, domain: string, auth: Presented, late: Lateness) returns (run: Run)
    requires IsAuthentic(cfg, domain, auth) && IsWholeSecond(cfg.parseTime(auth.ts).value)
    requires 0 <= late.limiter && 1 <= late.cache
    ensures IsTimelyRun(cfg, run, late) && |run.steps| == 5
    ensures DrainsAt(cfg, run, 1, domain, auth.nonce, auth.ts) && DrainsAt(cfg, run, 4, domain, auth.nonce, auth.ts)
    ensures DrainsOnAt(cfg, run, 1, auth.sig) && DrainsOnAt(cfg, run, 4, auth.sig)
  {
    var ts := cfg.parseTime(auth.ts).value;
    var t1, end := ts - FRESHNESS_SECS * NANOS, ts + (FRESHNESS_SECS + 1) * NANOS;
    assert Live(Held(INITIAL.nonces, domain), t1, RETENTION) == map[];
    var s1, s2 := LoneFetchDrains(cfg, INITIAL, domain, auth, t1);
    var s3 := LoneBegin(cfg, s2, domain, auth, end - 1);
    assert Live(Held(s3.nonces, domain), end, RETENTION) == map[];
    var s4 := SweepForgets(cfg, s3, domain, end);
    var s5 := PendingDrains(cfg, s4, domain, auth, end - 1);
    var b1, b2 := Begin(0, domain, HeadersOf(auth), t1), Begin(0, domain, HeadersOf(auth), end - 1);
    run := Run([INITIAL, s1, s2, s3, s4, s5], [b1, Finish(0), b2, Sweep(end), Finish(0)]);
    forall k | 0 <= k < 5 ensures Follows(cfg, run, k) {
      if k == 0 {} else if k == 1 {} else if k == 2 {} else if k == 3 {} else {}
    }
    OvertakenClock(run, t1, end, late);
  }

  lemma OvertakenClock(run: Run, t1: Instant, end: Instant, late: Lateness)
    requires |run.steps| == 5 && |run.states| == 6 && t1 < end && 0 <= late.limiter && 1 <= late.cache
    requires run.steps[0].Begin? && run.steps[0].now == t1 && run.steps[2].Begin? && run.steps[2].now == end - 1
    requires run.steps[1].Finish? && CacheTimeAt(run, 1) == Some(t1)
    requires run.steps[3] == Sweep(end) && run.steps[4].Finish? && CacheTimeAt(run, 4) == Some(end - 1)
    ensures BeginsWithin(run, late.limiter) && CacheWithin(run, late.cache)
  {
  }

  /** A sub-second timestamp is fresh one second longer than its nonce is retained. */
  lemma SubSecondOutlivesRetention(ts: Instant)
    requires !IsWholeSecond(ts)
    ensures var t1, t2 := FloorToSecond(ts) - FRESHNESS_SECS * NANOS, FloorToSecond(ts) + (FRESHNESS_SECS + 1) * NANOS;
            IsFresh(ts, t1) && IsFresh(ts, t2) && t1 + RETENTION <= t2
  {
  }

  /** With requests in clock order at the cache, no whole-second authorization drains twice. */
  lemma DrainedAtMostOnce(cfg: Config, run: Run, i: nat, j: nat, domain: string, nonce: string, ts: string, late: int)
    requires IsTimelyRun(cfg, run, Lateness(late, 0)) && IsTolerable(late) && i < j < |run.steps|
    requires cfg.parseTime(ts).Some? && IsWholeSecond(cfg.parseTime(ts).value)
    requires DrainsAt(cfg, run, i, domain, nonce, ts)
    ensures !DrainsAt(cfg, run, j, domain, nonce, ts)
  {
    if DrainsAt(cfg, run, j, domain, nonce, ts) {
      var k := DrainedAgainOnlyIfOvertaken(cfg, run, i, j, domain, nonce, ts, late);
    }
  }

  /**
    Exactly when the relay's promise holds. Let requests reach the limiter up to any tolerable
    `late.limiter` out of clock order, and requests and sweeps reach the nonce cache up to any
    `late.cache` out of it. Then an authorization that verifies can never be used twice if and
    only if its timestamp is a whole second and the cache is reached in clock order.
   */
  lemma NeverDrainsTwiceIff(cfg: Config, domain: string, auth: Presented, late: Lateness)
    requires IsAuthentic(cfg, domain, auth) && IsTolerable(late.limiter) && 0 <= late.cache
    ensures NeverDrainsTwice(cfg, domain, auth.nonce, auth.ts, late)
            <==> IsWholeSecond(cfg.parseTime(auth.ts).value) && late.cache == 0
  {
    var ts := cfg.parseTime(auth.ts).value;
    if !IsWholeSecond(ts) {
      SubSecondOutlivesRetention(ts);
      var run := TwoFetches(cfg, domain, auth, FloorToSecond(ts) - FRESHNESS_SECS * NANOS,
                            FloorToSecond(ts) + (FRESHNESS_SECS + 1) * NANOS, late);
      assert IsTimelyRun(cfg, run, late);
      assert DrainsAt(cfg, run, 1, domain, auth.nonce, auth.ts) && DrainsAt(cfg, run, 3, domain, auth.nonce, auth.ts);
    } else if late.cache > 0 {
      var run := OvertakenFetchDrainsAgain(cfg, domain, auth, late);
      assert IsTimelyRun(cfg, run, late);
      assert DrainsAt(cfg, run, 1, domain, auth.nonce, auth.ts) && DrainsAt(cfg, run, 4, domain, auth.nonce, auth.ts);
    } else {
      forall run: Run, i: nat, j: nat
        | IsTimelyRun(cfg, run, late) && i < j < |run.steps| && DrainsAt(cfg, run, i, domain, auth.nonce, auth.ts)
        ensures !DrainsAt(cfg, run, j, domain, auth.nonce, auth.ts)
      {
        DrainedAtMostOnce(cfg, run, i, j, domain, auth.nonce, auth.ts, late.limiter);
      }
    }
  }
}
