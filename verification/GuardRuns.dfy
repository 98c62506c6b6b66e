/**
  Whole runs of the gateway guard: when a repeated envelope is caught, what the bounded cache
  remembers, and what the chain leaves alone.
 */
module GuardRuns {
  import opened Results
  import opened Clock
  import opened RateLimit
  import opened NonceCache
  import opened IngressGuard
  import Text

  // ---------------------------------------------------------------- one sender's sightings

  datatype Sighting = Sighting(nonce: string, now: Instant)

  /** One sender's inner map after a sequence of sightings. */
  ghost function InnerAfter(m: Entries, ss: seq<Sighting>): Entries {
    if ss == [] then m
    else
      var k := |ss| - 1;
      Record(InnerAfter(m, ss[..k]), ss[k].nonce, ss[k].now, RETENTION).entries
  }

  /** Whether the `k`-th sighting is taken as new. */
  ghost predicate TakenAt(m: Entries, ss: seq<Sighting>, k: nat)
    requires k < |ss|
  {
    Record(InnerAfter(m, ss[..k]), ss[k].nonce, ss[k].now, RETENTION).recorded
  }

  predicate Ordered(ss: seq<Sighting>) {
    forall i, j :: 0 <= i < j < |ss| ==> ss[i].now <= ss[j].now
  }

  lemma {:induction false} InnerKeepsCapacity(m: Entries, ss: seq<Sighting>)
    requires |m| <= CAPACITY
    ensures |InnerAfter(m, ss)| <= CAPACITY
  {
    if ss != [] {
      var k := |ss| - 1;
      InnerKeepsCapacity(m, ss[..k]);
      RecordKeepsCapacity(InnerAfter(m, ss[..k]), ss[k].nonce, ss[k].now, RETENTION);
    }
  }

  // ---------------------------------------------------------------- exactly when an entry is still held

  /** Does a sighting at `now` of `other` rank after an entry for `nonce` recorded at `t`? */
  predicate RanksAfter(other: string, now: Instant, nonce: string, t: Instant) {
    now > t || (now == t && Text.Less(nonce, other))
  }

  /** Entries that the eviction order keeps longer than `nonce`. */
  function Newer(m: Entries, nonce: string, t: Instant): set<string> {
    set x | x in m && x != nonce && RanksAfter(x, m[x], nonce, t)
  }

  /** Entries newer than `nonce` at the start, plus every newer one taken since. */
  ghost function NewerCount(m: Entries, ss: seq<Sighting>, nonce: string, t: Instant): nat {
    if ss == [] then |Newer(m, nonce, t)|
    else
      var k := |ss| - 1;
      NewerCount(m, ss[..k], nonce, t)
      + if TakenAt(m, ss, k) && RanksAfter(ss[k].nonce, ss[k].now, nonce, t) then 1 else 0
  }

  /** Some sighting was taken when 4095 newer nonces had already been taken. */
  ghost predicate Flooded(m: Entries, ss: seq<Sighting>, nonce: string, t: Instant) {
    ss != [] &&
    (var k := |ss| - 1;
     Flooded(m, ss[..k], nonce, t) || (TakenAt(m, ss, k) && NewerCount(m, ss[..k], nonce, t) >= CAPACITY - 1))
  }

  /** The cap takes `nonce` exactly when every other place is held by a newer entry. */
  lemma EvictedIffCrowdedOut(live: Entries, nonce: string)
    requires nonce in live && |live| <= CAPACITY
    ensures nonce in Trimmed(live) <==> |Newer(live, nonce, live[nonce])| < CAPACITY - 1
    ensures Newer(Trimmed(live), nonce, live[nonce]) == Newer(live, nonce, live[nonce])
  {
    var newer := Newer(live, nonce, live[nonce]);
    assert |live| == |live.Keys|;
    SubsetIsNoLarger(newer + {nonce}, live.Keys);
    if |live| >= CAPACITY {
      var o := Oldest(live);
      if o in newer {
        assert RanksBefore(live, o, nonce);
        Text.LessTotal(o, nonce);
        CannotRankBothWays(live, o, nonce);
      }
      if |newer| < CAPACITY - 1 {
        assert newer + {nonce} != live.Keys;
        var x :| x in live.Keys && x !in newer + {nonce};
        assert !RanksBefore(live, nonce, x);
      } else {
        assert live.Keys == newer + {nonce};
      }
    }
  }

  lemma CannotRankBothWays(m: Entries, a: string, b: string)
    requires a in m && b in m && RanksBefore(m, a, b)
    ensures !RanksBefore(m, b, a)
  {
    if m[a] == m[b] { Text.LessAsymmetric(a, b); }
  }

  lemma InsertAddsNewer(m: Entries, nonce: string, t: Instant, s: Sighting)
    requires s.nonce !in m && s.nonce != nonce
    ensures |Newer(m[s.nonce := s.now], nonce, t)|
            == |Newer(m, nonce, t)| + if RanksAfter(s.nonce, s.now, nonce, t) then 1 else 0
  {
    if RanksAfter(s.nonce, s.now, nonce, t) {
      assert Newer(m[s.nonce := s.now], nonce, t) == Newer(m, nonce, t) + {s.nonce};
    } else {
      assert Newer(m[s.nonce := s.now], nonce, t) == Newer(m, nonce, t);
    }
  }

  /** One sighting of another nonce, while `nonce` is still within its retention period. */
  lemma SightingStep(m: Entries, nonce: string, t: Instant, s: Sighting)
    requires nonce in m && m[nonce] == t && |m| <= CAPACITY
    requires s.nonce != nonce && s.now < t + RETENTION
    ensures var r := Record(m, s.nonce, s.now, RETENTION);
            var newer := |Newer(m, nonce, t)|;
            && (nonce in r.entries <==> !(r.recorded && newer >= CAPACITY - 1))
            && (nonce in r.entries ==> r.entries[nonce] == t)
            && |Newer(r.entries, nonce, t)|
               == newer + if r.recorded && RanksAfter(s.nonce, s.now, nonce, t) then 1 else 0
  {
    var live := Live(m, s.now, RETENTION);
    LiveIsNoLarger(m, s.now, RETENTION);
    assert Newer(live, nonce, t) == Newer(m, nonce, t);
    if s.nonce !in live {
      EvictedIffCrowdedOut(live, nonce);
      InsertAddsNewer(Trimmed(live), nonce, t, s);
    }
  }

  /** Some sighting of `nonce` in `ss` is taken as new. */
  ghost predicate Retaken(m: Entries, ss: seq<Sighting>, nonce: string) {
    ss != [] &&
    (var k := |ss| - 1; Retaken(m, ss[..k], nonce) || (ss[k].nonce == nonce && TakenAt(m, ss, k)))
  }

  /** No sighting reads a clock at which an entry made at `t` has aged out. */
  predicate NoneOutlives(ss: seq<Sighting>, t: Instant) {
    forall s <- ss :: s.now < t + RETENTION
  }

  /** A repeated sighting of a live nonce changes nothing that matters to its entry. */
  lemma RepeatStep(m: Entries, nonce: string, t: Instant, now: Instant)
    requires nonce in m && m[nonce] == t && now < t + RETENTION
    ensures var r := Record(m, nonce, now, RETENTION);
            && !r.recorded && nonce in r.entries && r.entries[nonce] == t
            && Newer(r.entries, nonce, t) == Newer(m, nonce, t)
  {
  }

  /**
    Whatever is sighted before the entry ages out, in any order and repeats of the nonce itself
    included: the entry made at `t` is held throughout, and never made anew, exactly when it was
    not flooded out.
   */
  lemma {:induction false} HeldIffNotFlooded(m: Entries, ss: seq<Sighting>, nonce: string, t: Instant)
    requires nonce in m && m[nonce] == t && |m| <= CAPACITY
    requires NoneOutlives(ss, t)
    ensures nonce in InnerAfter(m, ss) && !Retaken(m, ss, nonce) <==> !Flooded(m, ss, nonce, t)
    ensures !Flooded(m, ss, nonce, t) ==>
              && InnerAfter(m, ss)[nonce] == t
              && |Newer(InnerAfter(m, ss), nonce, t)| == NewerCount(m, ss, nonce, t)
  {
    if ss != [] {
      var k := |ss| - 1;
      HeldIffNotFlooded(m, ss[..k], nonce, t);
      InnerKeepsCapacity(m, ss[..k]);
      if !Flooded(m, ss[..k], nonce, t) {
        if ss[k].nonce == nonce {
          RepeatStep(InnerAfter(m, ss[..k]), nonce, t, ss[k].now);
        } else {
          SightingStep(InnerAfter(m, ss[..k]), nonce, t, ss[k]);
        }
      }
    }
  }

  /** An entry that is not made anew keeps the instant it carries. */
  lemma {:induction false} EntryKeepsInstant(m: Entries, ss: seq<Sighting>, nonce: string)
    requires !Retaken(m, ss, nonce)
    ensures nonce in InnerAfter(m, ss) ==> nonce in m && InnerAfter(m, ss)[nonce] == m[nonce]
  {
    if ss != [] { EntryKeepsInstant(m, ss[..|ss| - 1], nonce); }
  }

  /** An entry some sighting finds aged out is gone for good, unless it is made anew. */
  lemma {:induction false} AgedOutIsGone(m: Entries, ss: seq<Sighting>, nonce: string, t: Instant)
    requires nonce in m && m[nonce] == t && !Retaken(m, ss, nonce) && !NoneOutlives(ss, t)
    ensures nonce !in InnerAfter(m, ss)
  {
    var k := |ss| - 1;
    EntryKeepsInstant(m, ss[..k], nonce);
    if ss[k].now < t + RETENTION {
      assert !NoneOutlives(ss[..k], t) by {
        var s :| s in ss && s.now >= t + RETENTION;
        assert s in ss[..k];
      }
      AgedOutIsGone(m, ss[..k], nonce, t);
    }
  }

  /** Neither `now` nor any sighting is a whole retention after `t`, and the entry was not flooded out. */
  ghost predicate IsKept(m: Entries, ss: seq<Sighting>, nonce: string, t: Instant, now: Instant) {
    now - t < RETENTION && NoneOutlives(ss, t) && !Flooded(m, ss, nonce, t)
  }

  /**
    A presentation of a recorded nonce, after any sightings at all, in any order of their clocks.
    `m` is the cache just after the nonce was recorded at `t`. If neither the presentation nor
    any sighting is a whole retention later, and there was no flood, it is refused; and when `t`
    is the last time the nonce was taken as new, that is the only way to be refused.
   */
  lemma NextPresentation(m: Entries, ss: seq<Sighting>, nonce: string, t: Instant, later: Instant)
    requires nonce in m && m[nonce] == t && |m| <= CAPACITY
    ensures var recorded := Record(InnerAfter(m, ss), nonce, later, RETENTION).recorded;
            && (IsKept(m, ss, nonce, t, later) ==> !recorded)
            && (!Retaken(m, ss, nonce) && !recorded ==> IsKept(m, ss, nonce, t, later))
  {
    if later - t < RETENTION && NoneOutlives(ss, t) {
      HeldIffNotFlooded(m, ss, nonce, t);
    } else if !Retaken(m, ss, nonce) {
      EntryKeepsInstant(m, ss, nonce);
      if !NoneOutlives(ss, t) { AgedOutIsGone(m, ss, nonce, t); }
    }
  }

  // ---------------------------------------------------------------- whole histories of one sender

  /** The `j`-th sighting presents `nonce` and is taken as new. */
  ghost predicate IsNewAt(m: Entries, ss: seq<Sighting>, nonce: string, j: nat)
    requires j < |ss|
  {
    ss[j].nonce == nonce && TakenAt(m, ss, j)
  }

  /** The last sighting of `nonce` taken as new. */
  ghost function LastNew(m: Entries, ss: seq<Sighting>, nonce: string): (r: Option<nat>)
    ensures r.Some? ==> r.value < |ss|
  {
    if ss == [] then None
    else
      var k := |ss| - 1;
      if IsNewAt(m, ss, nonce, k) then Some(k) else LastNew(m, ss[..k], nonce)
  }

  lemma LastNewIs(m: Entries, ss: seq<Sighting>, nonce: string)
    ensures LastNew(m, ss, nonce).None? <==> !Retaken(m, ss, nonce)
  {
  }

  /** A history in two parts. */
  lemma {:induction false} InnerSplits(m: Entries, a: seq<Sighting>, b: seq<Sighting>)
    ensures InnerAfter(m, a + b) == InnerAfter(InnerAfter(m, a), b)
    decreases |b|
  {
    if b == [] {
      assert a + b == a;
    } else {
      var k := |b| - 1;
      assert (a + b)[..|a| + k] == a + b[..k];
      InnerSplits(m, a, b[..k]);
    }
  }

  lemma NewInPrefix(m: Entries, ss: seq<Sighting>, nonce: string, j: nat, k: nat)
    requires j < k <= |ss|
    ensures IsNewAt(m, ss[..k], nonce, j) <==> IsNewAt(m, ss, nonce, j)
  {
    assert ss[..k][..j] == ss[..j];
  }

  lemma NewInSuffix(m: Entries, a: seq<Sighting>, b: seq<Sighting>, nonce: string, j: nat)
    requires j < |b|
    ensures IsNewAt(InnerAfter(m, a), b, nonce, j) <==> IsNewAt(m, a + b, nonce, |a| + j)
  {
    assert (a + b)[..|a| + j] == a + b[..j];
    InnerSplits(m, a, b[..j]);
  }

  ghost predicate NoneNewAfter(m: Entries, ss: seq<Sighting>, nonce: string, k: nat) {
    forall j :: k < j < |ss| ==> !IsNewAt(m, ss, nonce, j)
  }

  lemma NoneNewOneMore(m: Entries, ss: seq<Sighting>, nonce: string, k: nat)
    requires ss != [] && NoneNewAfter(m, ss[..|ss| - 1], nonce, k) && !IsNewAt(m, ss, nonce, |ss| - 1)
    ensures NoneNewAfter(m, ss, nonce, k)
  {
    var last := |ss| - 1;
    forall j | k < j < |ss| ensures !IsNewAt(m, ss, nonce, j) {
      if j < last {
        NewInPrefix(m, ss, nonce, j, last);
        assert !IsNewAt(m, ss[..last], nonce, j);
      }
    }
  }

  /** The last new sighting is new, and no later one is. */
  lemma {:induction false} LastNewIsLast(m: Entries, ss: seq<Sighting>, nonce: string)
    requires LastNew(m, ss, nonce).Some?
    ensures var k := LastNew(m, ss, nonce).value;
            IsNewAt(m, ss, nonce, k) && NoneNewAfter(m, ss, nonce, k)
  {
    var k, last := LastNew(m, ss, nonce).value, |ss| - 1;
    if !IsNewAt(m, ss, nonce, last) {
      LastNewIsLast(m, ss[..last], nonce);
      NewInPrefix(m, ss, nonce, k, last);
      NoneNewOneMore(m, ss, nonce, k);
    }
  }

  lemma {:induction false} NoneNewNotRetaken(m: Entries, ss: seq<Sighting>, nonce: string)
    requires forall j :: 0 <= j < |ss| ==> !IsNewAt(m, ss, nonce, j)
    ensures !Retaken(m, ss, nonce)
  {
    if ss != [] {
      var last := |ss| - 1;
      forall j | 0 <= j < last ensures !IsNewAt(m, ss[..last], nonce, j) {
        NewInPrefix(m, ss, nonce, j, last);
      }
      NoneNewNotRetaken(m, ss[..last], nonce);
      assert !IsNewAt(m, ss, nonce, last);
    }
  }

  /** What the last new sighting leaves: the nonce on record at its instant, and never made anew since. */
  lemma SinceLastNew(m: Entries, ss: seq<Sighting>, nonce: string)
    requires LastNew(m, ss, nonce).Some?
    ensures var k := LastNew(m, ss, nonce).value;
            var m1 := InnerAfter(m, ss[..k + 1]);
            && nonce in m1 && m1[nonce] == ss[k].now
            && InnerAfter(m1, ss[k + 1..]) == InnerAfter(m, ss)
            && !Retaken(m1, ss[k + 1..], nonce)
  {
    var k := LastNew(m, ss, nonce).value;
    var a, b := ss[..k + 1], ss[k + 1..];
    LastNewIsLast(m, ss, nonce);
    assert a + b == ss && a[..k] == ss[..k];
    InnerSplits(m, a, b);
    forall j | 0 <= j < |b| ensures !IsNewAt(InnerAfter(m, a), b, nonce, j) {
      NewInSuffix(m, a, b, nonce, j);
      assert !IsNewAt(m, ss, nonce, k + 1 + j);
    }
    NoneNewNotRetaken(InnerAfter(m, a), b, nonce);
  }

  /**
    The exact condition on one sender's whole history: the nonce was last taken as new less than
    the retention ago, nothing since read a clock a whole retention later, and there was no flood.
   */
  ghost predicate OnRecord(ss: seq<Sighting>, nonce: string, now: Instant) {
    var last := LastNew(map[], ss, nonce);
    last.Some? && var k := last.value;
                  IsKept(InnerAfter(map[], ss[..k + 1]), ss[k + 1..], nonce, ss[k].now, now)
  }

  /** From an empty cache and after any sightings: refused if and only if on record. */
  lemma RefusedIffOnRecord(ss: seq<Sighting>, nonce: string, now: Instant)
    ensures !Record(InnerAfter(map[], ss), nonce, now, RETENTION).recorded <==> OnRecord(ss, nonce, now)
  {
    var last := LastNew(map[], ss, nonce);
    LastNewIs(map[], ss, nonce);
    if last.None? {
      EntryKeepsInstant(map[], ss, nonce);
    } else {
      SinceLastNew(map[], ss, nonce);
      RefusedIffKept(ss[..last.value + 1], ss[last.value + 1..], nonce, ss[last.value].now, now);
    }
  }

  lemma RefusedIffKept(a: seq<Sighting>, b: seq<Sighting>, nonce: string, t: Instant, now: Instant)
    requires var m := InnerAfter(map[], a); nonce in m && m[nonce] == t && !Retaken(m, b, nonce)
    ensures var m := InnerAfter(map[], a);
            !Record(InnerAfter(m, b), nonce, now, RETENTION).recorded <==> IsKept(m, b, nonce, t, now)
  {
    InnerKeepsCapacity(map[], a);
    NextPresentation(InnerAfter(map[], a), b, nonce, t, now);
  }

  // ---------------------------------------------------------------- runs of the whole chain

  ghost function GuardAfter(g: Guard, calls: seq<GuardInput>): Guard {
    if calls == [] then g
    else Gates(GuardAfter(g, calls[..|calls| - 1]), calls[|calls| - 1]).guard
  }

  /** The sightings of one sender that reach the replay cache; no guard state is needed to tell. */
  function SightingsOf(sender: string, calls: seq<GuardInput>): seq<Sighting> {
    if calls == [] then []
    else
      var c := calls[|calls| - 1];
      SightingsOf(sender, calls[..|calls| - 1])
      + if Precheck(c).None? && c.peeked.from.name == sender then [Sighting(c.peeked.nonce.value, c.now.value)] else []
  }

  lemma GateTouchesOneSender(g: Guard, c: GuardInput, sender: string)
    ensures Held(Gates(g, c).guard.cache, sender)
            == if Precheck(c).None? && c.peeked.from.name == sender
               then Record(Held(g.cache, sender), c.peeked.nonce.value, c.now.value, RETENTION).entries
               else Held(g.cache, sender)
  {
  }

  /** A sender's entries depend on that sender's own sightings and on nothing else. */
  lemma {:induction false} SendersAreIsolated(g: Guard, calls: seq<GuardInput>, sender: string)
    ensures Held(GuardAfter(g, calls).cache, sender) == InnerAfter(Held(g.cache, sender), SightingsOf(sender, calls))
  {
    if calls != [] {
      var k := |calls| - 1;
      SendersAreIsolated(g, calls[..k], sender);
      GateTouchesOneSender(GuardAfter(g, calls[..k]), calls[k], sender);
      var before := SightingsOf(sender, calls[..k]);
      var all := SightingsOf(sender, calls);
      if Precheck(calls[k]).None? && calls[k].peeked.from.name == sender {
        assert all[..|all| - 1] == before;
      } else {
        assert all == before;
      }
    }
  }

  /** The same envelope presented again: same sender name and nonce, past the stateless gates. */
  predicate Presents(c: GuardInput, sender: string, nonce: string) {
    Precheck(c).None? && c.peeked.from.name == sender && c.peeked.nonce == Some(nonce)
  }

  lemma {:induction false} SightingsComeFromCalls(sender: string, calls: seq<GuardInput>)
    ensures forall s <- SightingsOf(sender, calls) ::
              exists c <- calls :: Presents(c, sender, s.nonce) && c.now == Some(s.now)
  {
    if calls != [] {
      var k := |calls| - 1;
      SightingsComeFromCalls(sender, calls[..k]);
      forall s | s in SightingsOf(sender, calls)
        ensures exists c <- calls :: Presents(c, sender, s.nonce) && c.now == Some(s.now)
      {
        if s in SightingsOf(sender, calls[..k]) {
          var c :| c in calls[..k] && Presents(c, sender, s.nonce) && c.now == Some(s.now);
          assert c in calls;
        } else {
          assert Presents(calls[k], sender, s.nonce);
        }
      }
    }
  }

  /**
    Any two positions of a run. `first` presents a nonce that is not refused as a replay, then
    come any requests at all, then `again` presents it once more. If neither `again` nor any of
    that sender's requests between read a clock a whole TTL later, and the cache was not flooded
    in between, `again` is rejected as a replay.
   */
  lemma RepeatIsCaught(g: Guard, first: GuardInput, calls: seq<GuardInput>, again: GuardInput, nonce: string)
    requires var sender := first.peeked.from.name;
             && |Held(g.cache, sender)| <= CAPACITY
             && Presents(first, sender, nonce) && Presents(again, sender, nonce)
             && Gates(g, first).reject != Some(ReplayedNonce)
    ensures var sender, t := first.peeked.from.name, first.now.value;
            var g1, ss := Gates(g, first).guard, SightingsOf(sender, calls);
            IsKept(Held(g1.cache, sender), ss, nonce, t, again.now.value)
            ==> Gates(GuardAfter(g1, calls), again).reject == Some(ReplayedNonce)
  {
    var sender, t, later := first.peeked.from.name, first.now.value, again.now.value;
    var g1 := Gates(g, first).guard;
    var m := Held(g1.cache, sender);
    RecordKeepsCapacity(Held(g.cache, sender), nonce, t, RETENTION);
    assert nonce in m && m[nonce] == t;
    SendersAreIsolated(g1, calls, sender);
    NextPresentation(m, SightingsOf(sender, calls), nonce, t, later);
  }

  const NEW_GUARD: Guard := Guard(map[], map[])

  /**
    When a run of the chain catches a presentation, exactly, from a new guard, for any requests
    whatever and in whatever order they read their clocks: if and only if it is on record by that
    sender's own sightings.
   */
  lemma RepeatIsCaughtIff(calls: seq<GuardInput>, again: GuardInput, nonce: string)
    requires Presents(again, again.peeked.from.name, nonce)
    ensures Gates(GuardAfter(NEW_GUARD, calls), again).reject == Some(ReplayedNonce)
            <==> OnRecord(SightingsOf(again.peeked.from.name, calls), nonce, again.now.value)
  {
    var sender := again.peeked.from.name;
    SendersAreIsolated(NEW_GUARD, calls, sender);
    RefusedIffOnRecord(SightingsOf(sender, calls), nonce, again.now.value);
  }

  // ---------------------------------------------------------------- how far apart two acceptances can be

  /** Whole-second timestamp and clock: two fresh readings are at most twice the skew apart. */
  lemma FreshSpread(ts: Instant, t1: Instant, t2: Instant)
    requires IsFresh(ts, t1) && IsFresh(ts, t2) && IsWholeSecond(t1) && IsWholeSecond(t2)
    ensures IsWholeSecond(ts) ==> t2 - t1 <= 2 * CLOCK_SKEW_SECS * NANOS
    ensures t2 - t1 <= (2 * CLOCK_SKEW_SECS + 1) * NANOS
  {
  }

  /** Whole-second fresh readings no closer than the TTL are exactly the TTL apart, or a second more. */
  lemma ApartExactly(ts: Instant, t1: Instant, t2: Instant)
    requires IsFresh(ts, t1) && IsFresh(ts, t2) && IsWholeSecond(t1) && IsWholeSecond(t2) && t2 - t1 >= RETENTION
    ensures t2 - t1 == RETENTION || (!IsWholeSecond(ts) && t2 - t1 == RETENTION + NANOS)
  {
    FreshSpread(ts, t1, t2);
  }

  /** Every spread that can occur on a whole-second clock. */
  ghost predicate SpreadsWithin(ts: Instant, secs: int) {
    forall t1: Instant, t2: Instant | IsWholeSecond(t1) && IsWholeSecond(t2) && IsFresh(ts, t1) && IsFresh(ts, t2) ::
      t2 - t1 <= secs * NANOS
  }

  /**
    The restart bound: two acceptances of one envelope, by any two guards, lie within
    `2 * CLOCK_SKEW_SECS` of each other if and only if its timestamp is a whole second.
   */
  lemma RestartBoundIffWholeSecond(ts: Instant)
    ensures SpreadsWithin(ts, 2 * CLOCK_SKEW_SECS) <==> IsWholeSecond(ts)
    ensures SpreadsWithin(ts, 2 * CLOCK_SKEW_SECS + 1)
  {
    forall t1: Instant, t2: Instant | IsWholeSecond(t1) && IsWholeSecond(t2) && IsFresh(ts, t1) && IsFresh(ts, t2)
      ensures t2 - t1 <= (2 * CLOCK_SKEW_SECS + 1) * NANOS
      ensures IsWholeSecond(ts) ==> t2 - t1 <= 2 * CLOCK_SKEW_SECS * NANOS
    {
      FreshSpread(ts, t1, t2);
    }
    if !IsWholeSecond(ts) {
      var second := FloorToSecond(ts);
      var t1, t2 := second - CLOCK_SKEW_SECS * NANOS, second + (CLOCK_SKEW_SECS + 1) * NANOS;
      assert IsFresh(ts, t1) && IsFresh(ts, t2) && IsWholeSecond(t1) && IsWholeSecond(t2);
    }
  }

  /** The same envelope as it reaches the gateway at a given instant. */
  function At(input: GuardInput, now: Instant): GuardInput { input.(now := Some(now)) }

  /**
    The replay cache does not cover the whole freshness window: every well-addressed envelope
    with a nonce passes a new guard at one end of the window and again at the other, exactly the
    TTL later, with nothing in between.
   */
  lemma AcceptedAtBothEnds(input: GuardInput)
    requires AudienceCheck(input).None? && input.peeked.nonce.Some? && input.peeked.nonce.value != ""
    requires input.peeked.ts.Some?
    ensures var ts := input.peeked.ts.value;
            var early, late := At(input, ts - CLOCK_SKEW_SECS * NANOS), At(input, ts + CLOCK_SKEW_SECS * NANOS);
            var first := Gates(Guard(map[], map[]), early);
            first.reject.None? && Gates(first.guard, late).reject.None?
  {
  }

  /**
    Any two fresh clock readings at least the TTL apart: a new guard accepts the envelope at the
    first and again at the second, with nothing in between.
   */
  lemma AcceptedApart(input: GuardInput, early: Instant, late: Instant)
    requires Precheck(At(input, early)).None? && Precheck(At(input, late)).None? && late - early >= RETENTION
    ensures var first := Gates(NEW_GUARD, At(input, early));
            first.reject.None? && Gates(first.guard, At(input, late)).reject.None?
  {
  }

  /**
    A timestamp that is not a whole second is fresh for one second more: accepted 300 seconds
    before its second and again 301 seconds after it, on whole-second clocks.
   */
  lemma SubSecondAcceptedApart(input: GuardInput)
    requires AudienceCheck(input).None? && input.peeked.nonce.Some? && input.peeked.nonce.value != ""
    requires input.peeked.ts.Some? && !IsWholeSecond(input.peeked.ts.value)
    ensures var second := FloorToSecond(input.peeked.ts.value);
            var early, late := second - CLOCK_SKEW_SECS * NANOS, second + (CLOCK_SKEW_SECS + 1) * NANOS;
            var first := Gates(NEW_GUARD, At(input, early));
            && IsWholeSecond(early) && IsWholeSecond(late) && late - early == RETENTION + NANOS
            && first.reject.None? && Gates(first.guard, At(input, late)).reject.None?
  {
    var second := FloorToSecond(input.peeked.ts.value);
    AcceptedApart(input, second - CLOCK_SKEW_SECS * NANOS, second + (CLOCK_SKEW_SECS + 1) * NANOS);
  }

  // ---------------------------------------------------------------- the cache against an unbounded log

  /** An unbounded log of the sightings taken as new. */
  type Log = set<Sighting>

  ghost predicate LogHolds(log: Log, nonce: string, now: Instant) {
    exists s <- log :: s.nonce == nonce && now - s.now < RETENTION
  }

  /** The reference: a sighting is new unless the log holds a younger-than-TTL one of the same nonce. */
  ghost function LogAfter(ss: seq<Sighting>): Log {
    if ss == [] then {}
    else
      var k := |ss| - 1;
      var before := LogAfter(ss[..k]);
      if LogHolds(before, ss[k].nonce, ss[k].now) then before else before + {ss[k]}
  }

  /** Nonces the log still holds at `now`. */
  ghost function LogLive(log: Log, now: Instant): set<string> {
    set s | s in log && now - s.now < RETENTION :: s.nonce
  }

  /** No sighting ever finds the log holding a full cache's worth of live nonces. */
  ghost predicate FitsCapacity(ss: seq<Sighting>) {
    forall k :: 0 <= k < |ss| ==> |LogLive(LogAfter(ss[..k]), ss[k].now)| < CAPACITY
  }

  /** The cache and the log agree on what is live at `now`. */
  ghost predicate Agree(m: Entries, log: Log, now: Instant) {
    forall n, t :: (n in m && m[n] == t && now - t < RETENTION) <==> (Sighting(n, t) in log && now - t < RETENTION)
  }

  lemma AgreeStep(m: Entries, log: Log, s: Sighting)
    requires Agree(m, log, s.now) && |LogLive(log, s.now)| < CAPACITY
    ensures var r := Record(m, s.nonce, s.now, RETENTION);
            && (r.recorded <==> !LogHolds(log, s.nonce, s.now))
            && Agree(r.entries, if LogHolds(log, s.nonce, s.now) then log else log + {s}, s.now)
  {
    var live := Live(m, s.now, RETENTION);
    assert LogLive(log, s.now) == live.Keys by {
      forall n | n in LogLive(log, s.now) ensures n in live {
        var x :| x in log && s.now - x.now < RETENTION && x.nonce == n;
        assert Sighting(n, x.now) in log;
      }
      forall n | n in live ensures n in LogLive(log, s.now) {
        assert Sighting(n, m[n]) in log;
      }
    }
    assert |live| == |live.Keys|;
    if LogHolds(log, s.nonce, s.now) {
      var x :| x in log && x.nonce == s.nonce && s.now - x.now < RETENTION;
      assert s.nonce in LogLive(log, s.now);
    }
  }

  lemma AgreeLater(m: Entries, log: Log, now: Instant, later: Instant)
    requires Agree(m, log, now) && now <= later
    ensures Agree(m, log, later)
  {
  }

  lemma {:induction false} CacheAgreesWithLog(ss: seq<Sighting>)
    requires Ordered(ss) && FitsCapacity(ss)
    ensures ss == [] ==> InnerAfter(map[], ss) == map[] && LogAfter(ss) == {}
    ensures ss != [] ==> Agree(InnerAfter(map[], ss), LogAfter(ss), ss[|ss| - 1].now)
  {
    if ss != [] {
      var k := |ss| - 1;
      var before := ss[..k];
      assert FitsCapacity(before) by {
        forall i | 0 <= i < k ensures |LogLive(LogAfter(before[..i]), before[i].now)| < CAPACITY {
          assert before[..i] == ss[..i];
        }
      }
      CacheAgreesWithLog(before);
      if k > 0 { AgreeLater(InnerAfter(map[], before), LogAfter(before), ss[k - 1].now, ss[k].now); }
      AgreeStep(InnerAfter(map[], before), LogAfter(before), ss[k]);
    }
  }

  /**
    Refinement: on a clock that does not run backwards, and while the live nonces fit, the
    bounded cache calls a sighting new exactly when the unbounded log holds no sighting of that
    nonce younger than the TTL.
   */
  lemma CacheRefinesLog(ss: seq<Sighting>, k: nat)
    requires Ordered(ss) && FitsCapacity(ss) && k < |ss|
    ensures TakenAt(map[], ss, k) <==> !LogHolds(LogAfter(ss[..k]), ss[k].nonce, ss[k].now)
  {
    var before := ss[..k];
    assert FitsCapacity(before) by {
      forall i | 0 <= i < k ensures |LogLive(LogAfter(before[..i]), before[i].now)| < CAPACITY {
        assert before[..i] == ss[..i];
      }
    }
    CacheAgreesWithLog(before);
    if k > 0 { AgreeLater(InnerAfter(map[], before), LogAfter(before), ss[k - 1].now, ss[k].now); }
    AgreeStep(InnerAfter(map[], before), LogAfter(before), ss[k]);
  }

  // ---------------------------------------------------------------- sweeps and other senders change no verdict

  datatype CacheEvent = Seen(sender: string, nonce: string, now: Instant) | Sweep(now: Instant)

  ghost function CacheAfter(c: Caches, events: seq<CacheEvent>): Caches {
    if events == [] then c
    else
      var before := CacheAfter(c, events[..|events| - 1]);
      match events[|events| - 1]
      case Sweep(now) => Swept(before, now, RETENTION)
      case Seen(sender, nonce, now) =>
        if nonce == "" then before
        else before[sender := Record(Held(before, sender), nonce, now, RETENTION).entries]
  }

  /** One sender's sightings with every sweep and every other sender deleted. */
  function OwnSightings(sender: string, events: seq<CacheEvent>): seq<Sighting> {
    if events == [] then []
    else
      var e := events[|events| - 1];
      OwnSightings(sender, events[..|events| - 1])
      + if e.Seen? && e.sender == sender && e.nonce != "" then [Sighting(e.nonce, e.now)] else []
  }

  predicate EventsUpTo(events: seq<CacheEvent>, now: Instant) {
    forall e <- events :: e.now <= now
  }

  predicate EventsOrdered(events: seq<CacheEvent>) {
    forall i, j :: 0 <= i < j < |events| ==> events[i].now <= events[j].now
  }

  lemma EventKeepsView(c: Caches, m: Entries, e: CacheEvent, sender: string, now: Instant)
    requires Live(Held(c, sender), e.now, RETENTION) == Live(m, e.now, RETENTION) && e.now <= now
    ensures var c' := CacheAfter(c, [e]);
            var m' := InnerAfter(m, OwnSightings(sender, [e]));
            Live(Held(c', sender), now, RETENTION) == Live(m', now, RETENTION)
  {
    RecordSeesOnlyLive(Held(c, sender), "", e.now, now, RETENTION);
    RecordSeesOnlyLive(m, "", e.now, now, RETENTION);
    assert CacheAfter(c, [e][..0]) == c && OwnSightings(sender, [e][..0]) == [];
    var own := OwnSightings(sender, [e]);
    assert |own| == 1 ==> own[..0] == [] && InnerAfter(m, own[..0]) == m;
    if e.Sweep? {
      assert Held(Swept(c, e.now, RETENTION), sender) == Live(Held(c, sender), e.now, RETENTION);
    }
  }

  lemma CacheAfterOne(c: Caches, events: seq<CacheEvent>)
    requires events != []
    ensures CacheAfter(c, events) == CacheAfter(CacheAfter(c, events[..|events| - 1]), [events[|events| - 1]])
  {
  }

  lemma OwnSightingsOne(m: Entries, sender: string, events: seq<CacheEvent>)
    requires events != []
    ensures var before, e := events[..|events| - 1], events[|events| - 1];
            InnerAfter(m, OwnSightings(sender, events))
            == InnerAfter(InnerAfter(m, OwnSightings(sender, before)), OwnSightings(sender, [e]))
  {
    var before, e := events[..|events| - 1], events[|events| - 1];
    assert [e][..0] == [] && OwnSightings(sender, [e][..0]) == [];
    var all, own := OwnSightings(sender, events), OwnSightings(sender, [e]);
    if own != [] {
      assert all[..|all| - 1] == OwnSightings(sender, before);
      assert own[..0] == [];
    } else {
      assert all == OwnSightings(sender, before);
    }
  }

  /** The live view of a sender is the same with and without sweeps and other senders. */
  lemma {:induction false} ViewIsOwn(c: Caches, events: seq<CacheEvent>, sender: string, now: Instant)
    requires EventsOrdered(events) && EventsUpTo(events, now)
    ensures Live(Held(CacheAfter(c, events), sender), now, RETENTION)
            == Live(InnerAfter(Held(c, sender), OwnSightings(sender, events)), now, RETENTION)
  {
    if events != [] {
      var k := |events| - 1;
      ViewIsOwn(c, events[..k], sender, events[k].now);
      CacheAfterOne(c, events);
      OwnSightingsOne(Held(c, sender), sender, events);
      EventKeepsView(CacheAfter(c, events[..k]), InnerAfter(Held(c, sender), OwnSightings(sender, events[..k])),
                     events[k], sender, now);
    }
  }

  /**
    Non-interference: deleting every sweep and every call for other senders changes no verdict
    for a sender, cap evictions included.
   */
  lemma VerdictIsOwn(c: Caches, events: seq<CacheEvent>, sender: string, nonce: string, now: Instant)
    requires EventsOrdered(events) && EventsUpTo(events, now)
    ensures Record(Held(CacheAfter(c, events), sender), nonce, now, RETENTION)
            == Record(InnerAfter(Held(c, sender), OwnSightings(sender, events)), nonce, now, RETENTION)
  {
    ViewIsOwn(c, events, sender, now);
  }

  // ---------------------------------------------------------------- framing and memory

  /** Guard state stays within the operator's backed names, each with at most a full cache. */
  ghost predicate Bounded(g: Guard, backed: set<string>) {
    && g.cache.Keys <= backed && g.buckets.Keys <= backed
    && forall s <- g.cache :: |g.cache[s]| <= CAPACITY
  }

  /** The `sender_is_backed` flag is read from the registry of backed names. */
  predicate ReadsRegistry(c: GuardInput, backed: set<string>) {
    c.senderIsBacked <==> c.peeked.from.name in backed
  }

  lemma {:induction false} GuardStaysBounded(g: Guard, calls: seq<GuardInput>, backed: set<string>)
    requires Bounded(g, backed) && forall c <- calls :: ReadsRegistry(c, backed)
    ensures Bounded(GuardAfter(g, calls), backed)
  {
    if calls != [] {
      var k := |calls| - 1;
      GuardStaysBounded(g, calls[..k], backed);
      var h, c := GuardAfter(g, calls[..k]), calls[k];
      assert ReadsRegistry(c, backed);
      if Precheck(c).None? {
        RecordKeepsCapacity(Held(h.cache, c.peeked.from.name), c.peeked.nonce.value, c.now.value, RETENTION);
      }
    }
  }

  // ---------------------------------------------------------------- the verdict

  /** What each rejection says of a request, whatever else is wrong with it. */
  ghost predicate HasFault(g: Guard, c: GuardInput, why: Reject) {
    match why
    case ForeignDomain => c.peeked.to.authority != c.ownDomain
    case SenderNotBacked => !c.senderIsBacked
    case BadEnvelopeShape => c.peeked.ts.None? || c.now.None?
    case StaleTimestamp =>
      && c.peeked.ts.Some? && c.now.Some?
      && var off := c.now.value - c.peeked.ts.value;
      off <= -301 * NANOS || 301 * NANOS <= off
    case MissingNonce => c.peeked.nonce.None? || c.peeked.nonce.value == ""
    case ReplayedNonce =>
      && c.peeked.nonce.Some? && c.now.Some?
      && var held := Held(g.cache, c.peeked.from.name);
      var nonce := c.peeked.nonce.value;
      nonce in held && c.now.value - held[nonce] < 600 * NANOS
    case RateLimited =>
      && c.now.Some?
      && var bucket := BucketOf(g.buckets, c.peeked.from.name);
      bucket.Some? && c.now.value - bucket.value.start < 60 * NANOS && bucket.value.count >= 120
  }

  /** The order of the gates. */
  function Rank(why: Reject): nat {
    match why
    case ForeignDomain => 1
    case SenderNotBacked => 2
    case BadEnvelopeShape => 3
    case StaleTimestamp => 4
    case MissingNonce => 5
    case ReplayedNonce => 6
    case RateLimited => 7
  }

  /**
    The chain reports a fault the request has and, of all it has, the one its gates reach first;
    it lets through exactly the requests that have none.
   */
  lemma FirstFaultIsReported(g: Guard, c: GuardInput)
    ensures var reject := Gates(g, c).reject;
            && (reject.None? <==> forall r :: !HasFault(g, c, r))
            && (reject.Some? ==>
                  HasFault(g, c, reject.value) && forall r | HasFault(g, c, r) :: Rank(reject.value) <= Rank(r))
  {
    var reject := Gates(g, c).reject;
    if reject.None? {
      forall r ensures !HasFault(g, c, r) {}
    } else {
      assert HasFault(g, c, reject.value);
    }
  }

  /**
    What one request may touch: nothing when a stateless gate rejects it, no bucket when it is
    a replay, and only its own sender's entries and bucket otherwise.
   */
  lemma GateFrame(g: Guard, c: GuardInput)
    ensures var r := Gates(g, c);
            var sender := c.peeked.from.name;
            && (r.reject.Some? && r.reject.value !in {ReplayedNonce, RateLimited} ==> r.guard == g)
            && (r.reject == Some(ReplayedNonce) ==> r.guard.buckets == g.buckets)
            && (forall s :: s != sender ==>
                  && Held(r.guard.cache, s) == Held(g.cache, s)
                  && BucketOf(r.guard.buckets, s) == BucketOf(g.buckets, s))
  {
  }
}
