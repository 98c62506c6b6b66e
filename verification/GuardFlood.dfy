/**
  How many requests flood the gateway's replay cache, read off the requests alone, and what a
  flood costs: the chain records a nonce before it asks the rate limiter, so requests that the
  limiter refuses still displace live entries.
 */
module GuardFlood {
  import opened Results
  import opened Clock
  import opened RateLimit
  import opened NonceCache
  import opened IngressGuard
  import opened GuardRuns

  // ---------------------------------------------------------------- counting distinct nonces

  /** Distinct other nonces, held or sighted, that the eviction order keeps longer than `nonce`. */
  function NewerSeen(m: Entries, ss: seq<Sighting>, nonce: string, t: Instant): set<string> {
    Newer(m, nonce, t) + set s | s in ss && s.nonce != nonce && RanksAfter(s.nonce, s.now, nonce, t) :: s.nonce
  }

  lemma NewerSeenOne(m: Entries, ss: seq<Sighting>, nonce: string, t: Instant)
    requires ss != []
    ensures var k := |ss| - 1;
            NewerSeen(m, ss, nonce, t)
            == NewerSeen(m, ss[..k], nonce, t)
               + if ss[k].nonce != nonce && RanksAfter(ss[k].nonce, ss[k].now, nonce, t) then {ss[k].nonce} else {}
  {
    assert ss == ss[..|ss| - 1] + [ss[|ss| - 1]];
  }

  /** Every entry was there at the start or comes from a sighting. */
  lemma {:induction false} EntriesComeFrom(m: Entries, ss: seq<Sighting>)
    ensures forall x <- InnerAfter(m, ss) ::
              (x in m && InnerAfter(m, ss)[x] == m[x]) || Sighting(x, InnerAfter(m, ss)[x]) in ss
  {
    if ss != [] {
      var k := |ss| - 1;
      EntriesComeFrom(m, ss[..k]);
      assert ss[k] == Sighting(ss[k].nonce, ss[k].now);
    }
  }

  lemma NewerWasSeen(m: Entries, ss: seq<Sighting>, nonce: string, t: Instant)
    ensures Newer(InnerAfter(m, ss), nonce, t) <= NewerSeen(m, ss, nonce, t)
  {
    EntriesComeFrom(m, ss);
  }

  /** A flood takes 4095 distinct newer nonces at least, whatever else is sighted. */
  lemma {:induction false} FloodNeedsCrowd(m: Entries, ss: seq<Sighting>, nonce: string, t: Instant)
    requires nonce in m && m[nonce] == t && |m| <= CAPACITY
    requires NoneOutlives(ss, t) && Flooded(m, ss, nonce, t)
    ensures |NewerSeen(m, ss, nonce, t)| >= CAPACITY - 1
  {
    var before := ss[..|ss| - 1];
    NewerSeenOne(m, ss, nonce, t);
    SubsetIsNoLarger(NewerSeen(m, before, nonce, t), NewerSeen(m, ss, nonce, t));
    if Flooded(m, before, nonce, t) {
      FloodNeedsCrowd(m, before, nonce, t);
    } else {
      HeldIffNotFlooded(m, before, nonce, t);
      NewerWasSeen(m, before, nonce, t);
      SubsetIsNoLarger(Newer(InnerAfter(m, before), nonce, t), NewerSeen(m, before, nonce, t));
    }
  }

  /** Every sighting is the nonce itself, or a newer one that no older entry of `m` already uses. */
  predicate OnlyNewer(m: Entries, ss: seq<Sighting>, nonce: string, t: Instant) {
    forall s <- ss :: s.nonce == nonce
                      || (RanksAfter(s.nonce, s.now, nonce, t) && (s.nonce in m ==> s.nonce in Newer(m, nonce, t)))
  }

  /** Before a flood, a newer nonce stays once seen: it is taken as new the first time and then refused. */
  lemma NewerStep(m: Entries, ss: seq<Sighting>, nonce: string, t: Instant)
    requires ss != [] && nonce in m && m[nonce] == t && |m| <= CAPACITY
    requires OnlyNewer(m, ss, nonce, t) && NoneOutlives(ss, t)
    requires var before := ss[..|ss| - 1];
             && !Flooded(m, before, nonce, t)
             && Newer(InnerAfter(m, before), nonce, t) == NewerSeen(m, before, nonce, t)
    ensures var k := |ss| - 1;
            TakenAt(m, ss, k) <==> ss[k].nonce != nonce && ss[k].nonce !in NewerSeen(m, ss[..k], nonce, t)
  {
    var k := |ss| - 1;
    var before, s := ss[..k], ss[k];
    HeldIffNotFlooded(m, before, nonce, t);
    EntriesComeFrom(m, before);
    var held := InnerAfter(m, before);
    if s.nonce in NewerSeen(m, before, nonce, t) {
      assert s.nonce in held && held[s.nonce] >= t;
    } else if s.nonce != nonce {
      assert s.nonce !in held;
    }
  }

  /**
    The flood condition on the requests alone. While every sighting is of the nonce itself or of
    a newer nonce, the entry is flooded out if and only if at least 4096 distinct newer nonces
    have been seen; repeats do not count.
   */
  lemma {:induction false} FloodedIffCrowded(m: Entries, ss: seq<Sighting>, nonce: string, t: Instant)
    requires nonce in m && m[nonce] == t && |m| <= CAPACITY
    requires OnlyNewer(m, ss, nonce, t) && NoneOutlives(ss, t)
    ensures Flooded(m, ss, nonce, t) <==> |NewerSeen(m, ss, nonce, t)| >= CAPACITY
    ensures !Flooded(m, ss, nonce, t) ==> Newer(InnerAfter(m, ss), nonce, t) == NewerSeen(m, ss, nonce, t)
  {
    if ss == [] {
      NewerIsBelowCapacity(m, nonce, t);
    } else {
      var before := ss[..|ss| - 1];
      FloodedIffCrowded(m, before, nonce, t);
      NewerSeenOne(m, ss, nonce, t);
      SubsetIsNoLarger(NewerSeen(m, before, nonce, t), NewerSeen(m, ss, nonce, t));
      if !Flooded(m, before, nonce, t) {
        CrowdStep(m, ss, nonce, t);
      }
    }
  }

  lemma NewerIsBelowCapacity(m: Entries, nonce: string, t: Instant)
    requires nonce in m && |m| <= CAPACITY
    ensures |Newer(m, nonce, t)| < CAPACITY
  {
    SubsetIsNoLarger(Newer(m, nonce, t) + {nonce}, m.Keys);
    assert |m| == |m.Keys|;
  }

  lemma CrowdStep(m: Entries, ss: seq<Sighting>, nonce: string, t: Instant)
    requires ss != [] && nonce in m && m[nonce] == t && |m| <= CAPACITY
    requires OnlyNewer(m, ss, nonce, t) && NoneOutlives(ss, t)
    requires var before := ss[..|ss| - 1];
             && !Flooded(m, before, nonce, t) && |NewerSeen(m, before, nonce, t)| < CAPACITY
             && Newer(InnerAfter(m, before), nonce, t) == NewerSeen(m, before, nonce, t)
    ensures Flooded(m, ss, nonce, t) <==> |NewerSeen(m, ss, nonce, t)| >= CAPACITY
    ensures !Flooded(m, ss, nonce, t) ==> Newer(InnerAfter(m, ss), nonce, t) == NewerSeen(m, ss, nonce, t)
  {
    var before := ss[..|ss| - 1];
    HeldIffNotFlooded(m, before, nonce, t);
    NewerStep(m, ss, nonce, t);
    NewerSeenOne(m, ss, nonce, t);
    if !Flooded(m, ss, nonce, t) {
      HeldIffNotFlooded(m, ss, nonce, t);
      NewerWasSeen(m, ss, nonce, t);
      SubsetIsNoLarger(Newer(InnerAfter(m, ss), nonce, t), NewerSeen(m, ss, nonce, t));
    }
  }

  // ---------------------------------------------------------------- a flood through the whole chain

  /**
    Requests of one sender, past the stateless gates, inside the rate window that opened at `t`,
    with pairwise distinct nonces other than `nonce`.
   */
  predicate IsBurst(calls: seq<GuardInput>, sender: string, nonce: string, t: Instant) {
    && (forall i :: 0 <= i < |calls| ==> IsBurstCall(calls[i], sender, nonce, t))
    && forall i, j :: 0 <= i < j < |calls| ==> calls[i].peeked.nonce != calls[j].peeked.nonce
  }

  predicate IsBurstCall(c: GuardInput, sender: string, nonce: string, t: Instant) {
    Precheck(c).None? && c.peeked.from.name == sender && c.peeked.nonce != Some(nonce) && t < c.now.value < t + WINDOW
  }

  lemma {:induction false} BurstSightings(calls: seq<GuardInput>, sender: string, nonce: string, t: Instant)
    requires IsBurst(calls, sender, nonce, t)
    ensures var ss := SightingsOf(sender, calls);
            |ss| == |calls| && forall i :: 0 <= i < |ss| ==>
              calls[i].peeked.nonce == Some(ss[i].nonce) && calls[i].now == Some(ss[i].now)
  {
    if calls != [] { BurstSightings(calls[..|calls| - 1], sender, nonce, t); }
  }

  lemma {:induction false} DistinctNonces(ss: seq<Sighting>)
    requires forall i, j :: 0 <= i < j < |ss| ==> ss[i].nonce != ss[j].nonce
    ensures |set s | s in ss :: s.nonce| == |ss|
  {
    if ss != [] {
      var k := |ss| - 1;
      DistinctNonces(ss[..k]);
      var before := set s | s in ss[..k] :: s.nonce;
      assert ss == ss[..k] + [ss[k]];
      assert (set s | s in ss :: s.nonce) == before + {ss[k].nonce};
      assert ss[k].nonce !in before;
    }
  }

  /** A full cache's worth of distinct newer nonces, none on record, is a flood. */
  lemma DistinctNoncesFlood(m: Entries, ss: seq<Sighting>, nonce: string, t: Instant)
    requires nonce in m && m[nonce] == t && |m| <= CAPACITY && |ss| >= CAPACITY
    requires forall s <- ss :: s.nonce !in m && t < s.now < t + RETENTION
    requires forall i, j :: 0 <= i < j < |ss| ==> ss[i].nonce != ss[j].nonce
    ensures Flooded(m, ss, nonce, t) && !Retaken(m, ss, nonce)
  {
    FloodedIffCrowded(m, ss, nonce, t);
    DistinctNonces(ss);
    SubsetIsNoLarger(set s | s in ss :: s.nonce, NewerSeen(m, ss, nonce, t));
    OthersDoNotRetake(m, ss, nonce);
  }

  lemma {:induction false} OthersDoNotRetake(m: Entries, ss: seq<Sighting>, nonce: string)
    requires forall s <- ss :: s.nonce != nonce
    ensures !Retaken(m, ss, nonce)
  {
    if ss != [] { OthersDoNotRetake(m, ss[..|ss| - 1], nonce); }
  }

  /** The guard of a gateway whose only request so far was `first`. */
  ghost function Opened(first: GuardInput): Guard { Gates(NEW_GUARD, first).guard }

  lemma FirstIsTaken(first: GuardInput)
    requires Precheck(first).None?
    ensures Gates(NEW_GUARD, first).reject.None?
    ensures var sender := first.peeked.from.name;
            && Held(Opened(first).cache, sender) == map[first.peeked.nonce.value := first.now.value]
            && BucketOf(Opened(first).buckets, sender) == Some(Bucket(first.now.value, 1))
  {
  }

  /** No request of a burst is refused as a replay. */
  lemma BurstIsTaken(first: GuardInput, calls: seq<GuardInput>, k: nat)
    requires Precheck(first).None? && k < |calls|
    requires IsBurst(calls, first.peeked.from.name, first.peeked.nonce.value, first.now.value)
    ensures Gates(GuardAfter(Opened(first), calls[..k]), calls[k]).reject != Some(ReplayedNonce)
  {
    var sender, before := first.peeked.from.name, calls[..k];
    FirstIsTaken(first);
    SendersAreIsolated(Opened(first), before, sender);
    EntriesComeFrom(Held(Opened(first).cache, sender), SightingsOf(sender, before));
    SightingsComeFromCalls(sender, before);
    var n := calls[k].peeked.nonce.value;
    assert IsBurstCall(calls[k], sender, first.peeked.nonce.value, first.now.value);
    assert n !in Held(GuardAfter(Opened(first), before).cache, sender);
  }

  function Capped(n: nat): nat { if n < RATE_MAX then n else RATE_MAX }

  /** One request, not a replay, inside its sender's open window. */
  lemma LimiterStep(g: Guard, c: GuardInput, t: Instant, count: nat)
    requires Precheck(c).None? && t <= c.now.value < t + WINDOW && count <= RATE_MAX
    requires BucketOf(g.buckets, c.peeked.from.name) == Some(Bucket(t, count))
    requires Gates(g, c).reject != Some(ReplayedNonce)
    ensures BucketOf(Gates(g, c).guard.buckets, c.peeked.from.name) == Some(Bucket(t, Capped(count + 1)))
    ensures Gates(g, c).reject == if count < RATE_MAX then None else Some(RateLimited)
  {
  }

  lemma GuardOneMore(g: Guard, calls: seq<GuardInput>, k: nat)
    requires 0 < k <= |calls|
    ensures GuardAfter(g, calls[..k]) == Gates(GuardAfter(g, calls[..k - 1]), calls[k - 1]).guard
  {
    assert calls[..k][..k - 1] == calls[..k - 1];
  }

  lemma {:induction false} BurstCounts(first: GuardInput, calls: seq<GuardInput>, k: nat)
    requires Precheck(first).None? && k <= |calls|
    requires IsBurst(calls, first.peeked.from.name, first.peeked.nonce.value, first.now.value)
    ensures BucketOf(GuardAfter(Opened(first), calls[..k]).buckets, first.peeked.from.name)
            == Some(Bucket(first.now.value, Capped(k + 1)))
  {
    if k == 0 {
      FirstIsTaken(first);
    } else {
      var g, c := GuardAfter(Opened(first), calls[..k - 1]), calls[k - 1];
      BurstCounts(first, calls, k - 1);
      BurstIsTaken(first, calls, k - 1);
      GuardOneMore(Opened(first), calls, k);
      assert IsBurstCall(c, first.peeked.from.name, first.peeked.nonce.value, first.now.value);
      LimiterStep(g, c, first.now.value, Capped(k));
    }
  }

  /** Past the first 119, every request of a burst is refused by the rate limiter, and recorded all the same. */
  lemma BurstIsLimited(first: GuardInput, calls: seq<GuardInput>, k: nat)
    requires Precheck(first).None? && RATE_MAX - 1 <= k < |calls|
    requires IsBurst(calls, first.peeked.from.name, first.peeked.nonce.value, first.now.value)
    ensures Gates(GuardAfter(Opened(first), calls[..k]), calls[k]).reject == Some(RateLimited)
  {
    BurstCounts(first, calls, k);
    BurstIsTaken(first, calls, k);
    assert IsBurstCall(calls[k], first.peeked.from.name, first.peeked.nonce.value, first.now.value);
    LimiterStep(GuardAfter(Opened(first), calls[..k]), calls[k], first.now.value, RATE_MAX);
  }

  /** After a burst of 4096 the first nonce is no longer on record. */
  lemma BurstForgets(first: GuardInput, calls: seq<GuardInput>, later: Instant)
    requires Precheck(first).None? && |calls| >= CAPACITY && first.now.value + WINDOW <= later
    requires IsBurst(calls, first.peeked.from.name, first.peeked.nonce.value, first.now.value)
    ensures Record(Held(GuardAfter(Opened(first), calls).cache, first.peeked.from.name),
                   first.peeked.nonce.value, later, RETENTION).recorded
  {
    var sender, nonce, t := first.peeked.from.name, first.peeked.nonce.value, first.now.value;
    FirstIsTaken(first);
    SendersAreIsolated(Opened(first), calls, sender);
    BurstIsDistinct(calls, sender, nonce, t);
    FloodForgets(SightingsOf(sender, calls), nonce, t, later);
  }

  lemma BurstIsDistinct(calls: seq<GuardInput>, sender: string, nonce: string, t: Instant)
    requires IsBurst(calls, sender, nonce, t)
    ensures var ss := SightingsOf(sender, calls);
            && |ss| == |calls|
            && (forall i :: 0 <= i < |ss| ==> ss[i].nonce != nonce && t < ss[i].now < t + WINDOW)
            && (forall i, j :: 0 <= i < j < |ss| ==> ss[i].nonce != ss[j].nonce)
  {
    BurstSightings(calls, sender, nonce, t);
    forall i | 0 <= i < |calls| ensures IsBurstCall(calls[i], sender, nonce, t) {}
  }

  /** On a cache that holds one nonce, 4096 others displace it. */
  lemma FloodForgets(ss: seq<Sighting>, nonce: string, t: Instant, later: Instant)
    requires |ss| >= CAPACITY && t + WINDOW <= later
    requires forall i :: 0 <= i < |ss| ==> ss[i].nonce != nonce && t < ss[i].now < t + WINDOW
    requires forall i, j :: 0 <= i < j < |ss| ==> ss[i].nonce != ss[j].nonce
    ensures Record(InnerAfter(map[nonce := t], ss), nonce, later, RETENTION).recorded
  {
    var m: Entries := map[nonce := t];
    DistinctNoncesFlood(m, ss, nonce, t);
    NextPresentation(m, ss, nonce, t, later);
  }

  lemma LapsedWindowAccepts(g: Guard, c: GuardInput)
    requires Precheck(c).None?
    requires Record(Held(g.cache, c.peeked.from.name), c.peeked.nonce.value, c.now.value, RETENTION).recorded
    requires var b := BucketOf(g.buckets, c.peeked.from.name); b.Some? && b.value.start + WINDOW <= c.now.value
    ensures Gates(g, c).reject.None?
  {
  }

  /** So the first envelope is accepted again as soon as the rate window has lapsed. */
  lemma BurstReadmits(first: GuardInput, calls: seq<GuardInput>, later: Instant)
    requires Precheck(first).None? && Precheck(At(first, later)).None? && |calls| >= CAPACITY
    requires IsBurst(calls, first.peeked.from.name, first.peeked.nonce.value, first.now.value)
    requires first.now.value + WINDOW <= later
    ensures Gates(GuardAfter(Opened(first), calls), At(first, later)).reject.None?
  {
    BurstForgets(first, calls, later);
    BurstCounts(first, calls, |calls|);
    assert calls[..|calls|] == calls;
    LapsedWindowAccepts(GuardAfter(Opened(first), calls), At(first, later));
  }

  // ---------------------------------------------------------------- the concrete family

  function Stars(n: nat): string { seq(n, _ => '*') }

  /** The same envelope with another nonce, one second later. */
  function Variant(first: GuardInput, i: nat): GuardInput
    requires Precheck(first).None?
  {
    At(first.(peeked := first.peeked.(nonce := Some(first.peeked.nonce.value + Stars(i + 1)))), first.now.value + NANOS)
  }

  function Burst(first: GuardInput): seq<GuardInput>
    requires Precheck(first).None?
  {
    seq(CAPACITY, i requires 0 <= i => Variant(first, i))
  }

  /** Between two fresh clock readings every reading is fresh. */
  lemma FreshBetween(ts: Instant, t1: Instant, t: Instant, t2: Instant)
    requires IsFresh(ts, t1) && IsFresh(ts, t2) && t1 <= t <= t2
    ensures IsFresh(ts, t)
  {
  }

  /**
    The promise that a nonce outlives the freshness window fails for every envelope that is fresh
    for a minute: accepted by a new guard at `t`; then 4096 requests one second later, all but 119
    of them refused by the rate limiter; then accepted again at `t` plus 60 seconds, a tenth of
    the retention.
   */
  lemma FloodReadmits(first: GuardInput)
    requires Precheck(first).None? && Precheck(At(first, first.now.value + WINDOW)).None?
    ensures Gates(NEW_GUARD, first).reject.None?
    ensures forall k :: RATE_MAX - 1 <= k < CAPACITY ==>
              Gates(GuardAfter(Opened(first), Burst(first)[..k]), Burst(first)[k]).reject == Some(RateLimited)
    ensures Gates(GuardAfter(Opened(first), Burst(first)), At(first, first.now.value + WINDOW)).reject.None?
  {
    var calls := Burst(first);
    FirstIsTaken(first);
    BurstIsOne(first);
    forall k | RATE_MAX - 1 <= k < CAPACITY
      ensures Gates(GuardAfter(Opened(first), calls[..k]), calls[k]).reject == Some(RateLimited)
    {
      BurstIsLimited(first, calls, k);
    }
    BurstReadmits(first, calls, first.now.value + WINDOW);
  }

  lemma VariantIsBurstCall(first: GuardInput, i: nat)
    requires Precheck(first).None? && Precheck(At(first, first.now.value + WINDOW)).None?
    ensures IsBurstCall(Variant(first, i), first.peeked.from.name, first.peeked.nonce.value, first.now.value)
  {
    var t := first.now.value;
    FreshBetween(first.peeked.ts.value, t, t + NANOS, t + WINDOW);
    assert |first.peeked.nonce.value + Stars(i + 1)| == |first.peeked.nonce.value| + i + 1;
  }

  lemma BurstIsOne(first: GuardInput)
    requires Precheck(first).None? && Precheck(At(first, first.now.value + WINDOW)).None?
    ensures IsBurst(Burst(first), first.peeked.from.name, first.peeked.nonce.value, first.now.value)
  {
    var nonce, calls := first.peeked.nonce.value, Burst(first);
    forall i | 0 <= i < |calls|
      ensures IsBurstCall(calls[i], first.peeked.from.name, nonce, first.now.value)
    {
      VariantIsBurstCall(first, i);
    }
    forall i, j | 0 <= i < j < |calls| ensures calls[i].peeked.nonce != calls[j].peeked.nonce {
      assert |nonce + Stars(i + 1)| != |nonce + Stars(j + 1)|;
    }
  }
}
