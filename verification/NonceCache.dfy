/**
  One tenant's bounded nonce cache: the part the gateway's `ReplayCache` and the relay's
  `FetchAuthState` share. A cache entry is a nonce with the instant it was recorded; `ttl` is
  the age, in nanoseconds, at which an entry stops being retained.
 */
module NonceCache {
  import opened Clock
  import Text

  type Entries = map<string, Instant>

  /** One cache per tenant. */
  type Caches = map<string, Entries>

  const CAPACITY: nat := 4096

  /** The entries a lazy sweep at `now` keeps. */
  function Live(m: Entries, now: Instant, ttl: int): (live: Entries)
    ensures forall n <- live :: n in m && live[n] == m[n]
  {
    map n | n in m && now - m[n] < ttl :: m[n]
  }

  function Held(caches: Caches, tenant: string): Entries {
    if tenant in caches then caches[tenant] else map[]
  }

  /** Every tenant swept, tenants left empty dropped. */
  function Swept(caches: Caches, now: Instant, ttl: int): Caches {
    map s | s in caches && Live(caches[s], now, ttl) != map[] :: Live(caches[s], now, ttl)
  }

  /** Eviction order: by recorded instant, ties by the lexically smaller nonce. */
  predicate RanksBefore(m: Entries, a: string, b: string)
    requires a in m && b in m
  {
    m[a] < m[b] || (m[a] == m[b] && Text.Less(a, b))
  }

  ghost predicate IsOldest(m: Entries, k: string) {
    k in m && forall j <- m :: j != k ==> RanksBefore(m, k, j)
  }

  lemma RankIsTransitive(m: Entries, a: string, b: string, c: string)
    requires a in m && b in m && c in m && RanksBefore(m, a, b) && RanksBefore(m, b, c)
    ensures RanksBefore(m, a, c)
  {
    if m[a] == m[b] == m[c] { Text.LessTransitive(a, b, c); }
  }

  lemma OldestIsUnique(m: Entries, a: string, b: string)
    requires IsOldest(m, a) && IsOldest(m, b)
    ensures a == b
  {
    if a != b && m[a] == m[b] { Text.LessAsymmetric(a, b); }
  }

  /** The eviction scan: visits the entries in any order and always ends on the same one. */
  method FindOldest(m: Entries) returns (oldest: string)
    requires m != map[]
    ensures IsOldest(m, oldest)
  {
    var rest := m.Keys;
    oldest :| oldest in rest;
    rest := rest - {oldest};
    while rest != {}
      invariant rest <= m.Keys && oldest in m.Keys - rest
      invariant forall j <- m.Keys - rest :: j != oldest ==> RanksBefore(m, oldest, j)
    {
      var k :| k in rest;
      if m[k] < m[oldest] || (m[k] == m[oldest] && Text.Less(k, oldest)) {
        forall j | j in m.Keys - rest && j != oldest ensures RanksBefore(m, k, j) {
          RankIsTransitive(m, k, oldest, j);
        }
        oldest := k;
      } else {
        Text.LessTotal(k, oldest);
      }
      rest := rest - {k};
    }
  }

  lemma {:induction false} OldestExists(m: Entries)
    requires m != map[]
    ensures exists k :: IsOldest(m, k)
    decreases |m|
  {
    var k :| k in m;
    var r := m - {k};
    if r == map[] {
      assert r.Keys == m.Keys - {k};
      assert r.Keys == {};
      assert m.Keys == {k} by { assert m.Keys - {k} == {}; }
      assert IsOldest(m, k);
    } else {
      assert r.Keys == m.Keys - {k};
      assert |r| == |r.Keys| && |m| == |m.Keys|;
      OldestExists(r);
      var o :| IsOldest(r, o);
      Text.LessTotal(k, o);
      if RanksBefore(m, k, o) {
        forall j | j in m && j != k ensures RanksBefore(m, k, j) {
          if j != o { assert j in r; RankIsTransitive(m, k, o, j); }
        }
        assert IsOldest(m, k);
      } else {
        forall j | j in m && j != o ensures RanksBefore(m, o, j) {
          if j != k { assert j in r; }
        }
        assert IsOldest(m, o);
      }
    }
  }

  ghost function Oldest(m: Entries): (k: string)
    requires m != map[]
    ensures IsOldest(m, k)
  {
    OldestExists(m);
    var k :| IsOldest(m, k);
    k
  }

  /** Room for one more entry: at capacity the oldest goes. */
  ghost function Trimmed(live: Entries): (t: Entries)
    ensures t.Keys <= live.Keys && forall n <- t :: t[n] == live[n]
    ensures |live| <= CAPACITY ==> |t| < CAPACITY
  {
    if |live| >= CAPACITY then
      var k := Oldest(live);
      assert (live - {k}).Keys == live.Keys - {k};
      assert |live - {k}| == |(live - {k}).Keys| && |live| == |live.Keys|;
      live - {k}
    else live
  }

  /** The eviction branch as the source runs it. */
  method MakeRoom(live: Entries) returns (t: Entries)
    ensures t == Trimmed(live)
  {
    t := live;
    if |live| >= CAPACITY {
      var evict := FindOldest(live);
      OldestIsUnique(live, evict, Oldest(live));
      t := live - {evict};
    }
  }

  datatype Recording = Recording(entries: Entries, recorded: bool)

  /** Record a sighting at `now`: sweep, refuse a live nonce, make room, insert. */
  ghost function Record(m: Entries, nonce: string, now: Instant, ttl: int): Recording {
    var live := Live(m, now, ttl);
    if nonce in live then Recording(live, false)
    else Recording(Trimmed(live)[nonce := now], true)
  }

  lemma LiveIsNoLarger(m: Entries, now: Instant, ttl: int)
    ensures |Live(m, now, ttl)| <= |m|
  {
    SubmapIsNoLarger(Live(m, now, ttl), m);
  }

  lemma SubmapIsNoLarger(a: Entries, b: Entries)
    requires a.Keys <= b.Keys
    ensures |a| <= |b|
  {
    SubsetIsNoLarger(a.Keys, b.Keys);
    assert |a| == |a.Keys| && |b| == |b.Keys|;
  }

  lemma {:induction false} SubsetIsNoLarger<T>(a: set<T>, b: set<T>)
    requires a <= b
    ensures |a| <= |b|
    ensures |a| == |b| ==> a == b
  {
    assert b == a + (b - a);
    assert |b| == |a| + |b - a|;
  }

  /** The memory bound: a cache within capacity stays within capacity, and holds what was just recorded. */
  lemma RecordKeepsCapacity(m: Entries, nonce: string, now: Instant, ttl: int)
    requires |m| <= CAPACITY
    ensures var r := Record(m, nonce, now, ttl);
            && |r.entries| <= CAPACITY && nonce in r.entries
            && r.entries[nonce] == if r.recorded then now else m[nonce]
  {
    LiveIsNoLarger(m, now, ttl);
    var live := Live(m, now, ttl);
    if nonce !in live {
      var t := Trimmed(live);
      assert t[nonce := now].Keys == t.Keys + {nonce};
      assert |t[nonce := now]| == |t[nonce := now].Keys| && |t| == |t.Keys|;
    }
  }

  /** A recording depends only on the entries still live at that instant. */
  lemma RecordSeesOnlyLive(m: Entries, nonce: string, earlier: Instant, now: Instant, ttl: int)
    requires earlier <= now
    ensures Live(Live(m, earlier, ttl), now, ttl) == Live(m, now, ttl)
    ensures Record(Live(m, earlier, ttl), nonce, now, ttl) == Record(m, nonce, now, ttl)
  {
  }
}
