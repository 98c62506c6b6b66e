/**
  The relay's signed-fetch gate: stateless verification, the nonce and rate state behind the
  `auth` lock, and the fetch handler as a step machine whose requests interleave.
 */
module RelayFetch {
  import opened Results
  import opened Clock
  import opened Crypto
  import opened RateLimit
  import opened NonceCache

  const FRESHNESS_SECS: int := 300
  const NONCE_TTL_SECS: int := 600
  const HEADER_MAX_BYTES: nat := 512
  const AUTH_TYP: string := "famp-relay-fetch-v1"

  /** The age at which `whole_seconds() <= NONCE_TTL_SECS` stops holding. */
  const RETENTION: int := (NONCE_TTL_SECS + 1) * NANOS

  /** The four header values as presented; any may be absent. */
  datatype Headers = Headers(aud: Option<string>, ts: Option<string>, nonce: Option<string>, sig: Option<string>)

  datatype Presented = Presented(aud: string, ts: string, nonce: string, sig: string)

  /** The signed form the relay rebuilds for itself; it is never read off the wire. */
  datatype AuthForm = AuthForm(typ: string, aud: string, domain: string, nonce: string, ts: string)

  datatype Reject =
    | UnknownDomain
    | MissingHeader
    | HeaderTooLong
    | AudienceMismatch
    | MalformedTimestamp
    | StaleFetch
    | MalformedSignature
    | BadSignature
    | ReplayedNonce
    | RateLimited

  /** Relay configuration, with the foreign parsers and the signature check as parameters. */
  datatype Config = Config(
    domains: map<string, seq<Key>>,
    audience: string,
    parseTime: string -> Option<Instant>,
    decodesSignature: string -> bool,
    verifies: (Key, AuthForm, string) -> bool)

  // ---------------------------------------------------------------- verify_fetch_auth

  /** The freshness test of `verify_fetch_auth`: `now` is floored, then compared inclusively. */
  predicate IsFresh(ts: Instant, now: Instant) {
    var diff := WholeSeconds(FloorToSecond(now) - ts);
    -FRESHNESS_SECS <= diff <= FRESHNESS_SECS
  }

  function FormFor(auth: Presented, domain: string): AuthForm {
    AuthForm(AUTH_TYP, auth.aud, domain, auth.nonce, auth.ts)
  }

  /** Some configured key for the domain verifies the rebuilt form. */
  predicate SignedByAny(cfg: Config, keys: seq<Key>, auth: Presented, domain: string) {
    exists k <- keys :: cfg.verifies(k, FormFor(auth, domain), auth.sig)
  }

  predicate HeadersFit(auth: Presented) {
    && |auth.aud| <= HEADER_MAX_BYTES && |auth.ts| <= HEADER_MAX_BYTES
    && |auth.nonce| <= HEADER_MAX_BYTES && |auth.sig| <= HEADER_MAX_BYTES
  }

  /** Everything `verify_fetch_auth` asks for apart from freshness. */
  predicate IsAuthentic(cfg: Config, domain: string, auth: Presented) {
    && domain in cfg.domains
    && HeadersFit(auth)
    && auth.aud == cfg.audience
    && cfg.parseTime(auth.ts).Some?
    && cfg.decodesSignature(auth.sig)
    && SignedByAny(cfg, cfg.domains[domain], auth, domain)
  }

  /** The first check that fails, in the order the source calls a contract; `None` accepts. */
  function FirstFailure(cfg: Config, domain: string, auth: Presented, now: Instant): Option<Reject>
    requires domain in cfg.domains
  {
    if !HeadersFit(auth) then Some(HeaderTooLong)
    else if auth.aud != cfg.audience then Some(AudienceMismatch)
    else if cfg.parseTime(auth.ts).None? then Some(MalformedTimestamp)
    else if !IsFresh(cfg.parseTime(auth.ts).value, now) then Some(StaleFetch)
    else if !cfg.decodesSignature(auth.sig) then Some(MalformedSignature)
    else if !SignedByAny(cfg, cfg.domains[domain], auth, domain) then Some(BadSignature)
    else None
  }

  method VerifyFetchAuth(cfg: Config, domain: string, auth: Presented, now: Instant)
    returns (failure: Option<Reject>)
    requires domain in cfg.domains
    ensures failure == FirstFailure(cfg, domain, auth, now)
    ensures failure.None? <==> IsAuthentic(cfg, domain, auth) && IsFresh(cfg.parseTime(auth.ts).value, now)
  {
    var values := [auth.aud, auth.ts, auth.nonce, auth.sig];
    for i := 0 to 4
      invariant forall j :: 0 <= j < i ==> |values[j]| <= HEADER_MAX_BYTES
    {
      if |values[i]| > HEADER_MAX_BYTES { return Some(HeaderTooLong); }
    }
    assert HeadersFit(auth) by {
      assert values[0] == auth.aud && values[1] == auth.ts && values[2] == auth.nonce && values[3] == auth.sig;
    }
    if auth.aud != cfg.audience { return Some(AudienceMismatch); }
    var ts := cfg.parseTime(auth.ts);
    if ts.None? { return Some(MalformedTimestamp); }
    var diff := WholeSeconds(FloorToSecond(now) - ts.value);
    if (if diff < 0 then -diff else diff) > FRESHNESS_SECS { return Some(StaleFetch); }
    if !cfg.decodesSignature(auth.sig) { return Some(MalformedSignature); }
    var keys := cfg.domains[domain];
    for i := 0 to |keys|
      invariant forall j :: 0 <= j < i ==> !cfg.verifies(keys[j], FormFor(auth, domain), auth.sig)
    {
      if cfg.verifies(keys[i], FormFor(auth, domain), auth.sig) { return None; }
    }
    return Some(BadSignature);
  }

  // ---------------------------------------------------------------- FetchAuthState

  /** The relay's own retention test: kept while the whole-second age is at most the TTL. */
  predicate IsRetained(recordedAt: Instant, now: Instant) {
    WholeSeconds(now - recordedAt) <= NONCE_TTL_SECS
  }

  /** `retain` over one domain's entries; an inclusive whole-second TTL is a strict bound one second later. */
  function Retained(entries: Entries, now: Instant): (kept: Entries)
    ensures kept == Live(entries, now, RETENTION)
  {
    assert forall t :: IsRetained(t, now) <==> now - t < RETENTION;
    map n | n in entries && IsRetained(entries[n], now) :: entries[n]
  }

  class FetchAuthState {
    var nonces: Caches
    var buckets: Buckets

    constructor ()
      ensures nonces == map[] && buckets == map[]
    {
      nonces, buckets := map[], map[];
    }

    method RecordNonce(domain: string, nonce: string, now: Instant) returns (ok: bool)
      modifies this`nonces
      ensures var r := Record(Held(old(nonces), domain), nonce, now, RETENTION);
              nonces == old(nonces)[domain := r.entries] && ok == r.recorded
    {
      var entries := Retained(Held(nonces, domain), now);
      nonces := nonces[domain := entries];
      if nonce in entries { return false; }
      entries := MakeRoom(entries);
      nonces := nonces[domain := entries[nonce := now]];
      return true;
    }

    method Admit(domain: string, now: Instant) returns (ok: bool)
      modifies this`buckets
      ensures var a := RelayAdmit(BucketOf(old(buckets), domain), now);
              buckets == old(buckets)[domain := a.bucket] && ok == a.admitted
    {
      if domain !in buckets { buckets := buckets[domain := Bucket(now, 0)]; }
      if WholeSeconds(now - buckets[domain].start) >= RATE_WINDOW_SECS {
        buckets := buckets[domain := Bucket(now, 0)];
      }
      if buckets[domain].count >= RATE_MAX { return false; }
      buckets := buckets[domain := buckets[domain].(count := buckets[domain].count + 1)];
      return true;
    }

    method Sweep(now: Instant)
      modifies this`nonces
      ensures nonces == Swept(old(nonces), now, RETENTION)
    {
      var todo := nonces.Keys;
      while todo != {}
        invariant todo <= nonces.Keys == old(nonces).Keys
        invariant forall d <- nonces ::
                    nonces[d] == if d in todo then old(nonces)[d] else Live(old(nonces)[d], now, RETENTION)
      {
        var d :| d in todo;
        nonces := nonces[d := Retained(nonces[d], now)];
        todo := todo - {d};
      }
      nonces := map d | d in nonces && nonces[d] != map[] :: nonces[d];
    }
  }

  // ---------------------------------------------------------------- the handler as steps

  /** A request past the rate limiter, waiting to verify and record. `now` is its one clock read. */
  datatype Fetch = Fetch(domain: string, auth: Presented, now: Instant)

  datatype State = State(nonces: Caches, buckets: Buckets, pending: map<nat, Fetch>)

  /**
    The critical sections of the handler and the background sweep. `Begin` runs to the end of
    the first `auth` lock, `Finish` is everything after it; other requests may run in between.
   */
  datatype Step =
    | Begin(id: nat, domain: string, headers: Headers, now: Instant)
    | Finish(id: nat)
    | Sweep(now: Instant)

  datatype Outcome = Idle | Admitted | Drained | Cleaned | Rejected(why: Reject)

  datatype Transition = Transition(state: State, outcome: Outcome)

  const INITIAL: State := State(map[], map[], map[])

  ghost function Next(cfg: Config, st: State, step: Step): Transition {
    match step
    case Sweep(now) => Transition(st.(nonces := Swept(st.nonces, now, RETENTION)), Cleaned)
    case Begin(id, domain, h, now) =>
      if id in st.pending then Transition(st, Idle)
      else if domain !in cfg.domains then Transition(st, Rejected(UnknownDomain))
      else if h.aud.None? || h.ts.None? || h.nonce.None? || h.sig.None? then Transition(st, Rejected(MissingHeader))
      else
        var a := RelayAdmit(BucketOf(st.buckets, domain), now);
        var st' := st.(buckets := st.buckets[domain := a.bucket]);
        if a.admitted then
          var auth := Presented(h.aud.value, h.ts.value, h.nonce.value, h.sig.value);
          Transition(st'.(pending := st.pending[id := Fetch(domain, auth, now)]), Admitted)
        else Transition(st', Rejected(RateLimited))
    case Finish(id) =>
      if id !in st.pending || st.pending[id].domain !in cfg.domains then Transition(st, Idle)
      else
        var f := st.pending[id];
        var st' := st.(pending := st.pending - {id});
        var failure := FirstFailure(cfg, f.domain, f.auth, f.now);
        if failure.Some? then Transition(st', Rejected(failure.value))
        else
          var r := Record(Held(st.nonces, f.domain), f.auth.nonce, f.now, RETENTION);
          Transition(st'.(nonces := st.nonces[f.domain := r.entries]),
                     if r.recorded then Drained else Rejected(ReplayedNonce))
  }

  /** `fetch_handler`, uninterrupted: one `Begin` and, if that admits, one `Finish`. */
  method HandleFetch(cfg: Config, auth: FetchAuthState, domain: string, headers: Headers, now: Instant)
    returns (outcome: Outcome)
    modifies auth
    ensures var was := State(old(auth.nonces), old(auth.buckets), map[]);
            var begun := Next(cfg, was, Begin(0, domain, headers, now));
            var done := if begun.outcome.Admitted? then Next(cfg, begun.state, Finish(0)) else begun;
            auth.nonces == done.state.nonces && auth.buckets == done.state.buckets && outcome == done.outcome
  {
    if domain !in cfg.domains { return Rejected(UnknownDomain); }
    if headers.aud.None? || headers.ts.None? || headers.nonce.None? || headers.sig.None? {
      return Rejected(MissingHeader);
    }
    var admitted := auth.Admit(domain, now);
    if !admitted { return Rejected(RateLimited); }
    var presented := Presented(headers.aud.value, headers.ts.value, headers.nonce.value, headers.sig.value);
    var failure := VerifyFetchAuth(cfg, domain, presented, now);
    if failure.Some? { return Rejected(failure.value); }
    var recorded := auth.RecordNonce(domain, presented.nonce, now);
    if !recorded { return Rejected(ReplayedNonce); }
    return Drained;
  }

  // ---------------------------------------------------------------- runs

  /** A run: the states visited and the steps between them. */
  datatype Run = Run(states: seq<State>, steps: seq<Step>)

  ghost predicate Follows(cfg: Config, run: Run, k: nat)
    requires |run.states| == |run.steps| + 1 && k < |run.steps|
  {
    run.states[k + 1] == Next(cfg, run.states[k], run.steps[k]).state
  }

  ghost predicate IsRun(cfg: Config, run: Run) {
    && |run.states| == |run.steps| + 1
    && run.states[0] == INITIAL
    && forall k :: 0 <= k < |run.steps| ==> Follows(cfg, run, k)
  }

  /** The instant a step brings to the nonce cache, if it touches the cache. */
  function CacheTime(st: State, step: Step): Option<Instant> {
    match step
    case Begin(_, _, _, _) => None
    case Sweep(now) => Some(now)
    case Finish(id) => if id in st.pending then Some(st.pending[id].now) else None
  }

  ghost function CacheTimeAt(run: Run, k: nat): Option<Instant>
    requires |run.states| == |run.steps| + 1 && k < |run.steps|
  {
    CacheTime(run.states[k], run.steps[k])
  }

  /** No request reaches the rate limiter more than `late` after one that read a later clock. */
  ghost predicate BeginsWithin(run: Run, late: int) {
    forall i, j :: 0 <= i < j < |run.steps| && run.steps[i].Begin? && run.steps[j].Begin?
      ==> run.steps[i].now <= run.steps[j].now + late
  }

  /** No request or sweep reaches the nonce cache more than `late` after one that read a later clock. */
  ghost predicate CacheWithin(run: Run, late: int)
    requires |run.states| == |run.steps| + 1
  {
    forall i, j :: 0 <= i < j < |run.steps| && CacheTimeAt(run, i).Some? && CacheTimeAt(run, j).Some?
      ==> CacheTimeAt(run, i).value <= CacheTimeAt(run, j).value + late
  }

  /**
    How far a run may leave the order of its clock reads. Every step reads the clock before it
    waits for a lock, so a later reading can get there first; zero means none does.
   */
  datatype Lateness = Lateness(limiter: int, cache: int)

  ghost predicate IsTimelyRun(cfg: Config, run: Run, late: Lateness) {
    IsRun(cfg, run) && BeginsWithin(run, late.limiter) && CacheWithin(run, late.cache)
  }
}
