/**
  The gateway's pre-verify guard chain: audience, freshness, replay, rate. The fields it reads
  are peeked from unverified bytes; `ts` and `now` are the parsed instants, `None` when the text
  is not RFC 3339.
 */
module IngressGuard {
  import opened Results
  import opened Clock
  import opened Identity
  import opened RateLimit
  import opened NonceCache

  const CLOCK_SKEW_SECS: int := 300
  const REPLAY_TTL_SECS: int := 600

  /** The age at which `whole_seconds() < REPLAY_TTL_SECS` stops holding. */
  const RETENTION: int := REPLAY_TTL_SECS * NANOS

  datatype Peeked = Peeked(from: Principal, to: Principal, ts: Option<Instant>, nonce: Option<string>)

  datatype GuardInput = GuardInput(peeked: Peeked, now: Option<Instant>, ownDomain: string, senderIsBacked: bool)

  datatype Reject =
    | BadEnvelopeShape
    | StaleTimestamp
    | ReplayedNonce
    | MissingNonce
    | ForeignDomain
    | SenderNotBacked
    | RateLimited

  datatype Guard = Guard(cache: Caches, buckets: Buckets)

  // ---------------------------------------------------------------- stateless gates

  /** Inclusive in both directions, on the truncated difference of the parsed instants. */
  predicate IsFresh(ts: Instant, now: Instant) {
    var diff := WholeSeconds(now - ts);
    -CLOCK_SKEW_SECS <= diff <= CLOCK_SKEW_SECS
  }

  function AudienceCheck(input: GuardInput): Option<Reject> {
    if input.peeked.to.authority != input.ownDomain then Some(ForeignDomain)
    else if !input.senderIsBacked then Some(SenderNotBacked)
    else None
  }

  function FreshnessCheck(ts: Option<Instant>, now: Option<Instant>): Option<Reject> {
    if ts.None? || now.None? then Some(BadEnvelopeShape)
    else if IsFresh(ts.value, now.value) then None
    else Some(StaleTimestamp)
  }

  /** The gates that read no guard state, in order; the empty nonce is refused before the map is touched. */
  function Precheck(input: GuardInput): (r: Option<Reject>)
    ensures r.None? ==> input.now.Some? && input.peeked.nonce.Some?
  {
    var audience := AudienceCheck(input);
    if audience.Some? then audience
    else
      var freshness := FreshnessCheck(input.peeked.ts, input.now);
      if freshness.Some? then freshness
      else if input.peeked.nonce.None? || input.peeked.nonce.value == "" then Some(MissingNonce)
      else None
  }

  // ---------------------------------------------------------------- the chain

  datatype GateResult = GateResult(guard: Guard, reject: Option<Reject>)

  /** One request through the chain: replay is recorded before the rate limit is asked. */
  ghost function Gates(g: Guard, input: GuardInput): GateResult {
    var early := Precheck(input);
    if early.Some? then GateResult(g, early)
    else
      var sender, now := input.peeked.from.name, input.now.value;
      var r := Record(Held(g.cache, sender), input.peeked.nonce.value, now, RETENTION);
      var g' := g.(cache := g.cache[sender := r.entries]);
      if !r.recorded then GateResult(g', Some(ReplayedNonce))
      else
        var a := GatewayAdmit(BucketOf(g.buckets, sender), now);
        GateResult(g'.(buckets := g.buckets[sender := a.bucket]), if a.admitted then None else Some(RateLimited))
  }

  /** The gateway's own retention test: kept while the whole-second age is below the TTL. */
  predicate IsRetained(recordedAt: Instant, now: Instant) {
    WholeSeconds(now - recordedAt) < REPLAY_TTL_SECS
  }

  function Retained(entries: Entries, now: Instant): (kept: Entries)
    ensures kept == Live(entries, now, RETENTION)
  {
    assert forall t :: IsRetained(t, now) <==> now - t < RETENTION;
    map n | n in entries && IsRetained(entries[n], now) :: entries[n]
  }

  class ReplayCache {
    var entries: Caches

    constructor ()
      ensures entries == map[]
    {
      entries := map[];
    }

    method Record(sender: string, nonce: string, now: Instant) returns (reject: Option<Reject>)
      modifies this
      ensures nonce == "" ==> entries == old(entries) && reject == Some(MissingNonce)
      ensures var r := NonceCache.Record(Held(old(entries), sender), nonce, now, RETENTION);
              nonce != "" ==>
                && entries == old(entries)[sender := r.entries]
                && reject == if r.recorded then None else Some(ReplayedNonce)
    {
      if nonce == "" { return Some(MissingNonce); }
      var inner := Retained(Held(entries, sender), now);
      entries := entries[sender := inner];
      if nonce in inner { return Some(ReplayedNonce); }
      inner := MakeRoom(inner);
      entries := entries[sender := inner[nonce := now]];
      return None;
    }

    method Sweep(now: Instant)
      modifies this
      ensures entries == Swept(old(entries), now, RETENTION)
    {
      var todo := entries.Keys;
      while todo != {}
        invariant todo <= entries.Keys <= old(entries).Keys
        invariant forall s <- entries ::
                    entries[s] == if s in todo then old(entries)[s] else Live(old(entries)[s], now, RETENTION)
        invariant forall s <- old(entries) ::
                    s !in todo ==> (s in entries <==> Live(old(entries)[s], now, RETENTION) != map[])
      {
        var s :| s in todo;
        var inner := Retained(entries[s], now);
        if inner == map[] { entries := entries - {s}; } else { entries := entries[s := inner]; }
        todo := todo - {s};
      }
    }
  }

  class RateLimiter {
    var buckets: Buckets

    constructor ()
      ensures buckets == map[]
    {
      buckets := map[];
    }

    method Admit(sender: string, now: Instant) returns (reject: Option<Reject>)
      modifies this
      ensures var a := GatewayAdmit(BucketOf(old(buckets), sender), now);
              buckets == old(buckets)[sender := a.bucket] && reject == if a.admitted then None else Some(RateLimited)
    {
      if sender !in buckets { buckets := buckets[sender := Bucket(now, 0)]; }
      if WholeSeconds(now - buckets[sender].start) >= RATE_WINDOW_SECS {
        buckets := buckets[sender := Bucket(now, 1)];
        return None;
      }
      if buckets[sender].count < RATE_MAX {
        buckets := buckets[sender := buckets[sender].(count := buckets[sender].count + 1)];
        return None;
      }
      return Some(RateLimited);
    }
  }

  class GuardState {
    const replay: ReplayCache
    const rate: RateLimiter

    constructor ()
      ensures fresh(replay) && fresh(rate) && replay.entries == map[] && rate.buckets == map[]
    {
      replay := new ReplayCache();
      rate := new RateLimiter();
    }

    ghost function Value(): Guard
      reads replay, rate
    {
      Guard(replay.entries, rate.buckets)
    }

    method RunCheapGates(input: GuardInput) returns (reject: Option<Reject>)
      modifies replay, rate
      ensures GateResult(Value(), reject) == Gates(old(Value()), input)
    {
      reject := AudienceCheck(input);
      if reject.Some? { return; }
      reject := FreshnessCheck(input.peeked.ts, input.now);
      if reject.Some? { return; }
      if input.peeked.nonce.None? { return Some(MissingNonce); }
      var sender := input.peeked.from.name;
      reject := replay.Record(sender, input.peeked.nonce.value, input.now.value);
      if reject.Some? { return; }
      reject := rate.Admit(sender, input.now.value);
    }
  }
}
