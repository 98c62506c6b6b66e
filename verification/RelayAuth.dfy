/**
  The fetch authorization itself: what a client mints and signs, what the relay accepts, what one
  signature authorizes, and what the relay remembers on the strength of it.
 */
module RelayAuth {
  import opened Results
  import opened Clock
  import opened Crypto
  import opened NonceCache
  import opened RelayFetch
  import opened RelayRuns

  // ---------------------------------------------------------------- acceptance

  /**
    A genuine request is accepted: a configured key's signature over the type tag, this relay's
    audience, the domain of the path, and the nonce and timestamp as presented is enough, with
    headers that fit and a fresh timestamp.
   */
  lemma GenuineIsAccepted(cfg: Config, domain: string, nonce: string, ts: string, sig: string, k: Key, now: Instant)
    requires domain in cfg.domains && k in cfg.domains[domain] && cfg.decodesSignature(sig)
    requires cfg.verifies(k, AuthForm("famp-relay-fetch-v1", cfg.audience, domain, nonce, ts), sig)
    requires |cfg.audience| <= 512 && |ts| <= 512 && |nonce| <= 512 && |sig| <= 512
    requires cfg.parseTime(ts).Some? && IsFresh(cfg.parseTime(ts).value, now)
    ensures FirstFailure(cfg, domain, Presented(cfg.audience, ts, nonce, sig), now).None?
  {
  }

  /** Nothing else is: an accepted request carries a configured key's signature over exactly that. */
  lemma AcceptedIsGenuine(cfg: Config, domain: string, auth: Presented, now: Instant) returns (k: Key)
    requires domain in cfg.domains && FirstFailure(cfg, domain, auth, now).None?
    ensures k in cfg.domains[domain] && auth.aud == cfg.audience
    ensures cfg.verifies(k, AuthForm("famp-relay-fetch-v1", cfg.audience, domain, auth.nonce, auth.ts), auth.sig)
    ensures cfg.parseTime(auth.ts).Some? && IsFresh(cfg.parseTime(auth.ts).value, now)
  {
    k :| k in cfg.domains[domain] && cfg.verifies(k, FormFor(auth, domain), auth.sig);
  }

  /** What each rejection says of a request, whatever else is wrong with it. */
  ghost predicate HasFault(cfg: Config, domain: string, auth: Presented, now: Instant, why: Reject)
    requires domain in cfg.domains
  {
    match why
    case HeaderTooLong => exists v <- [auth.aud, auth.ts, auth.nonce, auth.sig] :: |v| > 512
    case AudienceMismatch => auth.aud != cfg.audience
    case MalformedTimestamp => cfg.parseTime(auth.ts).None?
    case StaleFetch =>
      && cfg.parseTime(auth.ts).Some?
      && var off := FloorToSecond(now) - cfg.parseTime(auth.ts).value;
      off <= -301 * NANOS || 301 * NANOS <= off
    case MalformedSignature => !cfg.decodesSignature(auth.sig)
    case BadSignature =>
      forall k <- cfg.domains[domain] ::
        !cfg.verifies(k, AuthForm("famp-relay-fetch-v1", auth.aud, domain, auth.nonce, auth.ts), auth.sig)
    case _ => false
  }

  /** The order the source calls a contract. */
  function Rank(why: Reject): nat {
    match why
    case HeaderTooLong => 1
    case AudienceMismatch => 2
    case MalformedTimestamp => 3
    case StaleFetch => 4
    case MalformedSignature => 5
    case BadSignature => 6
    case _ => 0
  }

  /**
    Verification reports a fault the request has and, of all it has, the one first in contract
    order; it accepts exactly the requests that have none.
   */
  lemma FirstFaultIsReported(cfg: Config, domain: string, auth: Presented, now: Instant)
    requires domain in cfg.domains
    ensures var failure := FirstFailure(cfg, domain, auth, now);
            && (failure.None? <==> forall r :: !HasFault(cfg, domain, auth, now, r))
            && (failure.Some? ==>
                  && HasFault(cfg, domain, auth, now, failure.value)
                  && forall r | HasFault(cfg, domain, auth, now, r) :: Rank(failure.value) <= Rank(r))
  {
    var values := [auth.aud, auth.ts, auth.nonce, auth.sig];
    assert HasFault(cfg, domain, auth, now, HeaderTooLong) <==> !HeadersFit(auth) by {
      assert values[0] == auth.aud && values[1] == auth.ts && values[2] == auth.nonce && values[3] == auth.sig;
    }
    var failure := FirstFailure(cfg, domain, auth, now);
    if failure.None? {
      forall r ensures !HasFault(cfg, domain, auth, now, r) {}
    } else {
      assert HasFault(cfg, domain, auth, now, failure.value);
    }
  }

  /** `sign_fetch_auth`: the client stamps its own clock and signs the five fields. */
  function Mint(sign: AuthForm -> string, aud: string, domain: string, now: Utc, nonce: string): Presented
    requires IsCalendar(now)
  {
    var ts := FormatUtc(now);
    Presented(aud, ts, nonce, sign(AuthForm(AUTH_TYP, aud, domain, nonce, ts)))
  }

  /** The parser reads the canonical text back as the second it was printed from. */
  ghost predicate ReadsClock(cfg: Config) {
    forall u :: IsCalendar(u) ==> cfg.parseTime(FormatUtc(u)) == Some(Elapsed(u) * NANOS)
  }

  /** Whatever this signer signs verifies under `k` and decodes within the header limit. */
  ghost predicate SignsFor(cfg: Config, sign: AuthForm -> string, k: Key) {
    forall f :: cfg.verifies(k, f, sign(f)) && cfg.decodesSignature(sign(f)) && |sign(f)| <= HEADER_MAX_BYTES
  }

  /**
    Round trip from client to relay: an authorization minted for this relay by a configured key is
    accepted if and only if the relay's clock, read to the second, is within 300 seconds of the
    client's, either way.
   */
  lemma MintedIsAcceptedIff(cfg: Config, sign: AuthForm -> string, k: Key, domain: string, minted: Utc, nonce: string,
                            now: Instant)
    requires ReadsClock(cfg) && SignsFor(cfg, sign, k) && IsCalendar(minted)
    requires domain in cfg.domains && k in cfg.domains[domain]
    requires |cfg.audience| <= HEADER_MAX_BYTES && |nonce| <= HEADER_MAX_BYTES
    ensures FirstFailure(cfg, domain, Mint(sign, cfg.audience, domain, minted, nonce), now).None?
            <==> -300 * NANOS <= FloorToSecond(now) - Elapsed(minted) * NANOS <= 300 * NANOS
  {
    var ts := FormatUtc(minted);
    PrintedIsShort(minted);
    SignedIsAcceptedIff(cfg, sign, k, domain, ts, nonce, now);
    FreshIffWithin(Elapsed(minted), now);
  }

  lemma PrintedIsShort(u: Utc)
    requires IsCalendar(u)
    ensures |FormatUtc(u)| <= HEADER_MAX_BYTES
  {
    FormatIsCanonical(u);
  }

  lemma SignedIsAcceptedIff(cfg: Config, sign: AuthForm -> string, k: Key, domain: string, ts: string, nonce: string,
                            now: Instant)
    requires SignsFor(cfg, sign, k) && cfg.parseTime(ts).Some? && |ts| <= HEADER_MAX_BYTES
    requires domain in cfg.domains && k in cfg.domains[domain]
    requires |cfg.audience| <= HEADER_MAX_BYTES && |nonce| <= HEADER_MAX_BYTES
    ensures var sig := sign(AuthForm("famp-relay-fetch-v1", cfg.audience, domain, nonce, ts));
            FirstFailure(cfg, domain, Presented(cfg.audience, ts, nonce, sig), now).None?
            <==> IsFresh(cfg.parseTime(ts).value, now)
  {
    var f := AuthForm("famp-relay-fetch-v1", cfg.audience, domain, nonce, ts);
    assert cfg.verifies(k, f, sign(f));
    if IsFresh(cfg.parseTime(ts).value, now) { GenuineIsAccepted(cfg, domain, nonce, ts, sign(f), k, now); }
  }

  lemma FreshIffWithin(secs: int, now: Instant)
    ensures IsFresh(secs * NANOS, now) <==> -300 * NANOS <= FloorToSecond(now) - secs * NANOS <= 300 * NANOS
  {
  }

  // ---------------------------------------------------------------- what one signature authorizes

  /** No signature fits two forms, under any keys. */
  ghost predicate SignaturesBind(cfg: Config) {
    forall k, k', f, f', sig :: cfg.verifies(k, f, sig) && cfg.verifies(k', f', sig) ==> f == f'
  }

  /** Two acceptances on one signature are of one audience, one domain, one nonce and one timestamp. */
  lemma SignatureFixesRequest(cfg: Config, domain: string, auth: Presented, now: Instant,
                              domain': string, auth': Presented, now': Instant)
    requires SignaturesBind(cfg) && domain in cfg.domains && domain' in cfg.domains && auth.sig == auth'.sig
    requires FirstFailure(cfg, domain, auth, now).None? && FirstFailure(cfg, domain', auth', now').None?
    ensures domain == domain' && auth == auth'
  {
    var k := AcceptedIsGenuine(cfg, domain, auth, now);
    var k' := AcceptedIsGenuine(cfg, domain', auth', now');
    assert AuthForm("famp-relay-fetch-v1", cfg.audience, domain, auth.nonce, auth.ts)
        == AuthForm("famp-relay-fetch-v1", cfg.audience, domain', auth'.nonce, auth'.ts);
  }

  /** Over all runs this timely, no two drains, of whatever queues, rest on this signature. */
  ghost predicate DrainsAtMostOnceOn(cfg: Config, sig: string, late: Lateness) {
    forall run: Run, i: nat, j: nat
      | IsTimelyRun(cfg, run, late) && i < j < |run.steps| && DrainsOnAt(cfg, run, i, sig) ::
      !DrainsOnAt(cfg, run, j, sig)
  }

  lemma DrainWasAccepted(cfg: Config, st: State, s: Step, sig: string) returns (f: Fetch)
    requires DrainsOn(cfg, st, s, sig)
    ensures f.auth.sig == sig && f.domain in cfg.domains && FirstFailure(cfg, f.domain, f.auth, f.now).None?
    ensures Drains(cfg, st, s, f.domain, f.auth.nonce, f.auth.ts)
  {
    f := st.pending[s.id];
  }

  /** In a timely run, two drains on one signature are two drains on one authorization. */
  lemma SameSignatureSameDrain(cfg: Config, run: Run, i: nat, domain: string, auth: Presented, now: Instant)
    requires SignaturesBind(cfg) && domain in cfg.domains && FirstFailure(cfg, domain, auth, now).None?
    requires i < |run.steps| < |run.states| && DrainsOnAt(cfg, run, i, auth.sig)
    ensures DrainsAt(cfg, run, i, domain, auth.nonce, auth.ts)
  {
    var f := DrainWasAccepted(cfg, run.states[i], run.steps[i], auth.sig);
    SignatureFixesRequest(cfg, domain, auth, now, f.domain, f.auth, f.now);
  }

  /**
    One signature, one drain. Where a signature fits one form only, an authentic one drains at
    most once, over all timely runs and all queues, if and only if its timestamp is a whole second
    and the nonce cache is reached in clock order.
   */
  lemma OneSignatureOneDrainIff(cfg: Config, domain: string, auth: Presented, now: Instant, late: Lateness)
    requires SignaturesBind(cfg) && domain in cfg.domains && FirstFailure(cfg, domain, auth, now).None?
    requires IsTolerable(late.limiter) && 0 <= late.cache
    ensures DrainsAtMostOnceOn(cfg, auth.sig, late)
            <==> IsWholeSecond(cfg.parseTime(auth.ts).value) && late.cache == 0
  {
    var ts := cfg.parseTime(auth.ts).value;
    if !IsWholeSecond(ts) {
      SubSecondOutlivesRetention(ts);
      var run := TwoFetches(cfg, domain, auth, FloorToSecond(ts) - FRESHNESS_SECS * NANOS,
                            FloorToSecond(ts) + (FRESHNESS_SECS + 1) * NANOS, late);
      assert IsTimelyRun(cfg, run, late) && DrainsOnAt(cfg, run, 1, auth.sig) && DrainsOnAt(cfg, run, 3, auth.sig);
    } else if late.cache > 0 {
      var run := OvertakenFetchDrainsAgain(cfg, domain, auth, late);
      assert IsTimelyRun(cfg, run, late) && DrainsOnAt(cfg, run, 1, auth.sig) && DrainsOnAt(cfg, run, 4, auth.sig);
    } else {
      forall run: Run, i: nat, j: nat
        | IsTimelyRun(cfg, run, late) && i < j < |run.steps| && DrainsOnAt(cfg, run, i, auth.sig)
        ensures !DrainsOnAt(cfg, run, j, auth.sig)
      {
        if DrainsOnAt(cfg, run, j, auth.sig) {
          SameSignatureSameDrain(cfg, run, i, domain, auth, now);
          SameSignatureSameDrain(cfg, run, j, domain, auth, now);
          DrainedAtMostOnce(cfg, run, i, j, domain, auth.nonce, auth.ts, late.limiter);
        }
      }
    }
  }

  // ---------------------------------------------------------------- what the relay remembers

  /** A step writes the nonce cache only to sweep it or on the strength of an accepted request. */
  lemma OnlyAcceptedIsRecorded(cfg: Config, st: State, s: Step)
    ensures !s.Sweep? && Next(cfg, st, s).state.nonces != st.nonces ==>
              && s.Finish? && s.id in st.pending
              && var f := st.pending[s.id];
              && f.domain in cfg.domains && FirstFailure(cfg, f.domain, f.auth, f.now).None?
    ensures Next(cfg, st, s).outcome.Rejected? && Next(cfg, st, s).outcome.why != ReplayedNonce ==>
              Next(cfg, st, s).state.nonces == st.nonces
  {
  }

  /**
    The gate before the rate limiter: a request for an unknown domain, or short of a header, is told
    so, the domain first, and spends nothing of anyone's allowance. No other request is told either.
   */
  lemma IncompleteSpendsNothing(cfg: Config, st: State, id: nat, domain: string, h: Headers, now: Instant)
    requires id !in st.pending
    ensures var t := Next(cfg, st, Begin(id, domain, h, now));
            && (t.outcome == Rejected(UnknownDomain) <==> domain !in cfg.domains)
            && (t.outcome == Rejected(MissingHeader) <==>
                  domain in cfg.domains && exists v <- [h.aud, h.ts, h.nonce, h.sig] :: v.None?)
            && (t.outcome in {Rejected(UnknownDomain), Rejected(MissingHeader)} ==> t.state == st)
            && (t.outcome in {Admitted, Rejected(UnknownDomain), Rejected(MissingHeader), Rejected(RateLimited)})
  {
    var values := [h.aud, h.ts, h.nonce, h.sig];
    assert values[0] == h.aud && values[1] == h.ts && values[2] == h.nonce && values[3] == h.sig;
  }

  lemma StepRecords(cfg: Config, st: State, s: Step, domain: string, nonce: string)
    requires nonce in Held(Next(cfg, st, s).state.nonces, domain) && nonce !in Held(st.nonces, domain)
    ensures s.Finish? && s.id in st.pending && st.pending[s.id].domain == domain && st.pending[s.id].auth.nonce == nonce
    ensures Next(cfg, st, s).outcome.Drained?
  {
  }

  /** Some earlier step drained this domain on this nonce. */
  ghost predicate WasDrainedOn(cfg: Config, run: Run, k: nat, domain: string, nonce: string)
    requires k <= |run.steps| < |run.states|
  {
    exists i :: 0 <= i < k && IsDrainOf(cfg, run.states[i], run.steps[i], domain, nonce)
  }

  ghost predicate IsDrainOf(cfg: Config, st: State, s: Step, domain: string, nonce: string) {
    && s.Finish? && s.id in st.pending && Next(cfg, st, s).outcome.Drained?
    && st.pending[s.id].domain == domain && st.pending[s.id].auth.nonce == nonce
  }

  /**
    Whole runs: no caller without a configured key takes a place in a domain's nonce cache. Every
    nonce on record was presented by a request that was accepted and drained that domain.
   */
  lemma {:induction false} EveryNonceWasAccepted(cfg: Config, run: Run, k: nat, domain: string, nonce: string)
    requires IsRun(cfg, run) && k <= |run.steps| && nonce in Held(run.states[k].nonces, domain)
    ensures WasDrainedOn(cfg, run, k, domain, nonce)
  {
    if k > 0 {
      var st, s := run.states[k - 1], run.steps[k - 1];
      assert Follows(cfg, run, k - 1);
      if nonce in Held(st.nonces, domain) {
        EveryNonceWasAccepted(cfg, run, k - 1, domain, nonce);
        var i :| 0 <= i < k - 1 && IsDrainOf(cfg, run.states[i], run.steps[i], domain, nonce);
        assert WasDrainedOn(cfg, run, k, domain, nonce);
      } else {
        StepRecords(cfg, st, s, domain, nonce);
        assert IsDrainOf(cfg, run.states[k - 1], run.steps[k - 1], domain, nonce);
      }
    }
  }

  /** And a drain is always of an accepted request. */
  lemma DrainIsAccepted(cfg: Config, st: State, s: Step, domain: string, nonce: string)
    requires IsDrainOf(cfg, st, s, domain, nonce)
    ensures domain in cfg.domains && FirstFailure(cfg, domain, st.pending[s.id].auth, st.pending[s.id].now).None?
  {
  }
}
