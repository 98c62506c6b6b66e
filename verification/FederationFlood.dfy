/** What a flood of the replay cache costs end to end: one signed envelope delivered twice, a minute apart. */
module FederationFlood {
  import opened Results
  import opened Clock
  import opened RateLimit
  import opened NonceCache
  import opened IngressGuard
  import opened Federation
  import opened FederationRuns
  import opened GuardRuns
  import opened GuardFlood
  import Keyring

  /** The wire object with another nonce: its signature no longer fits, which the gates do not look at. */
  function Forged(w: World, o: Object, st: Stamp, i: nat): Json {
    Obj(SignedObject(w, o, st)["nonce" := Str(st.nonce + Stars(i + 1))])
  }

  function ForgedRequests(w: World, site: Site, o: Object, st: Stamp, now: string): seq<Request> {
    seq(CAPACITY, i requires 0 <= i => Request(site, st.to, Forged(w, o, st, i), now))
  }

  lemma ForgedPeeks(w: World, o: Object, st: Stamp, ownDomain: string, i: nat)
    requires SIGNATURE !in o && RelayCheck(Obj(o), ownDomain) == Ok((st.from, st.to)) && StringField(o, "ts").Some?
    ensures Peek(w, Forged(w, o, st, i))
            == Some(Peeked(st.from, st.to, w.parseTime(StringField(o, "ts").value), Some(st.nonce + Stars(i + 1))))
  {
    var s := SignedObject(w, o, st);
    SignedPeeks(w, o, st, ownDomain);
    assert forall k <- s :: k != "nonce" ==> Forged(w, o, st, i).fields[k] == s[k];
  }

  /** The request reaches the gates as this call. */
  predicate CallsAs(w: World, r: Request, c: GuardInput) {
    Peek(w, r.value).Some? && InputFor(w, r.site, Peek(w, r.value).value, r.now) == c
  }

  lemma OneMoreCall(w: World, rs: seq<Request>, c: GuardInput)
    requires rs != [] && CallsAs(w, rs[|rs| - 1], c)
    ensures CallsOf(w, rs) == CallsOf(w, rs[..|rs| - 1]) + [c]
  {
  }

  /** Every request can be peeked, and reaches the gates as its own call. */
  predicate AllCallAs(w: World, rs: seq<Request>, calls: seq<GuardInput>) {
    |rs| == |calls| && forall i :: 0 <= i < |rs| ==> CallsAs(w, rs[i], calls[i])
  }

  lemma CallAsAt(w: World, rs: seq<Request>, calls: seq<GuardInput>, i: nat)
    requires AllCallAs(w, rs, calls) && i < |rs|
    ensures CallsAs(w, rs[i], calls[i])
  {
  }

  lemma {:induction false} EveryRequestCalls(w: World, rs: seq<Request>, calls: seq<GuardInput>, k: nat)
    requires AllCallAs(w, rs, calls) && k <= |rs|
    ensures CallsOf(w, rs[..k]) == calls[..k]
  {
    if k > 0 {
      EveryRequestCalls(w, rs, calls, k - 1);
      CallAsAt(w, rs, calls, k - 1);
      OneMoreCall(w, rs[..k], calls[k - 1]);
      assert rs[..k][..k - 1] == rs[..k - 1];
      OneMore(calls, k);
    }
  }

  lemma OneMore(calls: seq<GuardInput>, k: nat)
    requires 0 < k <= |calls|
    ensures calls[..k] == calls[..k - 1] + [calls[k - 1]]
  {
  }

  /** A minute that starts at a fresh clock and ends at one, and its first second. */
  ghost predicate IsMinute(w: World, ts: string, start: string, next: string, end: string) {
    && w.parseTime(ts).Some? && w.parseTime(start).Some?
    && w.parseTime(next) == Some(w.parseTime(start).value + NANOS)
    && w.parseTime(end) == Some(w.parseTime(start).value + WINDOW)
    && IsFresh(w.parseTime(ts).value, w.parseTime(start).value)
    && IsFresh(w.parseTime(ts).value, w.parseTime(start).value + WINDOW)
  }

  /** The relayed object passes the stateless gates at both ends of the minute. */
  lemma MinutePassesPrecheck(w: World, site: Site, o: Object, st: Stamp, start: string, next: string, end: string)
    requires StringField(o, "ts").Some? && st.from.name in site.backed
    requires st.to.authority == site.ownDomain && st.nonce != ""
    requires IsMinute(w, StringField(o, "ts").value, start, next, end)
    ensures var first := RelayedInput(w, site, o, st, start);
            && Precheck(first).None? && Precheck(At(first, first.now.value + WINDOW)).None?
            && RelayedInput(w, site, o, st, end) == At(first, first.now.value + WINDOW)
  {
  }

  lemma ForgedCallsAs(w: World, site: Site, o: Object, st: Stamp, ownDomain: string, start: string, next: string,
                      i: nat)
    requires SIGNATURE !in o && RelayCheck(Obj(o), ownDomain) == Ok((st.from, st.to)) && StringField(o, "ts").Some?
    requires w.parseTime(start).Some? && w.parseTime(next) == Some(w.parseTime(start).value + NANOS)
    requires Precheck(RelayedInput(w, site, o, st, start)).None?
    ensures CallsAs(w, Request(site, st.to, Forged(w, o, st, i), next), Variant(RelayedInput(w, site, o, st, start), i))
  {
    ForgedPeeks(w, o, st, ownDomain, i);
  }

  lemma ForgedCalls(w: World, site: Site, o: Object, st: Stamp, ownDomain: string, start: string, next: string)
    requires SIGNATURE !in o && RelayCheck(Obj(o), ownDomain) == Ok((st.from, st.to)) && StringField(o, "ts").Some?
    requires w.parseTime(start).Some? && w.parseTime(next) == Some(w.parseTime(start).value + NANOS)
    requires Precheck(RelayedInput(w, site, o, st, start)).None?
    ensures CallsOf(w, ForgedRequests(w, site, o, st, next)) == Burst(RelayedInput(w, site, o, st, start))
  {
    var rs, calls := ForgedRequests(w, site, o, st, next), Burst(RelayedInput(w, site, o, st, start));
    forall i | 0 <= i < |rs| ensures CallsAs(w, rs[i], calls[i]) {
      ForgedCallsAs(w, site, o, st, ownDomain, start, next, i);
    }
    EveryRequestCalls(w, rs, calls, |rs|);
    assert rs[..|rs|] == rs && calls[..|calls|] == calls;
  }

  /** The gates let the relayed object through before the flood and after it. */
  lemma FloodPassesGates(w: World, site: Site, o: Object, st: Stamp, ownDomain: string,
                         start: string, next: string, end: string)
    requires SIGNATURE !in o && RelayCheck(Obj(o), ownDomain) == Ok((st.from, st.to)) && StringField(o, "ts").Some?
    requires st.from.name in site.backed && st.to.authority == site.ownDomain && st.nonce != ""
    requires IsMinute(w, StringField(o, "ts").value, start, next, end)
    ensures var once := Gates(NEW_GUARD, RelayedInput(w, site, o, st, start));
            var flooded := StateAfter(w, once.guard, ForgedRequests(w, site, o, st, next));
            once.reject.None? && Gates(flooded, RelayedInput(w, site, o, st, end)).reject.None?
  {
    MinutePassesPrecheck(w, site, o, st, start, next, end);
    FloodOpensAndReadmits(RelayedInput(w, site, o, st, start), RelayedInput(w, site, o, st, end));
    ForgedRunIsBurst(w, site, o, st, ownDomain, start, next);
  }

  lemma FloodOpensAndReadmits(first: GuardInput, again: GuardInput)
    requires Precheck(first).None? && Precheck(again).None? && again == At(first, first.now.value + WINDOW)
    ensures Gates(NEW_GUARD, first) == GateResult(Opened(first), None)
    ensures Gates(GuardAfter(Opened(first), Burst(first)), again).reject.None?
  {
    FloodReadmits(first);
  }

  lemma ForgedRunIsBurst(w: World, site: Site, o: Object, st: Stamp, ownDomain: string, start: string, next: string)
    requires SIGNATURE !in o && RelayCheck(Obj(o), ownDomain) == Ok((st.from, st.to)) && StringField(o, "ts").Some?
    requires w.parseTime(start).Some? && w.parseTime(next) == Some(w.parseTime(start).value + NANOS)
    requires Precheck(RelayedInput(w, site, o, st, start)).None?
    ensures var first := RelayedInput(w, site, o, st, start);
            StateAfter(w, Opened(first), ForgedRequests(w, site, o, st, next))
            == GuardAfter(Opened(first), Burst(first))
  {
    ForgedCalls(w, site, o, st, ownDomain, start, next);
    RunIsGuardRun(w, Opened(RelayedInput(w, site, o, st, start)), ForgedRequests(w, site, o, st, next));
  }

  /**
    The flood disjunct is real. A relayed object is delivered; 4096 copies with altered nonces
    arrive a second later, none of which needs a valid signature; and the same wire object is
    delivered again 60 seconds after the first time.
   */
  lemma FloodRedelivers(w: World, site: Site, o: Object, st: Stamp, ownDomain: string,
                        start: string, next: string, end: string)
    requires SignaturesComplete(w) && IsWellFormed(w, o, st) && st.from.name in site.backed * site.backedAtDelivery
    requires SIGNATURE !in o && RelayCheck(Obj(o), ownDomain) == Ok((st.from, st.to))
    requires Keyring.ActiveKey(site.ring, st.from, start) == Keyring.Usable(w.publicOf(st.sk))
    requires Keyring.ActiveKey(site.ring, st.from, end) == Keyring.Usable(w.publicOf(st.sk))
    requires st.to.authority == site.ownDomain && st.nonce != ""
    requires IsMinute(w, StringField(o, "ts").value, start, next, end)
    ensures var wire, d := Obj(SignedObject(w, o, st)), Delivery(st.from.name, st.to.name, o);
            var once := Ingest(w, site, NEW_GUARD, st.to, wire, start);
            var flooded := StateAfter(w, once.guard, ForgedRequests(w, site, o, st, next));
            once.result == Ok(d) && Ingest(w, site, flooded, st.to, wire, end).result == Ok(d)
  {
    FloodPassesGates(w, site, o, st, ownDomain, start, next, end);
    PastGatesIsDelivered(w, site, NEW_GUARD, o, st, ownDomain, start);
    var once := Gates(NEW_GUARD, RelayedInput(w, site, o, st, start)).guard;
    PastGatesIsDelivered(w, site, StateAfter(w, once, ForgedRequests(w, site, o, st, next)), o, st, ownDomain, end);
  }

  /**
    The other half, read off the requests: one content delivered twice away from the ends of the
    window, with no clock reading a whole retention later in between, means at least 4095 distinct
    newer nonces of that sender on record or presented since.
   */
  lemma RedeliveryNeedsCrowd(w: World, g: Guard, first: Request, rs: seq<Request>, again: Request)
    requires SameContent(first.value, again.value)
    requires IngestOne(w, g, first).result.Ok?
    requires IngestOne(w, StateAfter(w, IngestOne(w, g, first).guard, rs), again).result.Ok?
    requires Peek(w, first.value).Some?
    requires Peek(w, first.value).value.nonce.Some? && Peek(w, first.value).value.ts.Some?
    requires w.parseTime(first.now).Some? && w.parseTime(again.now).Some?
    requires IsWholeSecond(w.parseTime(first.now).value) && IsWholeSecond(w.parseTime(again.now).value)
    requires |Held(g.cache, Peek(w, first.value).value.from.name)| <= CAPACITY
    ensures var peeked := Peek(w, first.value).value;
            var t, later := w.parseTime(first.now).value, w.parseTime(again.now).value;
            || later - t == RETENTION
            || (!IsWholeSecond(peeked.ts.value) && later - t == RETENTION + NANOS)
            || !NoneOutlives(SightingsOf(peeked.from.name, CallsOf(w, rs)), t)
            || |NewerSeen(Held(IngestOne(w, g, first).guard.cache, peeked.from.name),
                          SightingsOf(peeked.from.name, CallsOf(w, rs)), peeked.nonce.value, t)| >= CAPACITY - 1
  {
    var peeked := Peek(w, first.value).value;
    var t, later := w.parseTime(first.now).value, w.parseTime(again.now).value;
    var sender, nonce := peeked.from.name, peeked.nonce.value;
    DeliveredTwiceOnlyAtTheEnds(w, g, first, rs, again);
    var m, ss := Held(IngestOne(w, g, first).guard.cache, sender), SightingsOf(sender, CallsOf(w, rs));
    if later - t >= RETENTION {
      DeliveredFar(w, g, first, rs, again);
    } else if NoneOutlives(ss, t) {
      DeliveredIsHeld(w, g, first, sender, nonce, t);
      FloodNeedsCrowd(m, ss, nonce, t);
    }
  }

  /** Two deliveries no closer than the retention are at the ends of the window. */
  lemma DeliveredFar(w: World, g: Guard, first: Request, rs: seq<Request>, again: Request)
    requires SameContent(first.value, again.value)
    requires IngestOne(w, g, first).result.Ok?
    requires IngestOne(w, StateAfter(w, IngestOne(w, g, first).guard, rs), again).result.Ok?
    requires Peek(w, first.value).Some? && Peek(w, first.value).value.ts.Some?
    requires w.parseTime(first.now).Some? && w.parseTime(again.now).Some?
    requires IsWholeSecond(w.parseTime(first.now).value) && IsWholeSecond(w.parseTime(again.now).value)
    requires w.parseTime(again.now).value - w.parseTime(first.now).value >= RETENTION
    ensures var apart := w.parseTime(again.now).value - w.parseTime(first.now).value;
            apart == RETENTION || (!IsWholeSecond(Peek(w, first.value).value.ts.value) && apart == RETENTION + NANOS)
  {
    DeliveredCall(w, g, first);
    DeliveredCall(w, StateAfter(w, IngestOne(w, g, first).guard, rs), again);
    SameContentSamePeek(w, first.value, again.value);
    ApartExactly(Peek(w, first.value).value.ts.value, w.parseTime(first.now).value, w.parseTime(again.now).value);
  }

  /** A delivery leaves its nonce on record at its own instant. */
  lemma DeliveredIsHeld(w: World, g: Guard, r: Request, sender: string, nonce: string, t: Instant)
    requires IngestOne(w, g, r).result.Ok? && w.parseTime(r.now) == Some(t) && |Held(g.cache, sender)| <= CAPACITY
    requires Peek(w, r.value).Some? && Peek(w, r.value).value.from.name == sender
    requires Peek(w, r.value).value.nonce == Some(nonce)
    ensures var m := Held(IngestOne(w, g, r).guard.cache, sender);
            nonce in m && m[nonce] == t && |m| <= CAPACITY
  {
    DeliveredCall(w, g, r);
    RecordKeepsCapacity(Held(g.cache, sender), nonce, t, RETENTION);
  }
}
