/**
  What the cross-host relay promises end to end: content transparency, integrity, what a
  delivery implies, and how often one signed envelope can be delivered.
 */
module FederationRuns {
  import opened Results
  import opened Clock
  import opened Crypto
  import opened Identity
  import opened IngressGuard
  import opened Federation
  import opened GuardRuns
  import opened NonceCache
  import Keyring
  import KeyringRuns
  import Text

  // ---------------------------------------------------------------- transparency

  lemma WrapperIsSigned(w: World, o: Object, st: Stamp)
    requires SIGNATURE !in o
    ensures SignedObject(w, o, st) - {SIGNATURE} == Wrapped(w, o, st)
  {
  }

  lemma StripUndoesWrap(w: World, o: Object, st: Stamp)
    requires SIGNATURE !in o && !CarriesFederationField(o)
    ensures Stripped(SignedObject(w, o, st)) == o
  {
  }

  /** Every field outside the wrapper crosses unchanged, whatever it holds. */
  lemma OtherFieldsAreKept(w: World, o: Object, st: Stamp, k: string)
    requires k !in WrapperSet()
    ensures k in SignedObject(w, o, st) <==> k in o
    ensures k in o ==> SignedObject(w, o, st)[k] == o[k]
  {
  }

  /** Stripping what egress produced gives the drained object back exactly when that was unsigned. */
  lemma TransparentIffUnsigned(w: World, o: Object, st: Stamp)
    requires !CarriesFederationField(o)
    ensures Stripped(SignedObject(w, o, st)) == o <==> SIGNATURE !in o
  {
  }

  /** A second pass over a signed value changes nothing, whatever it would have stamped. */
  lemma SigningIsIdempotent(w: World, o: Object, st: Stamp, st': Stamp)
    ensures SIGNATURE in SignedObject(w, o, st)
    ensures SignedObject(w, SignedObject(w, o, st), st') == SignedObject(w, o, st)
  {
  }

  /** The authority of the principal a field names, as text. */
  function AuthorityOf(o: Object, field: string): Option<string> {
    match PrincipalField(Obj(o), field)
    case Ok(p) => Some(p.authority)
    case Err(_) => None
  }

  /**
    What an egress puts on the wire speaks for itself: its `from_domain` is the authority of its
    own `from`, which is the gateway's domain; its `to_domain` is that of its own `to`; and its
    key id, nonce and expiry are the gateway's.
   */
  lemma WireNamesItsDomains(w: World, o: Object, st: Stamp, ownDomain: string)
    requires SIGNATURE !in o && RelayCheck(Obj(o), ownDomain) == Ok((st.from, st.to))
    ensures var wire := SignedObject(w, o, st);
            && StringField(wire, "from_domain") == AuthorityOf(wire, "from") == Some(ownDomain)
            && StringField(wire, "to_domain") == AuthorityOf(wire, "to") && AuthorityOf(wire, "to").Some?
            && StringField(wire, "sender_key_id") == Some(w.keyId(st.vk))
            && StringField(wire, "nonce") == Some(st.nonce) && StringField(wire, "expiry") == Some(st.expiry)
            && StringField(wire, "signature") == Some(w.sign(st.sk, wire - {"signature"}))
  {
    WrapperIsSigned(w, o, st);
    AddressIsKept(w, o, st, "from");
    AddressIsKept(w, o, st, "to");
  }

  /** A value left half-signed by a failed signature is refused if it is ever relayed again. */
  lemma HalfSignedIsRefused(w: World, v: Json, st: Stamp, ownDomain: string)
    requires RelayCheck(v, ownDomain) == Ok((st.from, st.to))
    requires Signing(w, v, st.from, st.to, st.sk, st.vk, st.nonce, Some(st.expiry)).1 == Err(SignFailed)
    ensures var half := Signing(w, v, st.from, st.to, st.sk, st.vk, st.nonce, Some(st.expiry)).0;
            half != v && RelayCheck(half, ownDomain) == Err(ClientSuppliedFederationField)
  {
    var half := Signing(w, v, st.from, st.to, st.sk, st.vk, st.nonce, Some(st.expiry)).0;
    assert "nonce" in FederationSet() && "nonce" in half.fields;
    assert PrincipalField(half, "from") == PrincipalField(v, "from");
    assert PrincipalField(half, "to") == PrincipalField(v, "to");
  }

  /** No wrapper key survives stripping, and stripping twice is stripping once. */
  lemma StrippedIsBusLegal(o: Object)
    ensures Stripped(o).Keys !! WrapperSet()
    ensures Stripped(Stripped(o)) == Stripped(o)
    ensures Stripped(o) == o <==> o.Keys !! WrapperSet()
  {
  }

  // ---------------------------------------------------------------- one envelope across two gateways

  /** What the receiver must find, apart from the guard, for an envelope to be delivered. */
  ghost predicate Admissible(w: World, site: Site, from: Principal, recipient: Principal, o: Object, now: string) {
    && VerifyInbound(w, site.ring, from, o, now).None?
    && PrincipalField(Obj(o), "to") == Ok(recipient)
    && IsFormatOk(o)
    && from.name in site.backedAtDelivery
  }

  /**
    Delivery characterised, for every JSON value: the peek succeeds, every gate passes, the
    signature holds under the key active now, the signed `to` is the addressed mailbox, the
    format is right, and what lands on the bus is the value without its wrapper.
   */
  lemma DeliveredIff(w: World, site: Site, g: Guard, recipient: Principal, v: Json, now: string, d: Delivery)
    ensures Ingest(w, site, g, recipient, v, now).result == Ok(d)
            <==> && Peek(w, v).Some?
                 && Gates(g, InputFor(w, site, Peek(w, v).value, now)).reject.None?
                 && Admissible(w, site, Peek(w, v).value.from, recipient, v.fields, now)
                 && d == Delivery(Peek(w, v).value.from.name, recipient.name, Stripped(v.fields))
  {
  }

  /** What a delivery implies, in the sender's and the receiver's terms. */
  lemma DeliveryIsAuthentic(w: World, site: Site, g: Guard, recipient: Principal, v: Json, now: string, d: Delivery)
    requires Ingest(w, site, g, recipient, v, now).result == Ok(d)
    ensures v.Obj? && PrincipalField(v, "from").Ok? && PrincipalField(v, "to") == Ok(recipient)
    ensures recipient.authority == site.ownDomain
    ensures PrincipalField(v, "from").value.name in site.backed
    ensures var key := Keyring.ActiveKey(site.ring, PrincipalField(v, "from").value, now);
            key.Usable? && Decodes(w, key.key, v.fields)
    ensures d.envelope == Stripped(v.fields) && d.envelope.Keys !! WrapperSet()
  {
    DeliveredIff(w, site, g, recipient, v, now, d);
    var peeked := Peek(w, v).value;
    PassedGates(g, InputFor(w, site, peeked, now));
    VerifiedMeansDecoded(w, site.ring, peeked.from, v.fields, now);
    StrippedIsBusLegal(v.fields);
  }

  lemma VerifiedMeansDecoded(w: World, ring: Keyring.Ring, from: Principal, o: Object, now: string)
    ensures VerifyInbound(w, ring, from, o, now).None?
            <==> && Keyring.ActiveKey(ring, from, now).Usable?
                 && Decodes(w, Keyring.ActiveKey(ring, from, now).key, o)
  {
  }

  /**
    Revocation reaches deliveries. Once a sender's key is revoked and held by no active entry,
    then after any keyring operations at all, whatever is delivered from that sender was verified
    under another key, the one active now.
   */
  lemma RevokedKeyDeliversNothing(w: World, scheme: Keyring.Scheme, ring: Keyring.Ring, ops: seq<KeyringRuns.Op>,
                                  key: Key, site: Site, g: Guard, recipient: Principal, v: Json, now: string,
                                  d: Delivery)
    requires KeyringRuns.IsSound(ring) && site.ring == KeyringRuns.RingAfter(scheme, ring, ops)
    requires PrincipalField(v, "from").Ok?
    requires var es := Keyring.EntriesOf(ring, PrincipalField(v, "from").value);
             Keyring.HoldsIn(es, key, Keyring.Revoked) && !Keyring.HoldsIn(es, key, Keyring.Active)
    requires Ingest(w, site, g, recipient, v, now).result == Ok(d)
    ensures var active := Keyring.ActiveKey(site.ring, PrincipalField(v, "from").value, now);
            active.Usable? && active.key != key && v.Obj? && Decodes(w, active.key, v.fields)
  {
    DeliveryIsAuthentic(w, site, g, recipient, v, now, d);
    KeyringRuns.RevokedKeyIsNeverUsable(scheme, ring, ops, PrincipalField(v, "from").value, key, now);
  }

  lemma SignedDecodes(w: World, o: Object, st: Stamp)
    requires SignaturesComplete(w) && SIGNATURE !in o && w.canSign(Wrapped(w, o, st))
    ensures var s := SignedObject(w, o, st);
            Decodes(w, w.publicOf(st.sk), s)
            <==> IsKnownClass(o) && StringField(o, "famp") == Some(FAMP_VERSION) && w.fitsSchema(Wrapped(w, o, st))
  {
    WrapperIsSigned(w, o, st);
    var u := Wrapped(w, o, st);
    assert w.decodesSignature(w.sign(st.sk, u)) && w.verifies(w.publicOf(st.sk), u, w.sign(st.sk, u));
    OtherFieldsAreKept(w, o, st, "class");
    OtherFieldsAreKept(w, o, st, "famp");
  }

  lemma SignedPeeks(w: World, o: Object, st: Stamp, ownDomain: string)
    requires SIGNATURE !in o && RelayCheck(Obj(o), ownDomain) == Ok((st.from, st.to))
    ensures var s := Obj(SignedObject(w, o, st));
            Peek(w, s) == match StringField(o, "ts")
                          case None => None
                          case Some(ts) => Some(Peeked(st.from, st.to, w.parseTime(ts), Some(st.nonce)))
  {
    OtherFieldsAreKept(w, o, st, "from");
    OtherFieldsAreKept(w, o, st, "to");
    OtherFieldsAreKept(w, o, st, "ts");
  }

  lemma SignedFormat(w: World, o: Object, st: Stamp)
    requires SIGNATURE !in o
    ensures IsFormatOk(SignedObject(w, o, st))
            <==> && st.nonce != "" && StringField(o, "ts").Some?
                 && IsCanonicalForm(st.expiry) && IsCanonicalForm(StringField(o, "ts").value)
                 && Text.Less(StringField(o, "ts").value, st.expiry)
  {
  }

  /** What the gates see of a relayed object. */
  function RelayedInput(w: World, site: Site, o: Object, st: Stamp, now: string): GuardInput
    requires StringField(o, "ts").Some?
  {
    InputFor(w, site, Peeked(st.from, st.to, w.parseTime(StringField(o, "ts").value), Some(st.nonce)), now)
  }

  /** What egress can sign and the receiver can decode, read off the drained object. */
  ghost predicate IsWellFormed(w: World, o: Object, st: Stamp) {
    && w.canSign(Wrapped(w, o, st))
    && StringField(o, "ts").Some?
    && IsKnownClass(o) && StringField(o, "famp") == Some(FAMP_VERSION) && w.fitsSchema(Wrapped(w, o, st))
    && IsCanonicalForm(st.expiry) && IsCanonicalForm(StringField(o, "ts").value)
    && Text.Less(StringField(o, "ts").value, st.expiry)
  }

  /** The receiver's side of the bargain, stated over the drained object and the stamp alone. */
  ghost predicate Accepts(w: World, site: Site, g: Guard, o: Object, st: Stamp, now: string) {
    && IsWellFormed(w, o, st)
    && Gates(g, RelayedInput(w, site, o, st, now)).reject.None?
    && st.from.name in site.backedAtDelivery
  }

  /**
    Content transparency across two gateways. An unsigned object that egress relays, received
    where the sender's key is active: it is delivered exactly when the receiver accepts it, and
    the envelope put on the bus is then the drained object itself.
   */
  lemma RelayedIsDeliveredUnchanged(w: World, site: Site, g: Guard, o: Object, st: Stamp, ownDomain: string,
                                    now: string)
    requires SignaturesComplete(w) && w.canSign(Wrapped(w, o, st))
    requires SIGNATURE !in o && RelayCheck(Obj(o), ownDomain) == Ok((st.from, st.to))
    requires Keyring.ActiveKey(site.ring, st.from, now) == Keyring.Usable(w.publicOf(st.sk))
    ensures var r := Ingest(w, site, g, st.to, Obj(SignedObject(w, o, st)), now).result;
            if Accepts(w, site, g, o, st, now) then r == Ok(Delivery(st.from.name, st.to.name, o)) else r.Err?
  {
    SignedPeeks(w, o, st, ownDomain);
    SignedDecodes(w, o, st);
    SignedFormat(w, o, st);
    StripUndoesWrap(w, o, st);
    OtherFieldsAreKept(w, o, st, "to");
    var s := SignedObject(w, o, st);
    if Peek(w, Obj(s)).Some? {
      PassedGates(g, InputFor(w, site, Peek(w, Obj(s)).value, now));
    }
  }

  /** A request past the gates is addressed here, from a backed sender, with a nonce. */
  lemma PassedGates(g: Guard, input: GuardInput)
    ensures Gates(g, input).reject.None? ==>
              && input.peeked.to.authority == input.ownDomain && input.senderIsBacked
              && input.peeked.nonce.Some? && input.peeked.nonce.value != ""
  {
  }

  /**
    Integrity. Whatever object reaches the receiver with the signature egress made, to whatever
    mailbox: if it is delivered under the signer's key, the bus gets the drained object.
   */
  lemma TamperingNeverDelivers(w: World, site: Site, g: Guard, o: Object, st: Stamp, o': Object,
                               recipient: Principal, now: string, d: Delivery)
    requires SignaturesComplete(w) && SignaturesBind(w)
    requires SIGNATURE !in o && !CarriesFederationField(o) && w.canSign(Wrapped(w, o, st))
    requires StringField(o', SIGNATURE) == Some(w.sign(st.sk, Wrapped(w, o, st)))
    requires Ingest(w, site, g, recipient, Obj(o'), now).result == Ok(d)
    requires PrincipalField(Obj(o'), "from").Ok?
    requires Keyring.ActiveKey(site.ring, PrincipalField(Obj(o'), "from").value, now)
             == Keyring.Usable(w.publicOf(st.sk))
    ensures o' == SignedObject(w, o, st) && d.envelope == o
    ensures PrincipalField(Obj(o), "to") == Ok(recipient)
  {
    DeliveryIsAuthentic(w, site, g, recipient, Obj(o'), now, d);
    SignatureFixesObject(w, o, st, o');
    StripUndoesWrap(w, o, st);
    AddressIsKept(w, o, st, "to");
  }

  lemma AddressIsKept(w: World, o: Object, st: Stamp, field: string)
    requires field !in WrapperSet()
    ensures PrincipalField(Obj(SignedObject(w, o, st)), field) == PrincipalField(Obj(o), field)
  {
  }

  lemma SignatureFixesObject(w: World, o: Object, st: Stamp, o': Object)
    requires SignaturesComplete(w) && SignaturesBind(w) && SIGNATURE !in o && w.canSign(Wrapped(w, o, st))
    requires StringField(o', SIGNATURE) == Some(w.sign(st.sk, Wrapped(w, o, st)))
    requires Decodes(w, w.publicOf(st.sk), o')
    ensures o' == SignedObject(w, o, st)
  {
  }

  // ---------------------------------------------------------------- runs of ingress

  /** A request, and the gateway as it stood when it arrived: registry and keyring may change between requests. */
  datatype Request = Request(site: Site, recipient: Principal, value: Json, now: string)

  ghost function IngestOne(w: World, g: Guard, r: Request): Ingested {
    Ingest(w, r.site, g, r.recipient, r.value, r.now)
  }

  ghost function StateAfter(w: World, g: Guard, rs: seq<Request>): Guard
    decreases |rs|
  {
    if rs == [] then g
    else IngestOne(w, StateAfter(w, g, rs[..|rs| - 1]), rs[|rs| - 1]).guard
  }

  /** The gate calls of a run: one per request whose fields can be peeked. */
  function CallsOf(w: World, rs: seq<Request>): seq<GuardInput>
    decreases |rs|
  {
    if rs == [] then []
    else
      var r := rs[|rs| - 1];
      var before := CallsOf(w, rs[..|rs| - 1]);
      match Peek(w, r.value)
      case None => before
      case Some(p) => before + [InputFor(w, r.site, p, r.now)]
  }

  lemma IngestMovesGuard(w: World, g: Guard, r: Request)
    ensures IngestOne(w, g, r).guard == match Peek(w, r.value)
                                              case None => g
                                              case Some(p) => Gates(g, InputFor(w, r.site, p, r.now)).guard
  {
  }

  /** Verification, format and delivery never touch the guard: a run is the run of its gate calls. */
  lemma {:induction false} RunIsGuardRun(w: World, g: Guard, rs: seq<Request>)
    ensures StateAfter(w, g, rs) == GuardAfter(g, CallsOf(w, rs))
    decreases |rs|
  {
    if rs != [] {
      var before, r := rs[..|rs| - 1], rs[|rs| - 1];
      RunIsGuardRun(w, g, before);
      IngestMovesGuard(w, StateAfter(w, g, before), r);
      var calls := CallsOf(w, before);
      if Peek(w, r.value).Some? {
        var c := InputFor(w, r.site, Peek(w, r.value).value, r.now);
        assert (calls + [c])[..|calls|] == calls;
      }
    }
  }

  /** The same object up to the text of its signature. */
  predicate SameContent(a: Json, b: Json) {
    a.Obj? && b.Obj? && a.fields - {SIGNATURE} == b.fields - {SIGNATURE}
  }

  lemma SameContentSameField(a: Object, b: Object, field: string)
    requires a - {SIGNATURE} == b - {SIGNATURE} && field != SIGNATURE
    ensures (field in a <==> field in b) && (field in a ==> a[field] == b[field])
  {
    assert field in a - {SIGNATURE} <==> field in b - {SIGNATURE};
    if field in a { assert (a - {SIGNATURE})[field] == (b - {SIGNATURE})[field]; }
  }

  lemma SameContentSamePeek(w: World, a: Json, b: Json)
    requires SameContent(a, b)
    ensures Peek(w, a) == Peek(w, b)
  {
    forall field <- {"from", "to", "ts", "nonce", "expiry"}
      ensures (field in a.fields <==> field in b.fields) && (field in a.fields ==> a.fields[field] == b.fields[field])
    {
      SameContentSameField(a.fields, b.fields, field);
    }
  }

  /** The gate call behind a delivery. */
  lemma DeliveredCall(w: World, g: Guard, r: Request)
    requires IngestOne(w, g, r).result.Ok?
    ensures Peek(w, r.value).Some?
    ensures var c := InputFor(w, r.site, Peek(w, r.value).value, r.now);
            && Gates(g, c).reject.None? && Precheck(c).None?
            && c.peeked.ts.Some? && IsFresh(c.peeked.ts.value, c.now.value)
            && IngestOne(w, g, r).guard == Gates(g, c).guard
            && IsFormatOk(r.value.fields)
  {
    DeliveredIff(w, r.site, g, r.recipient, r.value, r.now, IngestOne(w, g, r).result.value);
  }

  /**
    At most one delivery, up to the ends of the window. One signed content, whatever its
    timestamp, expiry and signature text, is delivered at two positions of a run, with any
    requests at all in between, each reading a whole-second clock. Then the two are exactly the
    retention apart, or one second more and the timestamp is not a whole second; or a request of
    that sender in between read a clock a whole retention after the first; or other nonces of
    that sender flooded the first out of the cache.
   */
  lemma DeliveredTwiceOnlyAtTheEnds(w: World, g: Guard, first: Request, rs: seq<Request>, again: Request)
    requires SameContent(first.value, again.value)
    requires IngestOne(w, g, first).result.Ok?
    requires IngestOne(w, StateAfter(w, IngestOne(w, g, first).guard, rs), again).result.Ok?
    requires Peek(w, first.value).Some?
    requires Peek(w, first.value).value.nonce.Some? && Peek(w, first.value).value.ts.Some?
    requires w.parseTime(first.now).Some? && w.parseTime(again.now).Some?
    requires IsWholeSecond(w.parseTime(first.now).value) && IsWholeSecond(w.parseTime(again.now).value)
    requires |Held(g.cache, Peek(w, first.value).value.from.name)| <= CAPACITY
    ensures var peeked := Peek(w, first.value).value;
            var t, later := w.parseTime(first.now).value, w.parseTime(again.now).value;
            || later - t == RETENTION
            || (!IsWholeSecond(peeked.ts.value) && later - t == RETENTION + NANOS)
            || !NoneOutlives(SightingsOf(peeked.from.name, CallsOf(w, rs)), t)
            || Flooded(Held(IngestOne(w, g, first).guard.cache, peeked.from.name),
                       SightingsOf(peeked.from.name, CallsOf(w, rs)), peeked.nonce.value, t)
  {
    var peeked := Peek(w, first.value).value;
    var t, later := w.parseTime(first.now).value, w.parseTime(again.now).value;
    var g1 := IngestOne(w, g, first).guard;
    DeliveredCall(w, g, first);
    RunIsGuardRun(w, g1, rs);
    DeliveredCall(w, StateAfter(w, g1, rs), again);
    SameContentSamePeek(w, first.value, again.value);
    RepeatIsCaught(g, InputFor(w, first.site, peeked, first.now), CallsOf(w, rs),
                   InputFor(w, again.site, peeked, again.now), peeked.nonce.value);
    if later - t >= RETENTION { ApartExactly(peeked.ts.value, t, later); }
  }

  /** A well-formed relayed object past the gates is delivered, and only the gates move the guard. */
  lemma PastGatesIsDelivered(w: World, site: Site, g: Guard, o: Object, st: Stamp, ownDomain: string, now: string)
    requires SignaturesComplete(w) && IsWellFormed(w, o, st) && st.from.name in site.backedAtDelivery
    requires SIGNATURE !in o && RelayCheck(Obj(o), ownDomain) == Ok((st.from, st.to))
    requires Keyring.ActiveKey(site.ring, st.from, now) == Keyring.Usable(w.publicOf(st.sk))
    ensures var gates := Gates(g, RelayedInput(w, site, o, st, now));
            gates.reject.None? ==> Ingest(w, site, g, st.to, Obj(SignedObject(w, o, st)), now)
                                   == Ingested(gates.guard, Ok(Delivery(st.from.name, st.to.name, o)))
  {
    RelayedIsDeliveredUnchanged(w, site, g, o, st, ownDomain, now);
    SignedPeeks(w, o, st, ownDomain);
    IngestMovesGuard(w, g, Request(site, st.to, Obj(SignedObject(w, o, st)), now));
  }

  /**
    The exceptions are reachable, for any JSON value at all: one that is admissible at two fresh
    clock readings at least the retention apart is delivered at the first by a new guard and,
    replayed, delivered again at the second.
   */
  lemma ApartDelivers(w: World, site: Site, recipient: Principal, v: Json, early: string, late: string)
    requires Peek(w, v).Some? && w.parseTime(early).Some? && w.parseTime(late).Some?
    requires Precheck(InputFor(w, site, Peek(w, v).value, early)).None?
    requires Precheck(InputFor(w, site, Peek(w, v).value, late)).None?
    requires Admissible(w, site, Peek(w, v).value.from, recipient, v.fields, early)
    requires Admissible(w, site, Peek(w, v).value.from, recipient, v.fields, late)
    requires w.parseTime(late).value - w.parseTime(early).value >= RETENTION
    ensures var d := Delivery(Peek(w, v).value.from.name, recipient.name, Stripped(v.fields));
            var first := Ingest(w, site, NEW_GUARD, recipient, v, early);
            first.result == Ok(d) && Ingest(w, site, first.guard, recipient, v, late).result == Ok(d)
  {
    var input := InputFor(w, site, Peek(w, v).value, early);
    var d := Delivery(Peek(w, v).value.from.name, recipient.name, Stripped(v.fields));
    AcceptedApart(input, w.parseTime(early).value, w.parseTime(late).value);
    DeliveredIff(w, site, NEW_GUARD, recipient, v, early, d);
    IngestMovesGuard(w, NEW_GUARD, Request(site, recipient, v, early));
    DeliveredIff(w, site, Gates(NEW_GUARD, input).guard, recipient, v, late, d);
  }

  /**
    In particular an object as egress relays it, where the sender's key is active: delivered, and
    delivered again once the retention has passed, while its timestamp is still fresh.
   */
  lemma RelayedDeliversApart(w: World, site: Site, o: Object, st: Stamp, ownDomain: string, early: string, late: string)
    requires SignaturesComplete(w) && IsWellFormed(w, o, st) && st.from.name in site.backed * site.backedAtDelivery
    requires SIGNATURE !in o && RelayCheck(Obj(o), ownDomain) == Ok((st.from, st.to))
    requires Keyring.ActiveKey(site.ring, st.from, early) == Keyring.Usable(w.publicOf(st.sk))
    requires Keyring.ActiveKey(site.ring, st.from, late) == Keyring.Usable(w.publicOf(st.sk))
    requires st.to.authority == site.ownDomain && st.nonce != ""
    requires AreFreshApart(w, StringField(o, "ts").value, early, late)
    ensures var wire, d := Obj(SignedObject(w, o, st)), Delivery(st.from.name, st.to.name, o);
            var first := Ingest(w, site, NEW_GUARD, st.to, wire, early);
            first.result == Ok(d) && Ingest(w, site, first.guard, st.to, wire, late).result == Ok(d)
  {
    ApartPassesGates(w, site, o, st, early, late);
    PastGatesIsDelivered(w, site, NEW_GUARD, o, st, ownDomain, early);
    PastGatesIsDelivered(w, site, Gates(NEW_GUARD, RelayedInput(w, site, o, st, early)).guard, o, st, ownDomain, late);
  }

  /** Two clock readings, at least the retention apart, at which a timestamp is fresh. */
  ghost predicate AreFreshApart(w: World, ts: string, early: string, late: string) {
    && w.parseTime(ts).Some? && w.parseTime(early).Some? && w.parseTime(late).Some?
    && IsFresh(w.parseTime(ts).value, w.parseTime(early).value)
    && IsFresh(w.parseTime(ts).value, w.parseTime(late).value)
    && w.parseTime(late).value - w.parseTime(early).value >= RETENTION
  }

  lemma ApartPassesGates(w: World, site: Site, o: Object, st: Stamp, early: string, late: string)
    requires StringField(o, "ts").Some? && st.from.name in site.backed
    requires st.to.authority == site.ownDomain && st.nonce != ""
    requires AreFreshApart(w, StringField(o, "ts").value, early, late)
    ensures var first := Gates(NEW_GUARD, RelayedInput(w, site, o, st, early));
            first.reject.None? && Gates(first.guard, RelayedInput(w, site, o, st, late)).reject.None?
  {
    AcceptedApart(RelayedInput(w, site, o, st, early), w.parseTime(early).value, w.parseTime(late).value);
  }

  /** Such readings exist exactly as `DeliveredTwiceOnlyAtTheEnds` leaves room for: at both ends of the window. */
  lemma EndsAreFreshApart(w: World, ts: string, early: string, late: string)
    requires w.parseTime(ts).Some?
    requires var t := w.parseTime(ts).value;
             && w.parseTime(early) == Some(FloorToSecond(t) - CLOCK_SKEW_SECS * NANOS)
             && var extra := if IsWholeSecond(t) then 0 else 1;
                w.parseTime(late) == Some(FloorToSecond(t) + (CLOCK_SKEW_SECS + extra) * NANOS)
    ensures AreFreshApart(w, ts, early, late)
  {
  }
}
