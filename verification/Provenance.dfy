/**
  Where deliveries come from. A trace interleaves what egress gateways relay with what arrives at
  an ingress, and the signature scheme is ideal for the honest keys: under one of them, only what
  was signed earlier in the trace verifies.
 */
module Provenance {
  import opened Results
  import opened Identity
  import opened IngressGuard
  import opened Federation
  import opened FederationRuns
  import Keyring

  /** An egress relaying a drained object from its own domain, or a request reaching ingress. */
  datatype Event = Relayed(o: Object, st: Stamp, ownDomain: string) | Arrived(request: Request)

  type Trace = seq<Event>

  /** This egress event signs `u` with `sk`: the object passed its checks and was not signed before. */
  predicate Signs(w: World, e: Event, sk: SecretKey, u: Object) {
    && e.Relayed? && SIGNATURE !in e.o && e.st.sk == sk && w.canSign(u)
    && RelayCheck(Obj(e.o), e.ownDomain) == Ok((e.st.from, e.st.to))
    && Wrapped(w, e.o, e.st) == u
  }

  /** This arrival carries content that verifies under `sk`'s public key. */
  predicate Verifies(w: World, e: Event, sk: SecretKey) {
    && e.Arrived? && e.request.value.Obj?
    && StringField(e.request.value.fields, SIGNATURE).Some?
    && w.verifies(w.publicOf(sk), e.request.value.fields - {SIGNATURE},
                  StringField(e.request.value.fields, SIGNATURE).value)
  }

  ghost predicate Unforgeable(w: World, trace: Trace, honest: set<SecretKey>) {
    forall k, sk :: 0 <= k < |trace| && sk in honest && Verifies(w, trace[k], sk) ==>
                      exists j :: 0 <= j < k && Signs(w, trace[j], sk, trace[k].request.value.fields - {SIGNATURE})
  }

  /** The delivery `d` to `recipient` is the object this egress event relayed, to where it was addressed. */
  predicate IsRelayOf(e: Event, recipient: Principal, d: Delivery) {
    && e.Relayed? && SIGNATURE !in e.o
    && RelayCheck(Obj(e.o), e.ownDomain) == Ok((e.st.from, e.st.to))
    && e.st.to == recipient
    && d == Delivery(e.st.from.name, e.st.to.name, e.o)
  }

  lemma ContentFixesFields(w: World, o: Object, st: Stamp, o': Object)
    requires SIGNATURE !in o && !CarriesFederationField(o) && o' - {SIGNATURE} == Wrapped(w, o, st)
    ensures Stripped(o') == o
    ensures forall k :: k !in WrapperSet() ==> (k in o' <==> k in o) && (k in o ==> o'[k] == o[k])
  {
    forall k | k !in WrapperSet() ensures (k in o' <==> k in o) && (k in o ==> o'[k] == o[k]) {
      assert k in o' <==> k in o' - {SIGNATURE};
      if k in o' { assert o'[k] == (o' - {SIGNATURE})[k]; }
    }
    forall k | k in o ensures k !in WrapperSet() {
      assert k in FederationSet() ==> CarriesFederationField(o);
    }
  }

  lemma SameFieldSamePrincipal(a: Object, b: Object, field: string)
    requires (field in a <==> field in b) && (field in a ==> a[field] == b[field])
    ensures PrincipalField(Obj(a), field) == PrincipalField(Obj(b), field)
  {
  }

  lemma CheckedAddresses(v: Json, ownDomain: string, from: Principal, to: Principal)
    requires RelayCheck(v, ownDomain) == Ok((from, to))
    ensures PrincipalField(v, "from") == Ok(from) && PrincipalField(v, "to") == Ok(to) && from.authority == ownDomain
    ensures v.Obj? && !CarriesFederationField(v.fields)
  {
  }

  /** Content that an egress event signed has its addresses and strips to its object. */
  lemma SignedContent(w: World, e: Event, sk: SecretKey, o: Object)
    requires Signs(w, e, sk, o - {SIGNATURE})
    ensures PrincipalField(Obj(o), "from") == Ok(e.st.from) && PrincipalField(Obj(o), "to") == Ok(e.st.to)
    ensures Stripped(o) == e.o
  {
    CheckedAddresses(Obj(e.o), e.ownDomain, e.st.from, e.st.to);
    ContentFixesFields(w, e.o, e.st, o);
    SameFieldSamePrincipal(o, e.o, "from");
    SameFieldSamePrincipal(o, e.o, "to");
  }

  lemma SignedDelivery(w: World, e: Event, sk: SecretKey, r: Request, g: Guard, d: Delivery)
    requires IngestOne(w, g, r).result == Ok(d) && r.value.Obj?
    requires Signs(w, e, sk, r.value.fields - {SIGNATURE})
    ensures IsRelayOf(e, r.recipient, d)
  {
    SignedContent(w, e, sk, r.value.fields);
    DeliveredIff(w, r.site, g, r.recipient, r.value, r.now, d);
    assert Peek(w, r.value).value.from == e.st.from;
  }

  /**
    Every delivery was relayed. Whatever is interleaved, altered, replayed or misdirected, and
    whatever the guard's state: an arrival that is delivered, from a sender whose key active now
    belongs to an honest gateway, puts on the bus exactly an object some egress relayed earlier in
    the trace, from its own domain, to the very mailbox it was addressed to.
   */
  lemma EveryDeliveryWasRelayed(w: World, trace: Trace, honest: set<SecretKey>, k: nat, sk: SecretKey, g: Guard,
                                d: Delivery)
    requires Unforgeable(w, trace, honest) && k < |trace| && trace[k].Arrived? && sk in honest
    requires var r := trace[k].request;
             && IngestOne(w, g, r).result == Ok(d) && PrincipalField(r.value, "from").Ok?
             && Keyring.ActiveKey(r.site.ring, PrincipalField(r.value, "from").value, r.now)
                == Keyring.Usable(w.publicOf(sk))
    ensures exists j :: 0 <= j < k && IsRelayOf(trace[j], trace[k].request.recipient, d)
  {
    var r := trace[k].request;
    DeliveryIsAuthentic(w, r.site, g, r.recipient, r.value, r.now, d);
    assert Verifies(w, trace[k], sk);
    var j :| 0 <= j < k && Signs(w, trace[j], sk, r.value.fields - {SIGNATURE});
    SignedDelivery(w, trace[j], sk, r, g, d);
  }

  /** Content that an egress event signed names its own domains. */
  lemma SignedNamesDomains(w: World, e: Event, sk: SecretKey, o: Object)
    requires Signs(w, e, sk, o - {SIGNATURE})
    ensures StringField(o, "from_domain") == Some(e.st.from.authority)
    ensures StringField(o, "to_domain") == Some(e.st.to.authority)
  {
    var wire := SignedObject(w, e.o, e.st);
    WireNamesItsDomains(w, e.o, e.st, e.ownDomain);
    SignedContent(w, e, sk, o);
    CheckedAddresses(Obj(e.o), e.ownDomain, e.st.from, e.st.to);
    AddressIsKept(w, e.o, e.st, "from");
    AddressIsKept(w, e.o, e.st, "to");
    WrapperIsSigned(w, e.o, e.st);
    SameContentSameField(o, wire, "from_domain");
    SameContentSameField(o, wire, "to_domain");
  }

  /**
    The domains a delivered envelope arrived under are the right ones: its `to_domain` is this
    gateway's own, and its `from_domain` is the authority of its sender.
   */
  lemma DeliveredUnderItsDomains(w: World, trace: Trace, honest: set<SecretKey>, k: nat, sk: SecretKey, g: Guard,
                                 d: Delivery)
    requires Unforgeable(w, trace, honest) && k < |trace| && trace[k].Arrived? && sk in honest
    requires var r := trace[k].request;
             && IngestOne(w, g, r).result == Ok(d) && PrincipalField(r.value, "from").Ok?
             && Keyring.ActiveKey(r.site.ring, PrincipalField(r.value, "from").value, r.now)
                == Keyring.Usable(w.publicOf(sk))
    ensures var r := trace[k].request;
            && r.value.Obj? && StringField(r.value.fields, "to_domain") == Some(r.site.ownDomain)
            && StringField(r.value.fields, "from_domain") == Some(PrincipalField(r.value, "from").value.authority)
  {
    var r := trace[k].request;
    DeliveryIsAuthentic(w, r.site, g, r.recipient, r.value, r.now, d);
    assert Verifies(w, trace[k], sk);
    var j :| 0 <= j < k && Signs(w, trace[j], sk, r.value.fields - {SIGNATURE});
    SignedContent(w, trace[j], sk, r.value.fields);
    SignedNamesDomains(w, trace[j], sk, r.value.fields);
  }
}
