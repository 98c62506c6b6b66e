/** What the two ends of the relay answer: which fault each refusal names, and that no other comes first. */
module FederationVerdicts {
  import opened Results
  import opened Clock
  import opened Crypto
  import opened Identity
  import opened IngressGuard
  import opened Federation
  import GuardRuns
  import Keyring
  import Text

  // ---------------------------------------------------------------- fields

  ghost predicate IsText(v: Json, field: string) {
    exists o, s :: v == Obj(o) && field in o && o[field] == Str(s)
  }

  /** The field is text and the text names `p`. */
  ghost predicate Names(v: Json, field: string, p: Principal) {
    exists o :: v == Obj(o) && field in o && o[field] == Str(PrintPrincipal(p)) && IsPrincipal(p)
  }

  ghost predicate NamesOne(v: Json, field: string) {
    exists p :: Names(v, field, p)
  }

  /** A field is read as a principal exactly when its text is that principal's; a refusal says which half failed. */
  lemma FieldTells(v: Json, field: string)
    ensures forall p :: PrincipalField(v, field) == Ok(p) <==> Names(v, field, p)
    ensures PrincipalField(v, field).Ok? <==> NamesOne(v, field)
    ensures PrincipalField(v, field) == Err(MissingField) <==> !IsText(v, field)
    ensures PrincipalField(v, field) == Err(BadPrincipal) <==> IsText(v, field) && !NamesOne(v, field)
  {
    var r := PrincipalField(v, field);
    if r.Ok? {
      ParsedPrincipalReprints(v.fields[field].s);
      assert Names(v, field, r.value);
    }
    forall p | Names(v, field, p) ensures r == Ok(p) {
      PrintedPrincipalParses(p);
    }
    if v.Obj? && field in v.fields && v.fields[field].Str? {
      assert v == Obj(v.fields) && v.fields[field] == Str(v.fields[field].s);
      assert IsText(v, field);
    }
  }

  // ---------------------------------------------------------------- egress

  /**
    The checks before signing: addresses first, `from` before `to`, then the domain, then the seven
    fields only a gateway may write. Each refusal is given exactly when its own fault is the first.
   */
  lemma CheckTells(v: Json, ownDomain: string)
    ensures var r := RelayCheck(v, ownDomain);
            var addressed := NamesOne(v, "from") && NamesOne(v, "to");
            var forged := v.Obj? && exists f <- ["from_domain", "to_domain", "sender_key_id", "nonce", "expiry",
                                                 "capability", "approval"] :: f in v.fields;
            && (r == Err(MissingField) <==> !IsText(v, "from") || (NamesOne(v, "from") && !IsText(v, "to")))
            && (r == Err(BadPrincipal) <==> || (IsText(v, "from") && !NamesOne(v, "from"))
                                            || (NamesOne(v, "from") && IsText(v, "to") && !NamesOne(v, "to")))
            && (r == Err(FromDomainMismatch)
                <==> addressed && forall p | Names(v, "from", p) :: p.authority != ownDomain)
            && (r == Err(ClientSuppliedFederationField)
                <==> addressed && forged && exists p | Names(v, "from", p) :: p.authority == ownDomain)
            && (forall from, to ::
                  r == Ok((from, to))
                  <==> Names(v, "from", from) && Names(v, "to", to) && from.authority == ownDomain && !forged)
  {
    FieldTells(v, "from");
    FieldTells(v, "to");
    if v.Obj? { ForgedIff(v.fields); }
  }

  lemma ForgedIff(o: Object)
    ensures CarriesFederationField(o)
            <==> exists f <- ["from_domain", "to_domain", "sender_key_id", "nonce", "expiry", "capability",
                              "approval"] :: f in o
  {
    var names := ["from_domain", "to_domain", "sender_key_id", "nonce", "expiry", "capability", "approval"];
    assert names[0] == "from_domain" && names[1] == "to_domain" && names[2] == "sender_key_id" && names[3] == "nonce"
        && names[4] == "expiry" && names[5] == "capability" && names[6] == "approval";
    forall f ensures f in FederationSet() <==> f in names {}
  }

  /** Signing fails on no object that is signed already; the other refusals name what was wanting. */
  lemma SigningTells(w: World, v: Json, from: Principal, to: Principal, sk: SecretKey, vk: Key, nonce: string,
                     expiry: Option<string>)
    ensures var s := Signing(w, v, from, to, sk, vk, nonce, expiry);
            && (s.1 == Err(NotAnObject) <==> !v.Obj?)
            && (s.1 == Err(ExpiryFormat) <==> v.Obj? && "signature" !in v.fields && expiry.None?)
            && (s.1.Err? && s.1.error != SignFailed ==> s.0 == v)
            && (v.Obj? && "signature" in v.fields ==> s == (v, Ok(())))
            && (s.1 == Err(SignFailed) ==> s.0.Obj? && "signature" !in s.0.fields && !w.canSign(s.0.fields))
            && (s.1.Err? ==> s.1.error in {NotAnObject, ExpiryFormat, SignFailed})
  {
  }

  // ---------------------------------------------------------------- ingress

  /** A shape the peek takes: two addresses and a timestamp as text, and no nonce or expiry that is not. */
  ghost predicate IsWellShaped(v: Json) {
    && v.Obj? && NamesOne(v, "from") && NamesOne(v, "to") && IsText(v, "ts")
    && ("nonce" in v.fields ==> IsText(v, "nonce")) && ("expiry" in v.fields ==> IsText(v, "expiry"))
  }

  lemma TextIff(v: Json, field: string)
    ensures IsText(v, field) <==> v.Obj? && StringField(v.fields, field).Some?
    ensures v.Obj? ==> (IsOddlyTyped(v.fields, field) <==> field in v.fields && !IsText(v, field))
  {
    if v.Obj? && StringField(v.fields, field).Some? {
      assert v == Obj(v.fields) && v.fields[field] == Str(v.fields[field].s);
    }
  }

  lemma PeeksIff(w: World, v: Json)
    ensures Peek(w, v).Some? <==> IsWellShaped(v)
  {
    FieldTells(v, "from");
    FieldTells(v, "to");
    TextIff(v, "ts");
    TextIff(v, "nonce");
    TextIff(v, "expiry");
  }

  /** Digits aside, the text is laid out as a canonical second. */
  predicate IsLaidOut(s: string) {
    var pattern := "0000-00-00T00:00:00Z";
    |s| == |pattern| && forall i :: 0 <= i < |s| && pattern[i] != '0' ==> s[i] == pattern[i]
  }

  lemma LayoutIsForm(s: string)
    ensures IsLaidOut(s) <==> IsCanonicalForm(s)
  {
    var pattern := "0000-00-00T00:00:00Z";
    assert pattern[4] == '-' && pattern[7] == '-' && pattern[10] == 'T' && pattern[13] == ':' && pattern[16] == ':'
        && pattern[19] == 'Z';
    assert forall i :: 0 <= i < 20 && i !in {4, 7, 10, 13, 16, 19} ==> pattern[i] == '0';
  }

  /** What the decoder asks of an object, field by field. */
  predicate IsGenuine(w: World, vk: Key, o: Object) {
    var class_, sig := StringField(o, "class"), StringField(o, "signature");
    && class_.Some? && class_.value in ["request", "commit", "deliver", "ack", "control", "audit_log"]
    && sig.Some? && w.decodesSignature(sig.value) && w.verifies(vk, o - {"signature"}, sig.value)
    && StringField(o, "famp") == Some("0.5.2") && w.fitsSchema(o - {"signature"})
  }

  lemma GenuineIff(w: World, vk: Key, o: Object)
    ensures IsGenuine(w, vk, o) <==> Decodes(w, vk, o)
  {
  }

  /** What each refusal of a well-shaped envelope says of it, whatever else is wrong with it. */
  ghost predicate HasFault(w: World, site: Site, g: Guard, recipient: Principal, v: Json, now: string,
                           why: IngressError)
    requires Peek(w, v).Some? && v.Obj?
  {
    var peeked := Peek(w, v).value;
    var found := Keyring.ActiveKey(site.ring, peeked.from, now);
    var nonce, expiry := StringField(v.fields, "nonce"), StringField(v.fields, "expiry");
    var ts := StringField(v.fields, "ts");
    match why
    case GuardRejected(r) => GuardRuns.HasFault(g, InputFor(w, site, peeked, now), r)
    case ExpiredKey => found.Expired?
    case RevokedKey => found.RevokedAt?
    case UnpinnedKey => found.Unpinned? || found.RetiredAt? || found.NonCanonicalNow?
    case InvalidSignature => found.Usable? && !IsGenuine(w, found.key, v.fields)
    case MisaddressedRecipient => !Names(v, "to", recipient)
    case MalformedFederationFields =>
      || nonce == Some("")
      || (expiry.Some? && !(ts.Some? && IsLaidOut(expiry.value) && IsLaidOut(ts.value)
                            && Text.Less(ts.value, expiry.value)))
    case SenderGone => peeked.from.name !in site.backedAtDelivery
    case Internal => false
  }

  /** The order of the checks; no two key faults can meet. */
  function Rank(why: IngressError): nat {
    match why
    case GuardRejected(r) => GuardRuns.Rank(r)
    case UnpinnedKey => 8
    case ExpiredKey => 8
    case RevokedKey => 8
    case InvalidSignature => 8
    case MisaddressedRecipient => 9
    case MalformedFederationFields => 10
    case SenderGone => 11
    case Internal => 12
  }

  /** The answer names a fault the envelope has, and none it has is checked earlier. */
  ghost predicate TellsFirstFault(w: World, site: Site, g: Guard, recipient: Principal, v: Json, now: string,
                                  r: Result<Delivery, IngressError>)
    requires Peek(w, v).Some? && v.Obj?
  {
    && (r.Ok? <==> forall e :: !HasFault(w, site, g, recipient, v, now, e))
    && (r.Err? ==>
          && HasFault(w, site, g, recipient, v, now, r.error)
          && forall e | HasFault(w, site, g, recipient, v, now, e) :: Rank(r.error) <= Rank(e))
  }

  /** The faults that are left once the gates are passed. */
  ghost predicate IsLeft(w: World, site: Site, recipient: Principal, v: Json, now: string, e: IngressError)
    requires v.Obj? && Peek(w, v).Some?
  {
    var peeked := Peek(w, v).value;
    || VerifyInbound(w, site.ring, peeked.from, v.fields, now) == Some(e)
    || (e == MisaddressedRecipient && peeked.to != recipient)
    || (e == MalformedFederationFields && !IsFormatOk(v.fields))
    || (e == SenderGone && peeked.from.name !in site.backedAtDelivery)
  }

  lemma FaultIsLeft(w: World, site: Site, g: Guard, recipient: Principal, v: Json, now: string, e: IngressError)
    requires v.Obj? && Peek(w, v).Some? && Gates(g, InputFor(w, site, Peek(w, v).value, now)).reject.None?
    ensures HasFault(w, site, g, recipient, v, now, e) <==> IsLeft(w, site, recipient, v, now, e)
  {
    FailureIsOfKey(w, site.ring, Peek(w, v).value.from, v.fields, now);
    match e
    case GuardRejected(r) => GuardRuns.FirstFaultIsReported(g, InputFor(w, site, Peek(w, v).value, now));
    case MisaddressedRecipient => FieldTells(v, "to");
    case MalformedFederationFields => FormatTells(w, site, g, recipient, v, now);
    case SenderGone =>
    case Internal =>
    case _ => KeyTells(w, site, g, recipient, v, now, e);
  }

  lemma FirstLeftIsReported(w: World, site: Site, g: Guard, recipient: Principal, v: Json, now: string)
    requires v.Obj? && Peek(w, v).Some? && Gates(g, InputFor(w, site, Peek(w, v).value, now)).reject.None?
    ensures var r := Ingest(w, site, g, recipient, v, now).result;
            && (r.Ok? <==> forall e :: !IsLeft(w, site, recipient, v, now, e))
            && (r.Err? ==> IsLeft(w, site, recipient, v, now, r.error)
                           && forall e | IsLeft(w, site, recipient, v, now, e) :: Rank(r.error) <= Rank(e))
  {
    FailureIsOfKey(w, site.ring, Peek(w, v).value.from, v.fields, now);
    var r := Ingest(w, site, g, recipient, v, now).result;
    if r.Err? { assert IsLeft(w, site, recipient, v, now, r.error); }
  }

  lemma PastGates(w: World, site: Site, g: Guard, recipient: Principal, v: Json, now: string)
    requires v.Obj? && Peek(w, v).Some? && Gates(g, InputFor(w, site, Peek(w, v).value, now)).reject.None?
    ensures TellsFirstFault(w, site, g, recipient, v, now, Ingest(w, site, g, recipient, v, now).result)
  {
    FirstLeftIsReported(w, site, g, recipient, v, now);
    forall e ensures HasFault(w, site, g, recipient, v, now, e) <==> IsLeft(w, site, recipient, v, now, e) {
      FaultIsLeft(w, site, g, recipient, v, now, e);
    }
  }

  lemma FormatTells(w: World, site: Site, g: Guard, recipient: Principal, v: Json, now: string)
    requires v.Obj? && Peek(w, v).Some?
    ensures HasFault(w, site, g, recipient, v, now, MalformedFederationFields) <==> !IsFormatOk(v.fields)
  {
    var expiry, ts := StringField(v.fields, "expiry"), StringField(v.fields, "ts");
    if expiry.Some? { LayoutIsForm(expiry.value); }
    if ts.Some? { LayoutIsForm(ts.value); }
  }

  predicate IsKeyFault(e: IngressError) {
    e.UnpinnedKey? || e.ExpiredKey? || e.RevokedKey? || e.InvalidSignature?
  }

  lemma FailureIsOfKey(w: World, ring: Keyring.Ring, from: Principal, o: Object, now: string)
    ensures var failure := VerifyInbound(w, ring, from, o, now);
            failure.Some? ==> IsKeyFault(failure.value)
  {
  }

  /** Verification fails with the one key fault there is. */
  lemma KeyTells(w: World, site: Site, g: Guard, recipient: Principal, v: Json, now: string, e: IngressError)
    requires v.Obj? && Peek(w, v).Some? && IsKeyFault(e)
    ensures HasFault(w, site, g, recipient, v, now, e)
            <==> VerifyInbound(w, site.ring, Peek(w, v).value.from, v.fields, now) == Some(e)
  {
    var found := Keyring.ActiveKey(site.ring, Peek(w, v).value.from, now);
    if found.Usable? { GenuineIff(w, found.key, v.fields); }
  }

  /**
    An envelope of the wrong shape is refused for that and moves nothing. Any other is answered with
    the first fault it has, in the order gates, key and signature, recipient, federation fields,
    sender; it is delivered exactly when it has none.
   */
  lemma FirstFaultIsReported(w: World, site: Site, g: Guard, recipient: Principal, v: Json, now: string)
    ensures var ingested := Ingest(w, site, g, recipient, v, now);
            && (!IsWellShaped(v) ==> ingested == Ingested(g, Err(GuardRejected(BadEnvelopeShape))))
            && (IsWellShaped(v) ==>
                  && Peek(w, v).Some?
                  && TellsFirstFault(w, site, g, recipient, v, now, ingested.result))
  {
    PeeksIff(w, v);
    if IsWellShaped(v) {
      var input := InputFor(w, site, Peek(w, v).value, now);
      GuardRuns.FirstFaultIsReported(g, input);
      if Gates(g, input).reject.None? {
        PastGates(w, site, g, recipient, v, now);
      } else {
        AtGates(w, site, g, recipient, v, now);
      }
    }
  }

  lemma AtGates(w: World, site: Site, g: Guard, recipient: Principal, v: Json, now: string)
    requires v.Obj? && Peek(w, v).Some? && Gates(g, InputFor(w, site, Peek(w, v).value, now)).reject.Some?
    ensures TellsFirstFault(w, site, g, recipient, v, now, Ingest(w, site, g, recipient, v, now).result)
  {
    var input := InputFor(w, site, Peek(w, v).value, now);
    GuardRuns.FirstFaultIsReported(g, input);
    var why := GuardRejected(Gates(g, input).reject.value);
    assert HasFault(w, site, g, recipient, v, now, why);
    forall e | HasFault(w, site, g, recipient, v, now, e) ensures Rank(why) <= Rank(e) {
      if e.GuardRejected? { assert GuardRuns.HasFault(g, input, e.why); }
    }
  }
}
