# FAMP in Dafny

A model of the parts of FAMP where a wrong branch would cost safety: the relay's authenticated
fetch, the gateway's pre-verify guard, the cross-host relay of one envelope, the keyring and its
file, the mailbox readers, the broker's drain walk, the bus frame codec, principal names and task
lifecycles.

State that the Rust code changes in place is a class (`FetchAuthState`, `ReplayCache`,
`RateLimiter`, `GuardState`, `KeyringObject`, `Inbox`, `InMemoryMailbox`, `Engine`, `FsmFold`,
`Cell`) whose methods are proved equal to a function of the old state. Loops are loops. The
theorems are lemmas about those functions, over every input, every run or every interleaving.
Nothing is assumed by axiom: signatures, RFC 3339 parsing, JSON parsing, key identifiers and the
typed schema are parameters, and a lemma that needs a law of one of them names it in `requires`.

Instants are integers counting nanoseconds; durations are truncated toward zero to whole seconds
exactly where the code calls `whole_seconds`.

## Main results

- **Relay.** Requests interleave at the handler's two critical sections, with a background sweep,
  and each reads its clock before it waits for a lock. Let them reach the limiter up to 1379
  seconds out of clock order and the nonce cache up to any bound out of it. Over all such runs an
  authorization drains a queue at most once if and only if its timestamp is a whole second and
  that second bound is zero (`RelayRuns.NeverDrainsTwiceIff`). The safety half rests on a payment
  argument: the rate limiter admits so little in one retention period that the capped nonce cache
  never has to evict a live entry. Where a signature fits one form only, the same condition decides
  whether one signature drains at most once, whatever the queue (`RelayAuth.OneSignatureOneDrainIff`);
  what a client mints is accepted if and only if the two clocks are within 300 seconds
  (`RelayAuth.MintedIsAcceptedIff`); and every nonce the relay remembers comes from an accepted
  request (`RelayAuth.EveryNonceWasAccepted`).
- **Gateway guard.** Over every run from a new guard, repeats included and in whatever order clocks
  are read, a presentation is rejected as a replay if and only if the last one taken as new is
  within the retention, nothing of that sender since read a clock a whole retention later, and it
  was not flooded out (`GuardRuns.RepeatIsCaughtIff`). While only newer nonces arrive, flooded
  means exactly that 4096 distinct ones did (`GuardFlood.FloodedIffCrowded`), and in every case at
  least 4095 (`GuardFlood.FloodNeedsCrowd`). With clocks in order, the capped cache refines an
  unbounded log (`GuardRuns.CacheRefinesLog`), and sweeps and other senders never change a verdict
  (`GuardRuns.VerdictIsOwn`).
- **Across two gateways.** What egress signs and ingress delivers is the drained object itself
  (`FederationRuns.RelayedIsDeliveredUnchanged`); over any trace of relays and arrivals, every
  delivery is an object some egress relayed before, at the mailbox it was addressed to
  (`Provenance.EveryDeliveryWasRelayed`); a revoked key that is not also active delivers nothing,
  after any keyring operations (`FederationRuns.RevokedKeyDeliversNothing`); and at any two
  positions of a run of ingress, one content, whatever its timestamp, is delivered twice only at
  the ends of its window, after a clock read out of order, or after a flood
  (`FederationRuns.DeliveredTwiceOnlyAtTheEnds`). The ends and the flood are real
  (`FederationRuns.ApartDelivers`, `FederationFlood.FloodRedelivers`).
- **Keyring.** Soundness and permanence of revocation over all operation sequences; trust on first
  use over all of them, the pinned key changing only by a confirmed rotation or its revocation
  (`KeyringRuns.ActiveKeyChangesIff`, `KeyringRuns.PinnedKeyStays`); a revoked key
  is never active again, whatever follows, if and only if no entry held it active to begin with
  (`KeyringRuns.RevokedStaysInactiveIff`), and after a revocation if and only if that did not mark
  a mere copy (`KeyringRuns.RevocationIsFinalIff`); the file saved from any keyring operations can
  reach loads again if and only if no key is held twice (`KeyringRoundTrip.ReachableLoadsIff`).
- **Readers.** The cursor reader and the mailbox drain return the same records for every file and
  every cursor. Under any mix of appends, truncations and broker walks with any filters and caps,
  every line was passed, lost or is still due, the lost ones are named, and an owner has been given
  exactly what the passed lines hold for it, in order and each once
  (`DrainWalk.EveryLineIsAccountedFor`).

- **Answers.** Relay, guard, ingress, keyring and principal parser each report a fault the input has
  and, of all it has, the first in the order of the checks, and accept exactly what has none. The
  faults are stated on the input alone, one predicate per component (`RelayAuth.FirstFaultIsReported`,
  `GuardRuns.FirstFaultIsReported`, `FederationVerdicts.FirstFaultIsReported`,
  `KeyringVerdicts.FirstFaultIsReported`, `Identity.FirstFaultIsReported`).

## Where the code and its text part

Each has the exact condition under which the code does what its text says, and a failing family.

- The relay floors its own clock but not the client's timestamp, so an authorization with a
  sub-second timestamp is fresh one second longer than its nonce is kept. The code in
  `fetch_auth.rs` bounds retention by twice the freshness window; that is enough for whole
  seconds only.
- The relay reads its clock before it waits for the cache lock. A sweep that read it one nanosecond
  later and gets the lock first lets every whole-second authorization drain twice, at the two ends
  of its window (`RelayRuns.OvertakenFetchDrainsAgain`).
- The gateway keeps a nonce while its age is strictly below 600 seconds and accepts timestamps up
  to and including 300 seconds either way, so one envelope passes at both ends of its window
  (`GuardRuns.AcceptedAtBothEnds`). A timestamp that parses to no whole second, with a fraction and
  no expiry or as a leap second, is fresh for 601 seconds and passes that far apart
  (`GuardRuns.SubSecondAcceptedApart`).
- The gateway's bound on its replay cache counts nonces at the admitted rate, but a nonce is
  recorded before the rate limiter is asked, so refused requests occupy the cache too. 4096 of
  them, all but 119 refused, let an envelope in again after 60 seconds (`GuardFlood.FloodReadmits`),
  and it is delivered again (`FederationFlood.FloodRedelivers`).
- `read_all` is described as skipping a partial last line; it keeps one that parses
  (`JsonlAgreement.ReadersAgreeIff`, `JsonlAgreement.ParseableTailDivides`).
- A walk heals a cursor that points past a truncated mailbox by moving it to the mailbox's current
  end. Lines appended between the truncation and that walk are all returned if and only if the
  cursor was at the start (`DrainWalk.RegrownIsSeenIff`).
- `revoke` marks the first entry with the key identifier. After rotating away from a key and back
  that is the old retired entry, and the key stays active
  (`KeyringRuns.RevokeTakesEffectIff`, `KeyringRuns.RotateBackSurvivesRevocation`).
- The running keyring lets one key be pinned for two principals; the loader refuses such a file
  (`KeyringRoundTrip.LoadableIffDistinct`, `KeyringRoundTrip.SharedKeyIsUnloadable`).

## Model

| member | source | states |
|---|---|---|
| RelayFetch.VerifyFetchAuth | crates/famp-relay/src/fetch_auth.rs:395-454 | Runs the checks in the source order and returns the first that fails; accepts exactly when the request is authentic for the domain and fresh at the floored clock. What it accepts and reports, field by field, is RelayAuth.FirstFaultIsReported, and what the signature must cover RelayAuth.GenuineIsAccepted and RelayAuth.AcceptedIsGenuine. |
| RelayFetch.FetchAuthState.RecordNonce | crates/famp-relay/src/fetch_auth.rs:492-527 | The nonce map becomes the swept, trimmed and extended one, a live nonce is refused, and the buckets stay as they were. |
| RelayFetch.FetchAuthState.Admit | crates/famp-relay/src/fetch_auth.rs:544-554 | The domain's bucket moves as the fixed-window limiter says and nothing else changes. What that comes to is RateLimit.RateBound and RateLimit.RefusedOnlyWhenFull. |
| RelayFetch.FetchAuthState.Sweep | crates/famp-relay/src/fetch_auth.rs:558-565 | Every domain keeps exactly its live nonces and empty domains are dropped. |
| RelayFetch.HandleFetch | crates/famp-relay/src/http.rs:207-292 | An uninterrupted fetch is one Begin step and, if admitted, one Finish step of the interleaved machine. |
| RelayAuth.GenuineIsAccepted | crates/famp-relay/src/fetch_auth.rs:368-454 | Completeness: a configured key's signature over the type tag, this relay's audience, the path's domain, the nonce and the timestamp as presented is accepted while fresh, with headers of at most 512 bytes. |
| RelayAuth.AcceptedIsGenuine | crates/famp-relay/src/fetch_auth.rs:368-454 | Soundness: an accepted request carries a configured key's signature over exactly those five fields, and a fresh timestamp. |
| RelayAuth.FirstFaultIsReported | crates/famp-relay/src/fetch_auth.rs:368-454 | A refused request is told a fault it has, the first in the order the source calls a contract; accepted are exactly the requests that have none. |
| RelayAuth.MintedIsAcceptedIff | crates/famp-relay/src/fetch_auth.rs:340-366 | Round trip from client to relay: what a configured key mints is accepted if and only if the relay's clock, to the second, is within 300 seconds of the client's. |
| RelayAuth.SignatureFixesRequest | crates/famp-relay/src/fetch_auth.rs:166-181 | Two acceptances on one signature are of the same domain, audience, nonce and timestamp. |
| RelayAuth.OneSignatureOneDrainIff | crates/famp-relay/src/fetch_auth.rs:55-85 | Over all timely runs and all queues, no two drains rest on one authentic signature if and only if its timestamp is a whole second and the cache is reached in clock order. |
| RelayAuth.OnlyAcceptedIsRecorded | crates/famp-relay/src/fetch_auth.rs:480-492 | A step that is no sweep changes the nonce cache only for a request that passed every check; any other refusal leaves it as it was. |
| RelayAuth.EveryNonceWasAccepted | crates/famp-relay/src/fetch_auth.rs:480-492 | At every point of every run, each nonce on record was presented by a request that was accepted and drained that domain. |
| RelayAuth.DrainIsAccepted | crates/famp-relay/src/http.rs:232-292 | A queue is drained only for a request that passed every check for that domain. |
| RelayAuth.IncompleteSpendsNothing | crates/famp-relay/src/http.rs:207-245 | A request for an unknown domain or short of a header is told so, the domain first, changes nothing and spends no allowance; no other request is told either. |
| RelayRuns.RunIsPaidFor | crates/famp-relay/src/fetch_auth.rs:456-565 | Along every interleaved run, however late requests reach the limiter, each nonce on record and each request in flight inside a span was paid for by an admission the bucket accounts for. |
| RelayRuns.FewEntriesInSpan | crates/famp-relay/src/fetch_auth.rs:117-153 | At every point of every run with tolerable lateness at the limiter, fewer nonces of one domain than the cap carry instants of one retention period (1440 when in order): the shipped bounds really prevent eviction of a live nonce. |
| RelayRuns.EntrySurvives | crates/famp-relay/src/fetch_auth.rs:492-527 | In whatever order the cache is reached, a recorded nonce stays on record until something brings the cache a clock reading a whole retention later. |
| RelayRuns.DrainedAtMostOnce | crates/famp-relay/src/http.rs:232-292 | When the cache is reached in clock order, no two steps drain a domain on the same nonce and whole-second timestamp. |
| RelayRuns.DrainedAgainOnlyIfOvertaken | crates/famp-relay/src/http.rs:232-292 | Whole-run safety in any order of the cache lock: two drains on one nonce and whole-second timestamp mean that something reached the cache before the second with a clock reading a whole retention past the first, later than the second's own. |
| RelayRuns.OvertakenFetchDrainsAgain | crates/famp-relay/src/main.rs:170-178 | The failing family: every authentic whole-second authorization drains twice in a run where a sweep overtakes the replay by one nanosecond. |
| RelayRuns.ToleranceIs | crates/famp-relay/src/fetch_auth.rs:117-153 | The lateness at the limiter that still leaves room in the cache is exactly 1379 seconds and a nanosecond. |
| RelayRuns.SubSecondOutlivesRetention | crates/famp-relay/src/fetch_auth.rs:395-454 | A sub-second timestamp is fresh at two clocks more than the retention period apart. |
| RelayRuns.NeverDrainsTwiceIff | crates/famp-relay/src/fetch_auth.rs:55-85 | For every tolerable lateness at the limiter and every bound on lateness at the cache: an authentic request can never be used to drain twice, in any such run, if and only if its timestamp is a whole second and the cache is reached in clock order. |
| RateLimit.LimitersAgree | crates/famp-gateway/src/ingress_guard.rs:536-557 | The gateway and the relay limiter, written differently, give the same verdicts and the same bucket on every call sequence. |
| RateLimit.RateBound | crates/famp-relay/src/fetch_auth.rs:529-554 | Whatever the call times, with no call more than a given time overdue, any closed span sees at most 120 admissions per window of its length and that time, plus one window. |
| RateLimit.RefusedOnlyWhenFull | crates/famp-gateway/src/ingress_guard.rs:536-557 | The converse bound, for either limiter and however late calls come: a call is refused only if at least 120 were admitted in the window's length that ends with it, widened by that lateness. |
| NonceCache.FindOldest | crates/famp-relay/src/fetch_auth.rs:509-521 | The eviction scan, in any visiting order, ends on the one entry that ranks before all others. |
| NonceCache.MakeRoom | crates/famp-gateway/src/ingress_guard.rs:395-410 | At capacity exactly the oldest entry goes; below it nothing does. |
| NonceCache.RecordKeepsCapacity | crates/famp-gateway/src/ingress_guard.rs:379-413 | A cache within capacity stays within capacity, and afterwards holds the nonce: at the new instant if recorded, at its old one if refused. |
| NonceCache.RecordSeesOnlyLive | crates/famp-gateway/src/ingress_guard.rs:379-426 | A sweep at an earlier instant never changes what a later recording decides or stores. |
| Clock.FormatIsCanonical | crates/famp-gateway/src/clock.rs:15-26 | What the gateway clock prints always passes the keyring's canonical gate. |
| Clock.LexicalIsChronological | crates/famp-keyring/src/entry.rs:157-175 | For any two calendar seconds, byte order of the canonical text is order of elapsed time, leap years included. |
| IngressGuard.ReplayCache.Record | crates/famp-gateway/src/ingress_guard.rs:379-413 | The sender's entries become the recorded ones, the empty nonce is refused before the map is touched, other senders are unchanged. |
| IngressGuard.ReplayCache.Sweep | crates/famp-gateway/src/ingress_guard.rs:419-426 | Every sender keeps exactly its live nonces and empty senders are dropped. |
| IngressGuard.RateLimiter.Admit | crates/famp-gateway/src/ingress_guard.rs:536-557 | The sender's bucket moves as the limiter says and the verdict matches. What that comes to is RateLimit.RateBound and RateLimit.RefusedOnlyWhenFull. |
| IngressGuard.GuardState.RunCheapGates | crates/famp-gateway/src/ingress_guard.rs:680-704 | The whole chain equals one step of the guard on values: verdict, cache and buckets. |
| GuardRuns.HeldIffNotFlooded | crates/famp-gateway/src/ingress_guard.rs:379-413 | Whatever is sighted before the entry ages out, in any order and the nonce itself included: its entry is held throughout and never made anew if and only if it was not flooded out. |
| GuardRuns.SendersAreIsolated | crates/famp-gateway/src/ingress_guard.rs:327-348 | After any run of the chain, a sender's entries are what its own sightings alone produce. |
| GuardRuns.RepeatIsCaughtIff | crates/famp-gateway/src/ingress_guard.rs:680-704 | Over every run from a new guard, in any order of clocks: rejected as a replay if and only if the last presentation taken as new is younger than the retention, nothing of the sender since read a clock a retention later, and the cache was not flooded since. |
| GuardRuns.RepeatIsCaught | crates/famp-gateway/src/ingress_guard.rs:680-704 | Safety at any two positions of any run, whatever lies between and in any order of clocks: the same sender and nonce again, with nothing a retention later and no flood, is rejected as a replay. |
| GuardFlood.FloodedIffCrowded | crates/famp-gateway/src/ingress_guard.rs:284-301 | Read off the requests: while every sighting is of the nonce itself or of a newer one, it is flooded out if and only if at least 4096 distinct newer nonces were seen; repeats do not count. |
| GuardFlood.FloodNeedsCrowd | crates/famp-gateway/src/ingress_guard.rs:284-301 | Whatever is sighted, losing an entry within the retention takes at least 4095 distinct newer nonces. |
| GuardFlood.DistinctNoncesFlood | crates/famp-gateway/src/ingress_guard.rs:400-409 | Any 4096 distinct newer nonces, none on record, flood the entry out and do not bring it back. |
| GuardFlood.BurstIsLimited | crates/famp-gateway/src/ingress_guard.rs:680-704 | In a burst of distinct nonces inside one rate window every request past the first 119 is refused by the limiter, though recorded. |
| GuardFlood.FloodReadmits | crates/famp-gateway/src/ingress_guard.rs:284-326 | The failing family for the sizing relation: any envelope fresh for a minute is accepted, then 4096 requests of which all but 119 are rate limited, then accepted again 60 seconds later. |
| GuardRuns.RestartBoundIffWholeSecond | crates/famp-gateway/src/ingress_guard.rs:338-348 | Two fresh readings are at most 600 seconds apart if and only if the timestamp is a whole second; 601 always suffices. |
| GuardRuns.AcceptedAtBothEnds | crates/famp-gateway/src/ingress_guard.rs:246-262 | For every admissible envelope the chain accepts it 300 seconds before and again 300 seconds after its timestamp, with the nonce recorded in between. |
| GuardRuns.SubSecondAcceptedApart | crates/famp-gateway/src/ingress_guard.rs:246-262 | Every admissible envelope whose timestamp is no whole second is accepted 300 seconds before its second and again 301 seconds after it. |
| GuardRuns.CacheRefinesLog | crates/famp-gateway/src/ingress_guard.rs:327-413 | While the live nonces fit the cap, the cache answers exactly as an unbounded log of all sightings would. |
| GuardRuns.VerdictIsOwn | crates/famp-gateway/src/ingress_guard.rs:419-426 | With clocks in order, sweeps and other senders' requests before it never change a recording's verdict or result. |
| GuardRuns.GuardStaysBounded | crates/famp-gateway/src/ingress_guard.rs:496-557 | The guard holds entries and buckets only for backed senders and at most the cap for each, after any run. |
| GuardRuns.GateFrame | crates/famp-gateway/src/ingress_guard.rs:680-704 | A reject before the replay gate changes nothing, a replay reject leaves the buckets, and no request touches another sender. |
| GuardRuns.FirstFaultIsReported | crates/famp-gateway/src/ingress_guard.rs:638-704 | The chain tells a fault the request has, in terms of the request, the cache and the bucket, and the one its gates reach first; it lets through exactly the requests that have none. |
| Federation.SignFederationFields | crates/famp-gateway/src/egress.rs:134-194 | In place: an object gains the five gateway fields and a signature over exactly those and the rest; a signed one or one whose expiry cannot be formatted is left alone; a failed signature leaves the five fields in. What the five say is FederationRuns.WireNamesItsDomains, and each failure FederationVerdicts.SigningTells. |
| Federation.RelayOne | crates/famp-gateway/src/egress.rs:256-305 | A value that fails a check is returned unsigned and unchanged with the first error; otherwise signing decides, and success means signed and sent. |
| Federation.StripRelayFields | crates/famp-gateway/src/ingress.rs:231-237 | The loop removes exactly the eight wrapper keys. |
| Federation.IngestInbound | crates/famp-gateway/src/ingress.rs:488-705 | The handler on guard objects equals the ingest function on values: same guard, what is sent on the bus, and the answer, including a bus that refuses. |
| FederationRuns.OtherFieldsAreKept | crates/famp-gateway/src/egress.rs:104-194 | Every field outside the wrapper crosses signing unchanged, whatever it holds. |
| FederationRuns.WireNamesItsDomains | crates/famp-gateway/src/egress.rs:134-194 | The wire object of a relayed value names the authority of its `from` as the sending domain, that of its `to` as the receiving one and the id of the signing key; the sending one is this gateway's own. |
| FederationRuns.WrapperIsSigned | crates/famp-envelope/src/envelope.rs:328-354 | What the receiver verifies over, the wire object without its signature, is exactly what egress signed. |
| FederationRuns.TransparentIffUnsigned | crates/famp-gateway/src/ingress.rs:626-661 | Stripping undoes signing on an object without federation fields if and only if it was unsigned. |
| FederationRuns.SigningIsIdempotent | crates/famp-gateway/src/egress.rs:141-147 | Signing a signed object changes nothing, for any second stamp. |
| FederationRuns.HalfSignedIsRefused | crates/famp-gateway/src/egress.rs:280-294 | A value a failed signature left half-signed is changed, and refused if it is ever relayed again. |
| FederationVerdicts.CheckTells | crates/famp-gateway/src/egress.rs:239-294 | The checks before signing, exactly: each refusal if and only if its fault is the first, in the order sender, recipient, own domain, client-supplied federation field. |
| FederationVerdicts.SigningTells | crates/famp-gateway/src/egress.rs:134-194 | Each failure to sign, exactly, and what it leaves: only a failed signature changes the value. |
| FederationRuns.StrippedIsBusLegal | crates/famp-gateway/src/ingress.rs:215-237 | No wrapper key survives, stripping twice is stripping once, and it is the identity exactly on objects without wrapper keys. |
| FederationRuns.DeliveredIff | crates/famp-gateway/src/ingress.rs:488-575 | For every JSON value: delivered if and only if peek, all gates, key lookup, signature, recipient and format hold, and then with exactly the stripped value. |
| FederationVerdicts.FirstFaultIsReported | crates/famp-gateway/src/ingress.rs:488-625 | A value of the wrong shape is refused for that and moves nothing; any other is answered with the first fault it has, in the order gates, key and signature, recipient, federation fields, sender, and delivered exactly when it has none. |
| FederationVerdicts.PeeksIff | crates/famp-gateway/src/ingress_guard.rs:183-232 | The peek takes exactly the objects with two addresses and a timestamp as text and no nonce or expiry of another type. |
| FederationRuns.DeliveryIsAuthentic | crates/famp-gateway/src/verify.rs:100-111 | Any delivery is addressed to this domain and this mailbox, from a backed sender, and decodes under the key usable now. |
| FederationRuns.RevokedKeyDeliversNothing | crates/famp-gateway/src/verify.rs:45-111 | After a key is revoked and held active by no entry, then after any keyring operations, whatever is delivered from that sender verified under another key, active now. |
| FederationRuns.SignedFormat | crates/famp-envelope/src/envelope.rs:537-557 | A signed object passes the format check exactly when nonce, expiry and timestamp have the canonical form and order. |
| FederationRuns.RelayedIsDeliveredUnchanged | crates/famp-gateway/src/egress.rs:256-305 | End to end: an unsigned object that egress can sign and relays, where the signer's key is active, is delivered exactly when the receiver accepts it, and the bus gets the drained object itself. |
| FederationRuns.TamperingNeverDelivers | crates/famp-envelope/src/envelope.rs:328-354 | Whatever object arrives with egress's signature: if delivered under the signer's key, it is the signed object, the bus gets the drained one, at the mailbox it was signed for. |
| FederationRuns.RunIsGuardRun | crates/famp-gateway/src/ingress.rs:488-575 | Over any run of requests, with registry and keyring changing in between, the guard is where the gate calls alone put it. |
| FederationRuns.DeliveredTwiceOnlyAtTheEnds | crates/famp-gateway/src/ingress.rs:488-575 | Any content delivered at two positions of a run, with any requests in between: exactly the retention apart, or a second more and its timestamp is no whole second, or the sender's clock was read a retention later in between, or the first nonce was flooded out. |
| FederationRuns.ApartDelivers | crates/famp-gateway/src/ingress.rs:488-575 | The converse family for any JSON value: admissible at two fresh readings at least the retention apart, it is delivered at the first and, replayed, again at the second. |
| FederationRuns.RelayedDeliversApart | crates/famp-gateway/src/ingress.rs:488-575 | In particular for an object as egress relays it. |
| FederationRuns.EndsAreFreshApart | crates/famp-gateway/src/ingress_guard.rs:246-262 | For every timestamp, the second 300 before it and the second 300 after it, or 301 for no whole second, are such readings. |
| FederationFlood.FloodRedelivers | crates/famp-gateway/src/ingress.rs:488-575 | The flood exception is reachable: a relayed object is delivered, 4096 altered copies with no valid signature arrive, and it is delivered again 60 seconds later. |
| FederationFlood.RedeliveryNeedsCrowd | crates/famp-gateway/src/ingress.rs:488-575 | Any content delivered twice away from the ends of its window, with no clock reading a retention later in between, means at least 4095 distinct newer nonces of that sender. |
| Provenance.EveryDeliveryWasRelayed | crates/famp-gateway/src/verify.rs:100-111 | Over any trace of relays and arrivals, with a scheme ideal for honest keys: every delivery under an honest key is exactly an object an egress relayed earlier, from its own domain, to the mailbox it was addressed to. |
| Provenance.DeliveredUnderItsDomains | crates/famp-gateway/src/egress.rs:134-194 | And the delivered wire object names the relaying egress's own domain as its sender's and the delivering site's as its recipient's. |
| Keyring.KeyringObject.Pin | crates/famp-keyring/src/lib.rs:298-325 | The map moves as the pin function says; errors change nothing. |
| Keyring.KeyringObject.Rotate | crates/famp-keyring/src/lib.rs:348-435 | The map moves as the rotation function says; the confirmation and every error change nothing. When the active key may change is KeyringRuns.ActiveKeyChangesIff, and which error is given KeyringVerdicts.FirstFaultIsReported. |
| Keyring.KeyringObject.RetireKey | crates/famp-keyring/src/lib.rs:444-483 | The map moves as the retire function says; errors change nothing. |
| Keyring.KeyringObject.RevokeKey | crates/famp-keyring/src/lib.rs:498-537 | The map moves as the revoke function says; errors change nothing. |
| Keyring.KeyringObject.ApplyRevocation | crates/famp-keyring/src/lib.rs:560-628 | The map moves as the signed-revocation function says; errors change nothing. |
| KeyringRuns.OperationIsEdit | crates/famp-keyring/src/lib.rs:298-628 | Every operation is one of five edits of one principal's list; failures change nothing; other principals stay. |
| KeyringRuns.RunsStaySound | crates/famp-keyring/src/lib.rs:298-628 | After any operation sequence each list is non-empty, has at most one active key and only canonical stamps. |
| KeyringRuns.KeyMaterialIsKept | crates/famp-keyring/src/lib.rs:348-483 | Keys are only added, except that retire drops exactly one retired entry with the given identifier. |
| KeyringRuns.ActiveKeyChangesIff | crates/famp-keyring/src/lib.rs:298-435 | Trust on first use, per operation: an active key stops being it if and only if a confirmed rotation to another, unrevoked key goes through, or a revocation that finds the active entry. |
| KeyringRuns.PinnedKeyStays | crates/famp-keyring/src/lib.rs:298-435 | Over any operation sequence without a confirmed rotation or a revocation of that principal, the pinned key is still the active one. |
| KeyringRuns.ActiveKeyIsGuarded | crates/famp-keyring/src/lib.rs:298-325 | With a key active, pinning or rotating to another without confirmation is refused and leaves the keyring as it is. |
| KeyringRuns.FirstKeyIsInstalledIff | crates/famp-keyring/src/lib.rs:298-435 | With none active, a pin or a rotation makes exactly the given key active, unless it is revoked or a stamp is not canonical. |
| KeyringVerdicts.FirstFaultIsReported | crates/famp-keyring/src/lib.rs:298-628 | For all five operations: a refusal changes nothing and names a fault the operation has, the first in the order of the checks; an operation succeeds exactly when it has none. |
| KeyringVerdicts.RotationTellsWhatWas | crates/famp-keyring/src/lib.rs:348-435 | A successful rotation reports a first pin, the same key or a change exactly when none, that one or another key was active, and changes the keyring unless it was that one. |
| KeyringRuns.RevokedEntryIsPermanent | crates/famp-keyring/src/lib.rs:485-628 | A revoked entry is never changed or removed by any later operation sequence. |
| KeyringRuns.RevokedKeyIsRefused | crates/famp-keyring/src/lib.rs:298-435 | After any later operations, pinning or rotating to a revoked key is refused and changes nothing. |
| KeyringRuns.RevokedStaysInactiveIff | crates/famp-keyring/src/lib.rs:298-628 | A revoked key is never again active, over all operation sequences, if and only if no entry holds it active when they start. |
| KeyringRuns.DistinctStaysIff | crates/famp-keyring/src/lib.rs:298-435 | An operation keeps keys distinct if and only if it does not push a key the list holds as retired. |
| KeyringRuns.RunsStayDistinct | crates/famp-keyring/src/lib.rs:298-628 | So any sequence that never re-pins a retired key keeps every list distinct. |
| KeyringRuns.RevokedKeyIsNeverUsable | crates/famp-keyring/src/lib.rs:253-287 | A revoked key that no entry holds active is never the usable one, at any time, after any operations. |
| KeyringRuns.RevokeTakesEffectIff | crates/famp-keyring/src/lib.rs:498-537 | After a successful revocation the active key still carries the identifier if and only if the first entry with it was not the active one. |
| KeyringRuns.RevocationIsFinalIff | crates/famp-keyring/src/lib.rs:498-537 | The key a successful revocation marks is never active again, over all later operation sequences, if and only if the mark did not miss that key's active entry. |
| KeyringRuns.RotateBackSurvivesRevocation | crates/famp-keyring/src/lib.rs:498-537 | Pin, rotate away, rotate back, revoke: the key is both revoked and usable. |
| KeyringRuns.SignedRevocationIsAuthorized | crates/famp-keyring/src/revocation.rs:125-139 | A statement that changes anything parses, is signed by an authorized key, and changes exactly one unrevoked entry of its own principal. |
| KeyringRuns.SignedRevocationIsIdempotent | crates/famp-keyring/src/lib.rs:560-628 | Applying an accepted statement again, at any later time, changes nothing. |
| KeyringRuns.LookupIsMonotone | crates/famp-keyring/src/lib.rs:253-287 | Time only takes keys away: expired stays expired, usable later means usable earlier. |
| KeyringRuns.UsableIffBeforeExpiry | crates/famp-keyring/src/lib.rs:253-287 | With an expiry, the key is usable if and only if less time has elapsed than the expiry denotes, though only text is compared. |
| KeyringVerdicts.LookupIsTheAnswer | crates/famp-keyring/src/lib.rs:253-287 | A lookup gives an answer if and only if it is so of the entries: usable or expired by the first active one, else revoked before retired with the stamp of the first such, else unpinned. |
| KeyringFile.EntryLineParses | crates/famp-keyring/src/file_format.rs:50-138 | Every storable entry's line parses back to the same principal and entry, legacy and six-field forms alike, and is neither blank nor a comment. |
| KeyringFile.LineIsLaidOut | crates/famp-keyring/src/file_format.rs:124-138 | The line of an entry, character by character: two fields for a plain active key, six in the documented order for any other, two spaces between. |
| KeyringFile.FieldsParseIff | crates/famp-keyring/src/file_format.rs:50-118 | The fields of a line parse as an entry if and only if they are that storable entry's own fields, in the two-field or the six-field shape. |
| KeyringFile.BadKeyIff | crates/famp-keyring/src/file_format.rs:50-84 | A line is refused for its key exactly when it has no comment mark, two or six fields and a principal, and the key does not decode; every other refusal is of the entry. |
| KeyringFile.SkippedIff | crates/famp-keyring/src/lib.rs:127-140 | Skipped are exactly the blank lines and those whose first character other than whitespace is a comment mark. |
| KeyringFile.AcceptedIff | crates/famp-keyring/src/lib.rs:141-166 | An entry is taken exactly when its key is new to the whole file and its principal keeps at most one active key. |
| KeyringFile.LoadFromText | crates/famp-keyring/src/lib.rs:120-170 | The loading loop over lines equals the load function, errors included. |
| KeyringFile.FindLeast | crates/famp-keyring/src/lib.rs:176-189 | The principal written next is the least by printed text. |
| KeyringRoundTrip.SaveToText | crates/famp-keyring/src/lib.rs:176-189 | The saving loop writes exactly the save function's text. |
| KeyringRoundTrip.SortedIsPermutation | crates/famp-keyring/src/lib.rs:176-189 | Sorting the entries for saving loses and adds nothing. |
| KeyringRoundTrip.SortIsStable | crates/famp-keyring/src/lib.rs:176-189 | For any list the written entries are in key-text order and entries with one key text stay in the order they were in. |
| KeyringRoundTrip.LoadedIsSound | crates/famp-keyring/src/lib.rs:120-170 | Whatever the file, a loaded keyring is sound, storable, and holds no key twice. |
| KeyringRoundTrip.DuplicateIsReal | crates/famp-keyring/src/lib.rs:141-166 | Each duplicate the loader refuses is one the keyring so far has: a second active key, the key again under this principal, or under another, in that order. |
| KeyringRoundTrip.LoadableIffDistinct | crates/famp-keyring/src/lib.rs:120-189 | A saved keyring loads again if and only if no key occurs in it twice. |
| KeyringRoundTrip.ReachableLoadsIff | crates/famp-keyring/src/lib.rs:107-189 | For every keyring that operations reach from an empty one: its saved file loads, to the same entries, if and only if no key is held twice. |
| KeyringRoundTrip.SharedKeyIsUnloadable | crates/famp-keyring/src/lib.rs:298-325 | One key pinned for two principals is accepted in memory and its file is refused. |
| KeyringRoundTrip.RoundTrip | crates/famp-keyring/src/lib.rs:120-189 | Loading a saved distinct keyring recovers every principal's entries as a multiset, and saving again gives the same text. |
| Identity.LabelsMakeDotted | crates/famp-core/src/identity.rs:222-238 | Checking an authority label by label is a position-by-position condition on the whole text. |
| Identity.ValidateAuthority | crates/famp-core/src/identity.rs:212-243 | The validation loop accepts exactly the well-formed authorities. |
| Identity.ValidateName | crates/famp-core/src/identity.rs:246-263 | The validation loop accepts exactly the well-formed names. |
| Identity.ParsedPrincipalReprints | crates/famp-core/src/identity.rs:53-86 | Accepted text reprints byte for byte, and the parts are well formed. |
| Identity.PrintedPrincipalParses | crates/famp-core/src/identity.rs:53-86 | Every well-formed principal parses back from its printed form. |
| Identity.PrintIsInjective | crates/famp-core/src/identity.rs:82-86 | Two well-formed principals with the same text are the same. |
| Identity.FirstFaultIsReported | crates/famp-core/src/identity.rs:53-86 | Parsing a principal names the first fault the text has, in terms of the text and its cut at the first slash, and accepts exactly the texts that have none. |
| Identity.ParsedInstanceReprints | crates/famp-core/src/identity.rs:146-193 | Accepted instance text reprints byte for byte. |
| Identity.PrintedInstanceParses | crates/famp-core/src/identity.rs:146-193 | Every well-formed instance parses back from its printed form. |
| Identity.InstanceTells | crates/famp-core/src/identity.rs:146-193 | Each refusal of an instance, exactly: a second mark in the instance id is found before any part is looked at, the parts are then looked at in order. |
| Identity.ParsersAreDisjoint | crates/famp-core/src/identity.rs:1-8 | No text is accepted both as a principal and as an instance. |
| Identity.ShortcutFindsAuthority | crates/famp-relay/src/http.rs:98-107 | On every text the full parser accepts, the relay's shortcut finds exactly its authority. |
| Identity.ShortcutFindsIff | crates/famp-relay/src/http.rs:98-107 | On any text the shortcut finds a domain if and only if it stands non-empty between the scheme and the first slash. |
| Jsonl.ReadFromFile | crates/famp-inbox/src/read.rs:104-185 | The cursor reader equals its function on the bytes; a missing file is empty. |
| Jsonl.ReadAllOfFile | crates/famp-inbox/src/read.rs:22-82 | The whole-file reader equals its function on the bytes; a missing file is an error. |
| Jsonl.Inbox.Append | crates/famp-inbox/src/append.rs:91-121 | A line without a newline is appended with one; any other is refused and the file stays. |
| Jsonl.InMemoryMailbox.Append | crates/famp-bus/src/mailbox.rs:198-203 | The line is added at the end of its mailbox only. |
| Jsonl.InMemoryMailbox.Truncate | crates/famp-bus/src/mailbox.rs:211-218 | The named mailbox becomes empty and the others stay. |
| Jsonl.InMemoryMailbox.DrainFrom | crates/famp-bus/src/mailbox.rs:223-276 | The drain loop returns exactly the lines at or after the cursor, with their end offsets, and the next cursor. |
| JsonlAgreement.FileIsLinesAndTail | crates/famp-inbox/src/read.rs:84-103 | Every file is its complete lines, each with its newline, and a newline-free tail. |
| JsonlAgreement.ReaderAgreesWithMailbox | crates/famp-inbox/src/read.rs:104-185 | For every file and every cursor, mid-line ones too, the cursor reader returns exactly what the mailbox drain of the complete lines returns, parsed. |
| JsonlAgreement.ReadersAgreeIff | crates/famp-inbox/src/read.rs:22-82 | The whole-file reader agrees with the cursor reader from zero if and only if some complete line is corrupt, or the tail is empty, or the tail does not parse. |
| JsonlAgreement.ParseableTailDivides | crates/famp-inbox/src/read.rs:22-82 | The failing family: on parseable lines and a parseable non-empty tail, one reader returns exactly one value more than the other. |
| JsonlAgreement.TruncationKeepsWholeLines | crates/famp-inbox/src/read.rs:84-103 | A file cut at any byte reads as exactly the lines that were complete before the cut. |
| JsonlAgreement.ExactlyOnce | crates/famp-bus/src/mailbox.rs:134-149 | Over any interleaving of appends and partial drains, what was consumed is a prefix of what was appended, the cursor is its size, and consuming the next drain whole leaves nothing. |
| DrainWalk.Walk | crates/famp-bus/src/broker/drain_walk.rs:83-213 | The loop accounts for exactly the first records it can pass, and cannot pass one more: cursor at the end of the last of them, their eligible items delivered, the drained flag set exactly when none is left and no cap is spent. What is eligible, in terms of the lines, is DrainWalk.GivenIsWhatItMayHave. |
| DrainWalk.OutcomeIsUnique | crates/famp-bus/src/broker/drain_walk.rs:53-69 | That contract determines the walk: two outcomes for one drain and policy are equal. |
| DrainWalk.EveryLineIsAccountedFor | crates/famp-bus/src/broker/drain_walk.rs:53-128 | Over every run of arrivals, walks and truncations: arrived lines are exactly those passed, those lost and those still due, and what was given is in order and each once what the passed lines hold. |
| DrainWalk.GivenIsWhatItMayHave | crates/famp-bus/src/broker/drain_walk.rs:130-172 | Over every such run: each item given is read off a passed line, is local where that is required and never the owner's own, and every passed line that holds such an item has given it. |
| DrainWalk.NothingIsLost | crates/famp-bus/src/broker/drain_walk.rs:53-69 | Without a truncation, under any filters and caps, nothing is lost: the lines that arrived are the passed ones followed by the due ones, in order. |
| DrainWalk.FullWalkCatchesUp | crates/famp-bus/src/broker/drain_walk.rs:65-69 | From any state, even a stale cursor, a walk that reports itself fully drained passes all that is due and leaves nothing. |
| DrainWalk.UnfilteredIsFull | crates/famp-bus/src/broker/drain_walk.rs:34-51 | A walk without filter or cap is always fully drained. |
| DrainWalk.WalkHeals | crates/famp-bus/src/broker/drain_walk.rs:105-128 | After any walk the cursor is not past the end, so no line that then arrives is lost behind it. |
| DrainWalk.RegrownIsSeenIff | crates/famp-bus/src/mailbox.rs:158-184 | Lines appended after a truncation are all returned at the old cursor if and only if it was at the start or there are none. |
| FrameCodec.EncodeFrameInto | crates/famp-bus/src/codec.rs:21-33 | A frame comes back exactly when the canonical body exists and is at most 16 MiB, and in front of any bytes it decodes to its value and its own length. |
| FrameCodec.FrameRoundTrip | crates/famp-bus/src/codec.rs:21-53 | An encoded frame decodes to its value and length, whatever follows. |
| FrameCodec.StrictPrefixWaits | crates/famp-bus/src/codec.rs:35-53 | Every strict prefix of a frame asks for more. |
| FrameCodec.VerdictIsStable | crates/famp-bus/src/codec.rs:35-53 | Once the decoder answers, value or error, further bytes never change the answer. |
| FrameCodec.DecodeTells | crates/famp-bus/src/codec.rs:35-53 | The whole verdict on any buffer from its first four bytes, most significant first: empty, over 16777216, waiting or undecodable, each if and only if. |
| FrameCodec.EncodeTells | crates/famp-bus/src/codec.rs:21-33 | Encoding fails exactly without a body or on one over 16777216 bytes, whose length it names up to 32 bits. |
| FrameCodec.ChunkingNeverMatters | crates/famp-bus/src/codec.rs:35-53 | However a byte stream is cut into chunks, feeding them reads the same values and the same error as reading it whole. |
| FrameCodec.ChunkedStreamRoundTrip | crates/famp-bus/src/codec.rs:21-53 | Any chunking of any encoded message sequence, cut inside a last frame, reads exactly those messages and keeps the rest. |
| TaskFsm.Engine.Step | crates/famp-fsm/src/engine.rs:28-51 | A legal input moves the state as the transition table says; an illegal one leaves it. |
| TaskFsm.FsmFold.Apply | crates/famp-inspect-server/src/parse.rs:59-97 | Each label is that of the whole history so far by its closed form, or unknown when the envelope tells nothing. |
| TaskFsm.FsmFold.FinalLabel | crates/famp-inspect-server/src/parse.rs:100-106 | The label of the whole history by its closed form, or unknown when no envelope of it belongs to the lifecycle. |
| TaskFsm.FoldMovesForward | crates/famp-fsm/src/engine.rs:28-51 | Over any envelopes the rank never decreases and an equal rank is an equal state, so terminal states stay. |
| TaskFsm.IgnoredDoNotMatter | crates/famp-inspect-server/src/parse.rs:59-97 | Dropping the envelopes the fold absorbs gives the same state, and at most two remain. |
| TaskFsm.FoldIsClosedForm | crates/famp-inspect-server/src/parse.rs:59-106 | The state after any envelopes, from the first commit, first cancel and first terminal deliver alone. |
| TaskFsm.DoneWasCommitted | crates/famp-fsm/src/engine.rs:28-51 | A completed or failed run has a commit that moved it, before the deliver that ended it. |
| TaskFsm.LabelTellsDelivery | crates/famp-inspect-server/src/parse.rs:59-106 | A task is shown as completed or failed if and only if its first commit comes before any cancel and the first envelope that then ends it is a delivery that says so. |

## Left out

- Canonical JSON (RFC 8785), Ed25519, base64 and SHA-256: foreign code, kept as parameters with named laws.
- JSON text: objects are finite maps and serialization is taken to be faithful; duplicate-key rejection is not modelled.
- Typed body schemas, scope and terminal-status cross-checks: one predicate parameter, `fitsSchema`.
- The serialization error after signing and the re-parse error before delivery: a JSON value always serializes, and verified bytes always parse, so neither can occur on values.
- Broker sessions, canonical-holder liveness, inspect views, CLI, hooks, TLS and HTTP plumbing: mostly input and output, or easy members.
- Relay queues and enqueue limits: bounded queues with no property across operations.
- Relay-failure acknowledgements on egress: they build one fixed envelope and add only easy members.
- File locking, atomic rename, fsync and file modes: the operating system is not modelled; a torn write appears as a file cut at any byte.
- Locks: each critical section of the relay handler is one step of the machine; the gateway guard runs under one lock, so a request is one step.
- Clocks, UUID nonces and the registry are inputs. Clock order is a hypothesis where a lemma needs it.
- FederationRuns.DeliveredTwiceOnlyAtTheEnds: states one direction; FederationRuns.ApartDelivers and FederationFlood.FloodRedelivers show that the ends and the flood occur, and GuardRuns.RepeatIsCaughtIff is exact for the gates.
- RelayRuns.NeverDrainsTwiceIff: says nothing of runs where a request reaches the limiter more than 1379 seconds out of clock order.
- GuardFlood.FloodedIffCrowded: leaves out sightings of nonces that were already on record and older than the one in question, or lexically smaller at the same instant, whose own fate depends on the order of evictions; GuardFlood.FloodNeedsCrowd covers those runs too.
- Broker task filters and self-authorship: the drain walk takes both as parameters.
- FederationRuns.TamperingNeverDelivers: needs the laws that what is signed verifies and that one signature fits one value.
