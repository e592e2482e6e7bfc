# Diagox call routing and admission, verified

Diagox is a SIP back-to-back user agent. This project models the parts of its Go
code where an argument across several functions, a whole run or every
interleaving is needed, and proves what they guarantee.

- **Router** (`Addresses`, `Sorting`, `Scanning`, `Routing`, `Precedence`, `Routers`, `ConfigLoading`): endpoints are
  compiled into an index of maps and lists; the index is proved to answer every request as a plain first-match scan
  over the endpoints in file order. The scan is written without the index: leading bits of addresses, no masking, no
  sorting, no running numbers. `Precedence` says the same without a scan: who has a claim to a request, and which
  key stands first in the file. Go's arbitrary map iteration order is a nondeterministic choice in the methods, so
  their contracts say that it does not matter.
- **Rate limiter** (`RateLimiter`, `SequentialLimiter`): a transition system with any number of handlers in which
  every atomic load, swap, store and add is one step, and the limiter object with its exact sequential pattern.
  Every undisturbed pass through the steps is proved to be one sequential call.
- **Registrar, registry, resolver** (`Registrar`, `CallResolution`): REGISTER processing as a decision and as
  imperative code over the binding map, and what any sequence of requests makes the resolver answer.
- **Stores** (`Rings`, `CdrStorage`, `TraceStorage`): two circular arrays; a filtered newest-first read, and a
  search that releases its lock around every callback.
- **Flow RPC** (`FlowRequests`, `FlowDialog`, `FlowServer`, `FlowTransactions`, `FlowConnections`, `FlowRecording`):
  the request loop behind its bounded queue, as a specification and as code with every write to the wire; client
  transactions, slices edited in place, and the recording frame.
- **Calls** (`Fallback`, `MediaStats`): fallback dialling with dialog ownership, and the media score.

What a library does (parsing an address, a duration or a header, sending an INVITE, digest checking, reading a
clock) is an input: a datatype that holds its outcome, or a parameter. Go's `int64` counters are unbounded here;
they move by one per live handler or call. Times are integers with Go's zero time at 0; scores are over the reals.

## Findings

Statements one might expect of the code that do not hold, each with a concrete witness or the exact condition:

- A route without ID and with a match other than `any` ends the search and is then rejected, hiding later routes
  (`BlankPrefixRouteShadows`); matching is complete exactly when the first ID-less route is `any`
  (`MatchingIsCompleteIff`).
- A configuration with an endpoint keyed by the empty string validates but its routes lead nowhere
  (`EmptyKeyDeadEnds`, `PlainRouteResolvesIff`).
- Exact IP values and sources are unmapped but prefixes are not: a prefix matches nothing at all exactly when it was
  written inside the IPv4-mapped range (`CoversNothingIff`), and it loses sources it contains as written exactly when
  it meets that range, as `::/0` does (`UnmappingLosesNothingIff`).
- RPS bounds admissions per counter reset, not per second: two may pass in one second with RPS 1
  (`OneSecondMayPassTwice`). A second stays within RPS exactly when no handler counts before the reset, none after it,
  or no more than RPS altogether (`OneSecondKeepsLimitIff`). Sequentially, a clock that steps back exceeds RPS
  (`SteppingBackAdmitsMore`); a second stays within it exactly when it sees no more than RPS calls or sees them in one
  run (`SecondKeepsLimitIff`).
- A refused handler that has not yet rolled back can cause a refusal below the limit (`RefusedBelowLimit`,
  `RejectedIff`); refusals mean that the limit is reached exactly when nobody can enter at all
  (`RefusesOnlyWhenFullIff`).
- A wrapped call log is read only back to slot 0; the read covers all that is stored exactly when the ring has not
  wrapped or has just wrapped (`ReachIsWholeIff`). The originator filter compares the record's own call ID, so reads
  deliver what was asked for exactly when no originator is given or the period is empty (`FilterIsAsAskedIff`,
  `ReadsAreAsAskedIff`).
- `Expires: 0` with an explicit contact does not remove it as section 10.2.2 of RFC 3261 describes; only the lone
  `*` does, everything else is refused (`RemovedIff`).
- A REGISTER is authorized for the From user but stored for the To user. It stays with the binding of the user it was
  authorized as exactly when it is refused or both are the same (`ChangesOnlyItsOwnIff`, `AnothersBindingIsWritten`).
- A flow request is answered exactly when it does not get to media that is not there (`AnsweredIff`). `read_dtmf`,
  `play` and `echo` ask first whether the call is confirmed; `listen` does not, and before an answer it gets none
  (`ListenWithoutMedia`, `OnlyListenPanics`).
- Above 20 ms the media score rises as the round trip gets longer (`LongerTripScoresNoHigherIff`).
- A recording whose request ID is 4 GiB or longer cannot be decoded, because its length is cut to 32 bits
  (`RoundTripIff`).

## Model

| member | source | states |
|---|---|---|
| `Addresses.MaskedContainsTheSame` | routing.go:277-281 | Storing `prefix.Masked()` never changes which addresses the prefix contains. |
| `Addresses.MaskedIsCanonical` | routing.go:277-281 | Two prefixes of one length are stored alike if and only if they are the same network. |
| `Addresses.UnmapIff` | routing.go:265-268 | Two addresses are looked up alike if and only if they are the same address, whether written as IPv4 or IPv4-mapped. |
| `Addresses.ContainsIsSharedBits` | routing.go:231-232 | Containment is agreement of family and of every one of the leading bits, for all addresses and prefixes. |
| `Addresses.CoversNothingIff` | routing.go:265-281 | A prefix covers no source, once sources are unmapped, if and only if it was written inside the IPv4-mapped range. |
| `Addresses.UnmappingLosesNothingIff` | routing.go:265-281 | Every source the prefix contains as written is still covered after unmapping, if and only if the prefix does not meet the IPv4-mapped range. |
| `Sorting.StrictlySortedIsUnique` | routing.go:239-241 | A strictly sorted sequence is determined by its elements; any correct sort gives the same answer. |
| `Sorting.SortForgetsOrder` | routing.go:328-334 | Sorting distinct elements gives the same result whatever order they were collected in. |
| `Sorting.StringLessMeaning` | routing.go:334-334 | The order of names is that of the first character in which they differ. |
| `Routing.NamesListEachOnce` | routing.go:316-337 | Every endpoint is listed exactly once, file-ordered names first and the rest strictly sorted. |
| `Routing.CollectUnlisted` | routing.go:327-333 | Ranging over the map in any order collects each remaining key once. |
| `Routing.EndpointNames` | routing.go:316-337 | For every map iteration order: all configured names, each pair standing as in the file, names the file does not mention behind them and sorted. |
| `Routing.NamesStandInOrder` | routing.go:316-337 | Of two listed names, the first comes earlier in the file, or alone is in the file, or neither is and it sorts first. |
| `Routing.IndexEndpoints` | routing.go:257-297 | Indexing a list of endpoints yields the index of that list, or the first malformed value. |
| `Routing.FileOrderHoldsTheEndpoints` | routing.go:258-259 | The endpoints visited are exactly the configured ones. |
| `Routing.BuildEndpointIndex` | routing.go:250-298 | Succeeds exactly when no listed value is malformed, and then every part of the index is the corresponding selection of the endpoints in file order; the error names the first malformed value. |
| `Routing.AddValues` | routing.go:263-283 | The values of one endpoint extend the exact-IP map and the CIDR list in listing order with consecutive numbers. |
| `Routing.SelectMeaning` | routing.go:30-39 | A selection holds exactly the numbered listings that pass the test, in strictly increasing number. |
| `Routing.CidrHitsMeaning` | routing.go:231-238 | Hits on the masked prefixes are the listings whose prefix as written shares its leading bits with the source. |
| `Routing.SortedHitsAreCovering` | routing.go:228-241 | Exact hits and CIDR hits, merged and sorted by number, are the covering listings in file order. |
| `Routing.CoveringIsScan` | routing.go:242-247 | The first acceptable covering listing belongs to the first acceptable endpoint that lists a covering value. |
| `Routing.MatchIP` | routing.go:228-248 | Returns the first endpoint in file order that lists a value covering the source and accepts the transport. |
| `Routing.MatchUser` | routing.go:55-64 | Returns the first transport-compatible endpoint of the caller's name in file order. |
| `Routing.LookUp` | routing.go:48-94 | Through the index, the answer of the plain scan: user, then IP, then dynamic user, then default, with the same error exits. |
| `Precedence.FirstIsEarliest` | routing.go:257-259 | The first match in file order is the endpoint whose key stands before every other key that passes. |
| `Precedence.ScanIsRight` | routing.go:48-94 | Every request goes to the earliest endpoint with the strongest claim: caller's name, then source address, then dynamic user, then default, each only over an acceptable transport. |
| `Precedence.WellFormedIff` | routing.go:263-276 | The index can be built if and only if every value listed by an endpoint of type ip is an address or a network. |
| `Config.NormalizeMeaning` | routing.go:312-314 | A transport counts as its name without surrounding blanks, in lower case. |
| `Scanning.FirstMeaning` | routing.go:58-63 | The reference scan returns the element at the least index that passes the test, and nothing exactly when none does. |
| `Scanning.FirstOfFilter` | routing.go:57-64 | Grouping by user and testing transport later finds what testing both in one scan finds. |
| `Routers.Router.EndpointIndex` | routing.go:216-226 | Building once and caching keeps the cached index the index of the configuration. |
| `Routers.Router.MatchEndpoint` | routing.go:48-94 | For every request the scan's answer, which is the earliest endpoint with the strongest claim, and no match at all when a listed value is malformed. |
| `Routers.Router.FindUserEndpoint` | routing.go:203-214 | The first endpoint in file order that carries the user's name. |
| `Routers.HitsIff` | routing.go:113-131 | By its kind, a route is for callees that start with its ID, contain it, or equal it. |
| `Routers.Router.MatchIncomingRoute` | routing.go:96-138 | Succeeds if and only if the first route that is for the callee has an ID or is `any`, and hands that route back. |
| `Routers.Router.MatchOutgoingRouteEndpoint` | routing.go:140-177 | Leads to the callee's own earliest endpoint, to the named one under the callee's name, or to the named one unchanged, and exactly then. |
| `Routers.MatchingIsCompleteIff` | routing.go:112-137 | Matching succeeds for exactly the callees some route hits, if and only if the first ID-less route is `any`. |
| `Routers.MatchingIsTotalIff` | routing.go:122-137 | Every callee is matched if and only if the first ID-less route exists and is `any`. |
| `Routers.EarliestRouteWins` | routing.go:112-137 | If every route has an ID or is `any`, the result is the earliest route that hits. |
| `Routers.BlankPrefixRouteShadows` | routing.go:118-137 | An ID-less prefix route makes every later route unreachable and itself fails. |
| `Routers.RegistryRouteNamesTheCallee` | routing.go:143-163 | A registry route leads only to an endpoint bearing the callee's name. |
| `ConfigLoading.Load` | config.go:134-204 | For every map order, fails exactly on a bad contact header or a malformed value of an ip endpoint, and otherwise yields the defaulted configuration. |
| `ConfigLoading.LoadedMeaning` | config.go:146-192 | Empty names become their keys, empty contexts `default`, missing contexts empty ones; nothing the file says is changed. |
| `ConfigLoading.DefaultContextCatchesAll` | config.go:152-161 | Without a default context in the file, every callee is matched and sent to the registry. |
| `ConfigLoading.LoadingIsIdempotent` | config.go:146-192 | Loading what was loaded changes nothing. |
| `ConfigLoading.Validate` | config.go:206-263 | Succeeds exactly on the valid configurations: supported auth, at most one dynamic user, well-formed values, resolvable routes, existing contexts. |
| `ConfigLoading.MatchedEndpointHasItsContext` | config.go:254-261 | In a valid configuration every endpoint the router returns is configured and its route context exists. |
| `ConfigLoading.PlainRouteResolvesIff` | config.go:245-250 | In a valid configuration a matched route without hangup and registry resolves if and only if it does not name the empty key. |
| `ConfigLoading.EmptyKeyDeadEnds` | routing.go:165-167 | A file that loads and validates, in which a matched route leads nowhere. |
| `RateLimiter.RunsKeepInvariants` | rate_limiter.go:75-115 | Both counting invariants hold after every interleaving of any number of handlers. |
| `RateLimiter.ActiveLimitHolds` | rate_limiter.go:75-92 | The active count is the admitted handlers plus those rolling back, fewer than Max are admitted, and it is zero once all have gone. |
| `RateLimiter.RateLimitHolds` | rate_limiter.go:95-115 | Admissions are at most RPS times one plus the counter resets, and resets never exceed timestamp changes. |
| `RateLimiter.TurnedOutIff` | rate_limiter.go:101-114 | In all runs a handler drops out, short of leaving, if and only if it counts when RPS or more have counted since the last reset; losing the swap refuses nobody. |
| `RateLimiter.ThroughByCountingOnce` | rate_limiter.go:95-115 | In all runs with a limit a handler is through the check if and only if it has counted, exactly once. |
| `RateLimiter.CheckIsShort` | rate_limiter.go:104-114 | Whatever others do, each action of a handler in the check brings it closer to its count, at most four away. |
| `RateLimiter.NeverStuck` | rate_limiter.go:75-115 | In every phase a handler has an action open. |
| `RateLimiter.EachEpochPassesUpToRps` | rate_limiter.go:95-115 | In every interleaving the admissions are exactly the sum, over the stretches between resets, of the smaller of RPS and the handlers that count there. |
| `RateLimiter.OneSecondKeepsLimitIff` | rate_limiter.go:107-114 | When every clock reads one second there is at most one reset, and RPS is kept if and only if nobody counts before it, nobody after it, or no more than RPS altogether. |
| `RateLimiter.OneSecondMayPassTwice` | rate_limiter.go:107-114 | A run in which every clock reads one second, RPS is 1 and two handlers pass. |
| `RateLimiter.RejectedIff` | rate_limiter.go:79-84 | A handler is refused exactly when admitted plus rolling-back handlers number at least Max - 1. |
| `RateLimiter.RefusedBelowLimit` | rate_limiter.go:79-84 | For every Max of at least 2, a run in which a handler is refused while fewer than Max - 1 are admitted. |
| `RateLimiter.RefusesOnlyWhenFullIff` | rate_limiter.go:79-84 | In all runs a refused handler finds Max - 1 admitted, if and only if Max is 1 or RPS is negative. |
| `SequentialLimiter.SoloRunIsCall` | rate_limiter.go:95-115 | Every run of the atomic steps of one undisturbed handler, from any state, has the effect and the answer of one sequential call. |
| `SequentialLimiter.SoloRunCompletes` | rate_limiter.go:95-115 | From any state there is such a run to the end of the check. |
| `SequentialLimiter.FirstOfEachRunAreAllowed` | rate_limiter.go:95-115 | In each maximal run of calls seeing one second exactly the first RPS are allowed. |
| `SequentialLimiter.SecondAdmitsEarlyCalls` | rate_limiter.go:95-115 | For any clock, a second admits exactly its calls that are among the first RPS of their runs. |
| `SequentialLimiter.SecondKeepsLimitIff` | rate_limiter.go:107-114 | For any clock, a second stays within RPS if and only if it sees no more than RPS calls or sees them all in one run. |
| `SequentialLimiter.EachSecondAdmitsUpToRps` | rate_limiter.go:95-115 | With a clock that does not step back each second admits the smaller of RPS and its calls. |
| `SequentialLimiter.SteppingBackAdmitsMore` | rate_limiter.go:107-112 | A clock that steps back lets one second admit more than RPS. |
| `SequentialLimiter.RateLimiterAtomic.DialogActiveLimit` | rate_limiter.go:75-85 | Admits below Max and leaves the count unchanged on refusal. |
| `SequentialLimiter.RateLimiterAtomic.DialogRPSLimit` | rate_limiter.go:95-115 | One call's effect on timestamp and counter, and its answer. |
| `SequentialLimiter.RateLimiterAtomic.Block` | rate_limiter.go:119-132 | A granted wait uses exactly one admission, its last try; a cancelled or unfinished wait uses none. |
| `Rings.SlotAfter` | cdr_storage.go:72-87 | After any writes each slot holds the newest write that landed on it, or is untouched. |
| `Rings.PutAllSpares` | cdr_storage.go:248-258 | A slot survives as many writes as lie between the write position and it. |
| `CdrStorage.CdrMemoryStorage.CDRWrite` | cdr_storage.go:72-87 | The record, with its rendered time filled in, is appended to the history the ring represents. |
| `CdrStorage.CdrMemoryStorage.CDRRead` | cdr_storage.go:89-133 | The buffer holds, newest first and as far as it reaches, exactly the reachable records before the first unset one whose caller, callee and call ID contain what was asked for and whose start lies in the period; the rest is untouched. |
| `CdrStorage.MatchesIff` | cdr_storage.go:102-126 | The filter, field by field. |
| `CdrStorage.NewestMatchesMeaning` | cdr_storage.go:94-130 | The walk finds exactly the places that pass and lie before the first unset record, from the newest down. |
| `CdrStorage.ReadFindsReachable` | cdr_storage.go:94-130 | After k writes the read works on exactly the last ((k-1) mod N) + 1 records. |
| `CdrStorage.ReadIsExactUntilFull` | cdr_storage.go:94-130 | Up to N records with start times, the read is the whole history filtered and reversed. |
| `CdrStorage.NewestMatchesIsReversedFilter` | cdr_storage.go:94-130 | With start times set, the walk yields the filtered records in reverse order. |
| `CdrStorage.ReachIsWholeIff` | cdr_storage.go:94-96 | The read reaches all that is stored if and only if the ring has not wrapped or has just wrapped. |
| `CdrStorage.FilterIsAsAskedIff` | cdr_storage.go:124-126 | The filter agrees with one that tests the originator, on every record, if and only if no originator is given or the period lets nothing through. |
| `CdrStorage.ReadsAreAsAskedIff` | cdr_storage.go:89-133 | Under exactly that condition every walk over every stored history yields what was asked for. |
| `TraceStorage.SipTracerMemoryStorage.WriteTrace` | cdr_storage.go:248-258 | One circular write. |
| `TraceStorage.SipTracerMemoryStorage.SIPTraceFind` | cdr_storage.go:260-271 | Deliveries and final ring of a scan with any writes during each callback. |
| `TraceStorage.DeliveriesAscend` | cdr_storage.go:264-270 | Deliveries come in slot order, so at most N callbacks and none twice for a slot. |
| `TraceStorage.DeliveredIff` | cdr_storage.go:264-268 | A trace is delivered from a slot exactly when the slot holds it at the moment it is read and it matches. |
| `TraceStorage.SlotIsReadOnce` | cdr_storage.go:260-271 | A slot is read after exactly what was written during the callbacks for earlier slots, and is delivered next if and only if one of its call IDs then is the one searched. |
| `TraceStorage.RingAfterScan` | cdr_storage.go:260-271 | The search leaves the ring with all that was written during its callbacks and nothing else. |
| `TraceStorage.StableTraceIsDeliveredOnce` | cdr_storage.go:260-271 | A matching trace that keeps its slot is delivered exactly once, whatever is written meanwhile. |
| `TraceStorage.FewWritesDeliver` | cdr_storage.go:248-271 | A matching trace further ahead of the write position than the number of traces written during the scan is delivered. |
| `Registrar.AuthorizeRegister` | registrar.go:318-397 | Succeeds, sending nothing, if and only if the token was accepted or the digest reply (the second after a missing challenge) is a 200 without error; else sends exactly one status: 503, 401, 404 or the reply's own. |
| `Registrar.RefusalStatus` | registrar.go:66-261 | Why a request is refused, by its fields: 400, 403, 400, the authorization's status, 400 or 423, in this order. |
| `Registrar.GatherContacts` | registrar.go:157-212 | The contact loop computes the gathered contacts and expiry, or reports a malformed value. |
| `Registrar.GatherMeaning` | registrar.go:161-212 | Kept contacts are the non-zero ones in order, the expiry is the least of header and explicit values, and it is malformed exactly when an explicit value does not parse. |
| `Registrar.StoredBindingMeaning` | registrar.go:222-241 | A stored binding holds the contacts not marked 0, in order, and the least of header (or one hour) and their own expiries, never under 30 seconds, with user, call ID, source and transport of the request. |
| `Registrar.AcceptedIff` | registrar.go:66-261 | Accepted if and only if complete, for this host, well-formed and authorized, and either a removal or with every expiry at least 30 seconds. |
| `Registrar.RemovedIff` | registrar.go:144-154 | A binding is removed if and only if an admissible request has Expires 0 and the lone wildcard; any other Expires 0 is refused. |
| `Registrar.RegisterHandler` | registrar.go:66-261 | Exactly one response on every path; the registry changes as decided, only with a 200 and only for an authorized request. |
| `Registrar.RegIdIsInjective` | registrar.go:263-265 | For one host, different users have different registry keys. |
| `Registrar.RegIdIsInjectiveInBoth` | registrar.go:263-265 | Over all hosts, users without an @ in their name have different keys for different users or hosts. |
| `Registrar.ResolutionFollowsLastAnswered` | pbx.go:1095-1125 | After any sequence of REGISTERs the URI resolved for a user is what that user's last 200-answered request alone says. |
| `Registrar.ChangesOnlyItsOwnIff` | registrar.go:115-142 | Over all registries, a request changes no binding but that of the user it was authorized as, if and only if it is refused or names that user in To. |
| `Registrar.AnothersBindingIsWritten` | registrar.go:115-142 | For any two users, an accepted request authorized as one that writes the binding of the other. |
| `Registrar.OwnRequestsDecide` | registrar.go:115-142 | If no request changes another's binding, every user is resolved to what their own last accepted request says. |
| `Registrar.EndpointResolveRegisteredURI` | pbx.go:1095-1125 | Reads the registry as the resolution function does. |
| `CallResolution.RegistryRouteDialsTheCallee` | pbx.go:1057-1093 | A call over a registry route is dialled where the callee's own last accepted REGISTER says, across router, endpoint and registry. |
| `CallResolution.PlainEndpointIsDialled` | pbx.go:1067-1093 | Otherwise an endpoint's own URI is dialled, else a user's last accepted registration, else the flow, else the general outbound address. |
| `FlowConnections.ConnectionSlice.Add` | flow_rpc.go:164-195 | A full slice refuses; otherwise the connection is appended in place and the capacity stays. |
| `FlowConnections.ConnectionSlice.Delete` | flow_rpc.go:76-86 | Deleting in the shared array while ranging over it removes exactly the target and keeps the order of the rest, for any length. |
| `FlowConnections.ListsHoldLiveConnections` | flow_rpc.go:76-195 | After any connects and disconnects each list is duplicate-free, at most two long and holds exactly the live connections. |
| `FlowConnections.AdmittedIff` | flow_rpc.go:158-193 | After any events a connection is admitted if and only if its endpoint is configured, it upgrades, and no two others of the endpoint are live. |
| `FlowTransactions.ReturnedCallsAreAnswered` | flow_rpc.go:404-458 | In every interleaving a successful call returns an arrived final response for its own ID, the first its channel was offered, and a returned call leaves no entry. |
| `FlowTransactions.EntriesAreCallsInProgress` | flow_rpc.go:428-438 | The registered callbacks are exactly those of calls still in progress. |
| `FlowTransactions.ArrivedResponseIsReturned` | flow_rpc.go:301-316 | Once a final response has arrived for an undisturbed call, the first one is its result, or is in its channel or callback with the next step open. |
| `FlowTransactions.FailsIffGivenUp` | flow_rpc.go:445-455 | A call ends in an error if and only if it was given up. |
| `FlowRecording.RoundTripIff` | flow_rpc.go:666-672 | A recording decodes to its request ID and audio if and only if the ID's length fits 32 bits. |
| `FlowRecording.EncodeIsBigEndian` | flow_rpc.go:670-670 | The four length bytes are the digits of base 256, most significant first. |
| `FlowRecording.RecordBuffer.Write` | flow_rpc.go:878-896 | A frame is kept whole or not at all, and the error says whether room remains. |
| `FlowRecording.WritesKeepTheFirstFrames` | flow_rpc.go:878-896 | For frames of one length the buffer keeps what it held and the first frames that fit, in order. |
| `FlowRecording.Record` | flow_rpc.go:666-722 | The three panic checks hold, and the result is the header followed by the audio, raw or as WAV. |
| `FlowRecording.AppendInPlace` | flow_rpc.go:721-721 | Appending behind the metadata keeps it, whether the memory is reused or replaced. |
| `FlowRequests.AnsweredIff` | flow_rpc.go:551-850 | Whatever its library calls do, a request gets provisional responses and then one final one, if and only if it does not get to missing media; otherwise provisional ones only. |
| `FlowRequests.OperationOutcome` | flow_rpc.go:551-816 | For all outcomes of its calls, with or without media: the codes sent are the first of the operation's provisional codes, all of them iff nothing fails before the last; it panics iff it gets to missing media; it ends as its arguments decide iff no call fails and its media is there. |
| `FlowRequests.AnswerMeaning` | flow_rpc.go:818-850 | The final code by operation and outcomes: 400 iff refused, 500 iff unknown, else 200 when all goes well; 499, 487 or 500 by the first error; and whether the loop goes on and where the call is redirected. |
| `FlowRequests.OneOfThree` | flow_rpc.go:551-850 | Every request goes well, fails at a first call, or gets to missing media. |
| `FlowRequests.ListenWithoutMedia` | flow_rpc.go:632-658 | A recording asked for without media is never answered. |
| `FlowRequests.RedirectIsConfigured` | flow_rpc.go:792-810 | A redirect target is a configured endpoint that is not a flow. |
| `FlowDialog.DialogAnswersInOrder` | flow_rpc.go:544-851 | In every run requests are taken in queue order, at most ten wait, each is answered in turn unless it panics, and any redirect is to a configured non-flow endpoint. |
| `FlowDialog.OnlyListenPanics` | flow_rpc.go:575-790 | If the dialog is confirmed only once a request has answered it, a request panics if and only if it is a listen within limits before any answer whose first two calls succeed. |
| `FlowDialog.EachRequestGetsItsCode` | flow_rpc.go:544-851 | In any series each request that does not panic ends with that final code and leaves the loop accordingly. |
| `FlowDialog.ReaderWaitsIff` | flow_rpc.go:352-365 | In every run the reader can queue a request unless ten are waiting. |
| `FlowDialog.TakesNextIff` | flow_rpc.go:487-495 | In every run a waiting request can be taken if and only if nothing has ended the loop. |
| `FlowDialog.DialogStopsAtTheFirstEnd` | flow_rpc.go:818-848 | The loop stops exactly at the first exit, library error or panic, or when its context ends. |
| `FlowServer.ServerDialog.Operate` | flow_rpc.go:551-816 | The operation switch, as code over the media and wire variables, sends what its script says and ends as it says. |
| `FlowServer.ServerDialog.Conclude` | flow_rpc.go:818-850 | Each of the six write sites appends its own response, as the error is classified; what the codes mean is `FlowRequests.AnswerMeaning`. |
| `FlowServer.ServerDialog.ServeRequest` | flow_rpc.go:544-851 | One turn extends the wire by an answer if and only if no media was missing; its last code, whether the loop goes on and the redirect are those of the operation and its first failure. |
| `FlowServer.ServerDialog.Serve` | flow_rpc.go:544-851 | The loop serves a prefix of the requests, up to the first that ends it, with the wire, media and redirect of the semantics. |
| `Fallback.IsInviteErrFallback` | pbx.go:995-1008 | Eligible exactly on a configured status or an enabled timeout. |
| `Fallback.InviteFallback` | pbx.go:1010-1055 | A prefix of the endpoints is tried, all but the last failing eligibly; every dialog created is closed exactly once except the one handed back. |
| `MediaStats.DialogMediaStats.OnReadRTCP` | pbx.go:1187-1222 | Each report is added to the history the fields summarize. |
| `MediaStats.DialogMediaStats.Score` | pbx.go:392-406 | The score as the fields give it; answered, it is in (-1.1, 0.9], and 0.9 exactly when no sample and no jitter ever reported exceeded its limit. |
| `MediaStats.StatsSummarize` | pbx.go:1187-1222 | Over any reports the RTT extremes are those of the positive samples, zero if none, and the jitter is the maximum. |
| `MediaStats.JitterMeaning` | pbx.go:1204-1208 | Jitter is the timestamp units at the sample rate, 8000 if missing, in whole nanoseconds. |
| `MediaStats.ScoreRange` | pbx.go:392-406 | An answered call scores in (-1.1, 0.9], and 0.9 exactly when RTT is at most 20 ms and jitter at most 10 ms. |
| `MediaStats.ScoreParts` | pbx.go:392-406 | Beyond 20 ms and 10 ms a figure costs its limit divided by it, the costs add up, and an unanswered call has 0.9 less. |
| `MediaStats.PerfectScoreIff` | pbx.go:392-406 | The score is 0.9 exactly when no sample and no jitter ever exceeded its limit. |
| `MediaStats.LongerTripScoresNoHigherIff` | pbx.go:398-400 | A longer round trip scores no higher if and only if the shorter one was within the limit. |

## Left out

- NormalizeTransport: trims ASCII blanks and folds ASCII letters only; Unicode white space is not modelled.
- Precedence.ScanIsRight: takes the file order as duplicate-free, which YAML mapping keys are.
- Routing.NamesListEachOnce: takes the file order as duplicate-free, which YAML mapping keys are; `yamlMappingKeys` itself is not modelled.
- MediaStats.JitterOf: integer division replaces the floating-point conversion, so rounding is not modelled.
- Registrar.ResolutionFollowsLastAnswered: assumes that the digest library reports an error only with a status other than 200.
- Registrar.RegisterHandler: the response headers of the 200, and a store whose set fails with 500, which the memory store never does.
- RateLimiter.RateLimitHolds: counters are unbounded integers, so 64-bit wrap-around is not modelled.
- FlowDialog.DialogAnswersInOrder: starts after the agent accepted the invite; failed writes, the reader's own 404 and 429 replies and `:requestCancel` are not modelled.
- FlowRequests.AnsweredIff: a method call on missing media is taken to panic and a panic to end the loop; what is deferred then is not modelled.
- FlowServer.ServerDialog.Operate: the listen operation's recording is its outcome here; its bytes are in `FlowRecording`.
- ConfigLoading.Load: works on values, so a configuration left half filled in by a failing load is not modelled.
- Media bridging, recording files, the HTTP pages, STUN, TLS, metrics and startup wiring.
- Dialog caches and re-INVITE after a restart: file and JSON handling.
- JSON path lookup and header masking of the bearer client, provider defaults, response reasons: only easy members.
- Removal of one contact from a stored binding, which nothing calls on the paths modelled.
- Digest and bearer authorization of INVITEs: a decision by library outcome with nothing further to prove.
