# Gateway console: verified core

A Dafny model of the parts of the Livepeer gateway console that carry real
invariants, with proofs about them. `dafny verify dfyconfig.toml` checks the whole
project.

| file | what it models |
|---|---|
| `CacheMachine.dfy`, `TtlCache.dfy` | the single-flight TTL cache of the routing service, as a step machine and as the object with shared entries |
| `Enrichment.dfy`, `Roster.dfy`, `RosterLive.dfy` | the cached getters, two of which load through the cache themselves, and `listOrchs` on top of them: what it returns, and that it returns |
| `PoolWalk.dfy` | the BondingManager linked-list walk |
| `AuditPoll.dfy`, `AuditPollWorker.dfy` | the audit-poll worker, as a step machine and as the object |
| `MirrorOnce.dfy`, `MirrorLoss.dfy`, `MirrorRead.dfy` | how often its watermark protocol mirrors an event of the resolver's log, when it loses one, and what the drilldown reads back |
| `Utf8.dfy`, `Wire.dfy`, `Registry.dfy`, `RegistryTheorems.dfy`, `Nesting.dfy`, `WireLayout.dfy`, `AuditLogRequest.dfy`, `WireIO.dfy`, `RegistryIO.dfy` | the protobuf codec of the registry messages and of the audit-log request |
| `Paging.dfy` | cursor paging of the console's own audit log while rows are appended |
| `Digits.dfy`, `Wei.dfy` | wei amounts from daemon bytes to displayed ETH |
| `LayerCheck.dfy` | the layer lint rule |

## How the code is modelled

Asynchronous code is cut at its awaits. Each uninterrupted stretch is one step of a
value-level state machine, and a class whose fields are the source's variables has one
method per stretch, proved to perform exactly that step. Theorems quantify over every
run of the machine, so over every interleaving.

- *Cache.* Steps are a call, a load succeeding, a load failing and the clock moving
  forward. Loaders settle asynchronously, as all loaders of the repository do (one that
  threw before its first await would leave a rejected entry stored until expiry). Keys
  are the source's strings. `lag` is the time that passes between the two clock
  readings of a nested getter.
- *Chain.* Reads are arbitrary for the staleness results. For the roster they are a
  fixed function of their arguments; any read except a service-URI read may in addition
  fail at any time. `None` stands for a thrown error.
- *Audit poll.* `getAuditLog` may answer with anything or fail; constraints on the daemon
  are stated as hypotheses (`Honest`, `OnlyFrom`, `CompleteFrom`, `OrderlyLog`). The
  SQLite insert runs inside the stretch that issues it and is all or nothing; the tick
  is then suspended once more, whether the insert happened or threw. One process
  lifetime is modelled, because the watermark is in memory.
- *Codec.* `BinaryReader` and `BinaryWriter` are not part of the repository; their
  primitives follow the Protocol Buffers Encoding guide (sections "Base 128 Varints",
  "Signed Integers", "Length-Delimited Records"). Reads are bounded by the whole buffer,
  not by the end of the nested message, as in the generated loops. A string that is
  not valid UTF-8 is a read error. Lengths are below 2^32.
- *SQL.* `order by observed_at desc` leaves rows of equal date in any order: the results
  hold for every listing the query may return (`IsListing`).
- `toLowerCase` is modelled on ASCII letters, which is what addresses contain.
- *Lint.* Regular expressions are stated on the components that `split("/")` gives.

## Where the code is not what its documentation or a reader expects

The model follows the code in each case.

- `auditPoll.ts` says the watermark moves to the newest event plus one, so that later
  answers hold newer rows only. It does not move when the newest event equals the
  watermark, and until a newer event moves it such an event is inserted again by every
  tick that is answered with it (`MirrorOnce.WatermarkEventRepeats`, a run of the
  worker). A complete answer inserts an
  already mirrored event again exactly when the watermark stands on its timestamp
  (`MirrorOnce.AnswerReinsertsExactly`), and over whole runs that is the only way to a
  duplicate (`MirrorOnce.DuplicatesInRunsExactly`).
- The same step past the newest event can skip others. An event of the same millisecond
  that was logged after the read, or cut off by the fetch limit, is lost
  (`MirrorLoss.FirstTickLosesExactly`), for good (`MirrorLoss.LossIsPermanent`). A tick
  loses an event exactly when its answer leaves the event out and holds one to mirror
  that is stamped no earlier and past the watermark (`MirrorLoss.AnswerLosesExactly`);
  over whole runs nothing else is lost (`MirrorLoss.LostInRunsExactly`). An answer that
  is cut off and holds only earlier events loses nothing.
- `lastObservedAt` can be ahead of the watermark (`MirrorRead.InsertRunsAhead`): exactly
  while a tick that has inserted a newer event of that orch has not ended
  (`MirrorRead.ExceedsWatermarkExactly`).
- The cache is described as single-flight. A load that fails after its expiry removes
  the entry of the load that replaced it, so two unexpired loads of a key can overlap
  (`CacheMachine.LateFailureRun`). A failure lets the next call overlap exactly when
  another load of the key is in flight and unexpired
  (`CacheMachine.LateFailureOverlaps`).
- `getServiceUri` caches under the lower-case address but reads with the caller's
  spelling, so two spellings share one read (`Roster.SpellingsShareOneRead`);
  `Roster.UrisAreOwnExactly` says when that matters: never with a ttl of 0.
- `getOrch` queries the mirror with the address as given, while the mirror stores lower
  case: a mixed-case address finds nothing (`MirrorRead.MixedCaseFindsNothing`);
  `MirrorRead.DrilldownFindsExactly` says when the answer is still right.
- A generated decoder passes a nested message's length but nothing holds the nested loop
  to it: after a zero tag it stops short, and the outer loop reads the rest as its own
  fields (`Nesting.RestIsReadOutside`). `Nesting.OfferingEndsExactly`,
  `Nesting.CapabilityEndsExactly` and `Nesting.NodeEndsExactly` say on which bytes a
  message ends where its length says.
- The lint message says a layer may import only layers strictly below it. The rule also
  accepts imports of its own layer, in every layer (`LayerCheck.OwnLayerIsAccepted`);
  between ranked files it reports exactly the imports of a higher layer, so it keeps the
  documented rule exactly when the two layers differ
  (`LayerCheck.UpstreamReportedExactly`).
- Its cross-domain check looks at the text of the import only
  (`LayerCheck.CrossDomainFollowsText`). Of two spellings that lead to the same file of
  another service domain, the one through `src` is reported and the one that climbs just
  to `service` is not (`LayerCheck.CrossDomainReportedExactly`).

## Model

| member | source | states |
|---|---|---|
| `CacheMachine.RunKeepsValid` | src/service/routing/index.ts:237-275 | in every reachable state each stored entry belongs to the newest load of its key and is still loading or holds its own loader's value, never a failure |
| `CacheMachine.RunIsLater` | src/service/routing/index.ts:253-271 | along any run no load is re-dated or re-keyed and no settled outcome changes |
| `CacheMachine.OutcomeExactly` | src/service/routing/index.ts:257-271 | in every run from the empty cache a load holds value v exactly when its loader returned v, failure exactly when it threw, and is in flight otherwise, whatever the store maps its key to |
| `CacheMachine.CallerIsAnswered` | src/service/routing/index.ts:246-274 | every call is handed, at any later point of any run, exactly what the load serving it has returned or thrown by then |
| `CacheMachine.ServedIsRecent` | src/service/routing/index.ts:246-273 | a call is served by a load of its own key begun at the call or less than the ttl before it |
| `CacheMachine.ValueIsRecent` | src/service/routing/index.ts:246-274 | whatever value the call ends up with, at any later point of any run, came from such a load |
| `CacheMachine.LoadBudget` | src/service/routing/index.ts:246-273 | over any stretch of any run, a key is loaded at most 1 + elapsed/ttl + failures times, even with loads that outlive their ttl and late failures that delete newer entries |
| `CacheMachine.BudgetIsTight` | src/service/routing/index.ts:246-273 | the budget is attained: a caller who comes back every ttl starts a load every time |
| `CacheMachine.SingleFlight` | src/service/routing/index.ts:249-272 | if every load settles before its expiry, no key ever has two loads in flight |
| `CacheMachine.RetiredIsNeverServed` | src/service/routing/index.ts:248-252 | a load that has expired or lost its entry serves no call of any later run |
| `CacheMachine.LateSuccessIsInvisible` | src/service/routing/index.ts:259-263 | a success arriving after its load was retired leaves every later run and every later call's answer the same |
| `CacheMachine.LateFailureOverlaps` | src/service/routing/index.ts:264-269 | in any state, a failing load lets the next call for its key overlap an unexpired load exactly when another load of that key is in flight and unexpired |
| `CacheMachine.FirstOverlapIsTheft` | src/service/routing/index.ts:264-269 | where only stored loads are unexpired and in flight, that is exactly when the failure deletes another load's entry and that load is in flight and unexpired |
| `CacheMachine.NoOverlapWithoutTheft` | src/service/routing/index.ts:249-272 | however late loads settle, unexpired loads of a key overlap only if some failure removed another load's entry |
| `CacheMachine.FromTheEmptyCache` | src/service/routing/index.ts:237-275 | from the empty cache on, entries belong to the newest load of their key, prompt settling gives single flight, and without such deletions unexpired loads never overlap |
| `CacheMachine.LateFailureRun` | src/service/routing/index.ts:264-272 | a run from the empty cache in which a late failure makes two unexpired loads of one key overlap |
| `CacheMachine.FailureIsNotCached` | src/service/routing/index.ts:264-273 | after a failure, and until somebody calls for the key, a call starts a fresh load |
| `TtlCache.Cache.GetOrLoad` | src/service/routing/index.ts:246-274 | the call's synchronous part is the machine's call step; it answers at once only with the value of a loaded load, otherwise with the entry of a loading one |
| `TtlCache.Cache.LoadSucceeded` | src/service/routing/index.ts:260-263 | a success settles its own captured entry with the value, wherever the store points, and writes nothing else |
| `TtlCache.Cache.LoadFailed` | src/service/routing/index.ts:264-268 | a failure rejects its own entry's promise and deletes whatever its key maps to |
| `Enrichment.StepIsCacheRun` | src/service/routing/index.ts:55-84 | every getter step is a run of the cache, so all results about cache runs hold of the service |
| `Enrichment.RunKeepsInv` | src/service/routing/index.ts:55-84 | every load is performed by a loader of its key, and what a nested loader awaits is a load of the right key that was within the ttl when it began |
| `Enrichment.OutcomeFollows` | src/service/routing/index.ts:55-84 | along any run of the service each load ends with exactly the outcome its loader had |
| `Enrichment.LoadersEnd` | src/service/routing/index.ts:55-84 | which loaders may throw, and when each may end: nested ones after the load they await, service-URI reads never by their own read |
| `Enrichment.StalenessComposes` | src/service/routing/index.ts:55-71 | for every ttl, 0 included, the stake map or service URI a call obtains was loaded at the call or within the ttl before it, and the contract address behind it no earlier than the call or within twice the ttl |
| `Prelude.ToLowerIs` | src/service/routing/index.ts:170-178 | capital letters become their small letters and nothing else changes |
| `Roster.PoolEntriesToStakeMap` | src/service/routing/index.ts:170-178 | the loop builds the stake map |
| `Roster.StakeMapMeans` | src/service/routing/index.ts:170-178 | an address is in the map exactly when it is on the list ignoring case, with the stake of the last such entry, its own if no address is listed twice |
| `Roster.RunKeepsAgreed` | src/service/routing/index.ts:55-84 | against a fixed chain every loaded value equals what its loader computes without a cache |
| `Roster.CachedRosterIsPlain` | src/service/routing/index.ts:87-108 | with a ttl of 0, or reads that do not tell spellings apart, from any reachable state and with anything interleaved, `listOrchs` returns, when it returns, the rows of the uncached computation in `listKnown` order |
| `Roster.PlainRowsMean` | src/service/routing/index.ts:87-108 | the uncached roster exists exactly when the contract's links end within 1000 entries; each row, in order, is active exactly when its address is on that path ignoring case, shows the amount delegated to it, and its URI is its own read at the configured registry, else at the controller's, null when that read reverts or is empty |
| `Roster.CachedRosterTells` | src/service/routing/index.ts:60-108 | the same of every row of a roster returned from the cache |
| `RosterLive.RosterReturnsExactly` | src/service/routing/index.ts:87-93 | at any ttl and with anything interleaved, `listOrchs` has returned exactly when each load serving it has been told a value |
| `RosterLive.RosterCanReturn` | src/service/routing/index.ts:87-93 | when the pool walk ends, a call of `listOrchs` can return from every reachable state in which no load in flight awaits a failed one, and with a ttl of 0 from every reachable state |
| `Roster.SpellingsShareOneRead` | src/service/routing/index.ts:73-84 | a run in which a call for one spelling is handed the read of another spelling |
| `Roster.UrisAreOwnExactly` | src/service/routing/index.ts:73-84 | in every run every call is answered with the read of its own spelling exactly when nothing is cached (ttl 0) or the read does not tell spellings apart |
| `PoolWalk.ListPool` | src/providers/chain/viem.ts:189-234 | the loop terminates and returns the path to the zero address when that takes at most 1000 entries, and throws otherwise |
| `PoolWalk.WalkIsThePath` | src/providers/chain/viem.ts:189-234 | it returns exactly when the contract's links lead to the zero address within 1000 entries, and then yields the addresses of those links in order, pairwise distinct, each with its own delegated amount in decimal |
| `PoolWalk.CycleThrows` | src/providers/chain/viem.ts:197-204 | any cycle makes the walk throw |
| `AuditPoll.SerialEquivalence` | src/runtime/workers/auditPoll.ts:47-112 | in every interleaving at most one tick is past the guard, and table and watermark are those of the admitted ticks run one after another, failed ones changing neither |
| `AuditPoll.RecordedIsSerial` | src/runtime/workers/auditPoll.ts:69-74 | also between an insert and the end of its tick the table is the one of the ticks recorded so far, that tick included, run one after another |
| `AuditPoll.TickEnds` | src/runtime/workers/auditPoll.ts:51-86 | in every run, a refusal, an answer with nothing to mirror, or a resumption frees the guard, and the next call, by hand or timer, is admitted and asks from the watermark |
| `AuditPoll.GuardTurnsAway` | src/runtime/workers/auditPoll.ts:51-52 | while a tick is past the guard another call changes nothing |
| `AuditPoll.GuardComesDown` | src/runtime/workers/auditPoll.ts:47-86 | at every moment of every run one event is enough to free the guard |
| `AuditPoll.AnswerIsInserted` | src/runtime/workers/auditPoll.ts:60-75 | an answer with something to mirror appends exactly its orch-bearing, dated events and leaves guard and watermark until the tick resumes |
| `AuditPoll.FailedInsertLeavesNoTrace` | src/runtime/workers/auditPoll.ts:69-86 | a failed insert leaves table and watermark, and frees the guard when the tick resumes |
| `AuditPoll.QuietTick` | src/runtime/workers/auditPoll.ts:47-86 | an undisturbed tick answered with one event appends it and moves the watermark to one past it if it is newer |
| `AuditPoll.TableOnlyGrows` | src/repo/routingObservations.ts:15-21 | along any run the table is only appended to |
| `AuditPoll.KeptConcat` | src/runtime/workers/auditPoll.ts:61-67 | rows are collected in the order of the answer |
| `AuditPoll.FiresOnlyAfterStart` | src/runtime/workers/auditPoll.ts:89-109 | the timer can fire only after a start with a positive interval, and not after a stop until the next start |
| `AuditPoll.TimerOnlyCalls` | src/runtime/workers/auditPoll.ts:89-109 | in every state a stop makes firing impossible, a start makes it possible if the interval is positive, and a firing is a call of `tick` |
| `AuditPoll.WatermarkNeverFalls` | src/runtime/workers/auditPoll.ts:72-74 | the watermark never decreases or resets |
| `MirrorOnce.TwiceOnlyAtWatermark` | src/runtime/workers/auditPoll.ts:54-74 | an event enters at two ticks only if it is stamped exactly with the watermark in force at both |
| `MirrorOnce.ReinsertedExactly` | src/runtime/workers/auditPoll.ts:54-74 | a complete answer brings back an already mirrored event exactly when the watermark asked from is its timestamp |
| `MirrorOnce.DuplicatesExactly` | src/runtime/workers/auditPoll.ts:54-74 | under complete answers an event is in the table more than once exactly when some completed tick found it mirrored, still logged, and the watermark standing on its timestamp |
| `MirrorOnce.DuplicatesInRunsExactly` | src/runtime/workers/auditPoll.ts:47-86 | the same at every moment of every interleaved run of the worker |
| `MirrorOnce.AnswerReinsertsExactly` | src/runtime/workers/auditPoll.ts:54-74 | in every run, the answer to the waiting tick inserts an already mirrored event again exactly when the worker's watermark stands on its timestamp |
| `MirrorOnce.AtMostOnceInRuns` | src/runtime/workers/auditPoll.ts:47-86 | at every moment of every run, answers complete or not, an event in the table more than once was mirrored by two ticks that both asked from its own timestamp |
| `MirrorOnce.WatermarkEventRepeats` | src/runtime/workers/auditPoll.ts:61-74 | a run of the worker from its initial state in which an event stamped on the watermark is mirrored n times, for every n, and the watermark never passes it |
| `MirrorLoss.NothingLostExactly` | src/runtime/workers/auditPoll.ts:60-75 | a complete answer leaves nothing out exactly when every unmirrored event is stamped at or after the watermark |
| `MirrorLoss.NoLoss` | src/runtime/workers/auditPoll.ts:60-75 | with complete answers from a log stamped in order, after each successful tick the mirrored events are exactly the orch-bearing, dated events of the log as read |
| `MirrorLoss.NoLossInRuns` | src/runtime/workers/auditPoll.ts:47-86 | the same at every moment of every interleaved run of the worker |
| `MirrorLoss.AnswerLosesExactly` | src/runtime/workers/auditPoll.ts:54-74 | in every run, the waiting tick, answered completely or not, puts the watermark past an event that is not mirrored exactly when the answer leaves it out and holds an event to mirror stamped no earlier and past the watermark |
| `MirrorLoss.FirstTickLosesExactly` | src/runtime/workers/auditPoll.ts:60-74 | a run from the initial state: a first answer of one event loses every other event stamped no later, logged late or cut off, and no event stamped later |
| `MirrorLoss.LossIsPermanent` | src/runtime/workers/auditPoll.ts:54-74 | an event that is not mirrored when the watermark is past its timestamp is not mirrored in any later run whose answers respect `since` |
| `MirrorLoss.LostInRunsExactly` | src/runtime/workers/auditPoll.ts:47-86 | at every moment of every run, the events lost are exactly those that some completed tick found not mirrored and was answered past |
| `AuditPollWorker.Worker.Tick` | src/runtime/workers/auditPoll.ts:47-58 | the guard admits a tick exactly when none is in flight, and it asks from the watermark |
| `AuditPollWorker.Worker.Collect` | src/runtime/workers/auditPoll.ts:60-67 | the loop collects the rows of the orch-bearing, dated events and their newest timestamp |
| `AuditPollWorker.Worker.OnAnswer` | src/runtime/workers/auditPoll.ts:60-86 | an answer with rows inserts them, or fails to, and keeps the guard; one without rows ends the tick and frees it |
| `AuditPollWorker.Worker.OnRefused` | src/runtime/workers/auditPoll.ts:76-85 | a failed request changes neither table nor watermark and frees the guard |
| `AuditPollWorker.Worker.OnResume` | src/runtime/workers/auditPoll.ts:72-85 | the resumed tick moves the watermark past its newest event and frees the guard |
| `AuditPollWorker.Worker.OnInsertFailed` | src/runtime/workers/auditPoll.ts:76-86 | a tick resumed after a failed insert leaves table and watermark and frees the guard, only then |
| `AuditPollWorker.Worker.Start` | src/runtime/workers/auditPoll.ts:89-103 | starting twice, or with no interval, changes nothing |
| `AuditPollWorker.Worker.Stop` | src/runtime/workers/auditPoll.ts:104-109 | stopping clears the timer and leaves a running tick alone |
| `MirrorRead.ListRecentIsListing` | src/repo/routingObservations.ts:26-39 | filter, sort and limit give distinct rows of the orch, newest first, none left out while an older one is listed |
| `MirrorRead.ListingShowsTheEvents` | src/runtime/workers/auditPoll.ts:115-135 | over every run, each listed row shows date, address in lower case, kind, mode and detail of a mirrored event of the orch, and an event is left out only at the limit |
| `MirrorRead.LastObservedIsGreatest` | src/service/routing/index.ts:110-127 | over every run of the worker, `lastObservedAt` of a lower-case address is the greatest timestamp ever mirrored for that orch, and does not exceed the watermark while no tick stands between its insert and its end |
| `MirrorRead.ExceedsWatermarkExactly` | src/runtime/workers/auditPoll.ts:69-74 | over every run, it exceeds the watermark exactly when a tick between its insert and its end has inserted an event of that orch stamped past the watermark |
| `MirrorRead.InsertRunsAhead` | src/runtime/workers/auditPoll.ts:69-74 | a run with a watermark in place in which `lastObservedAt` is past it |
| `MirrorRead.MixedCaseFindsNothing` | src/repo/routingObservations.ts:32-38 | an address with a capital letter finds no row |
| `MirrorRead.DrilldownFindsExactly` | src/service/routing/index.ts:110-127 | over every run, `lastObservedAt` is right for the orch an address spells exactly when the address is in lower case or nothing of that orch is mirrored |
| `Utf8.RoundTrip` | src/providers/resolver/gen/livepeer/registry/v1/types.ts:255-258 | every string without lone surrogates comes back from its UTF-8 bytes |
| `Utf8.DecodesExactly` | src/providers/resolver/gen/livepeer/registry/v1/types.ts:277-283 | bytes decode to a string exactly when they are its encoding |
| `Utf8.CharBytes` | src/providers/resolver/gen/livepeer/registry/v1/types.ts:255-258 | the bytes of each character are those of section 3 of RFC 3629 |
| `WireLayout.VarintIs` | src/providers/resolver/gen/livepeer/registry/v1/types.ts:274-274 | a varint is the shortest run of seven-bit groups, least significant first |
| `WireLayout.SignedIs` | src/providers/resolver/gen/livepeer/registry/v1/types.ts:499-516 | a negative number is written as its two's complement in 64 bits |
| `WireLayout.IntegersRead` | src/providers/resolver/gen/livepeer/registry/v1/types.ts:524-620 | any varint of at most ten bytes reads as its low bits, signed fields as two's complement |
| `WireLayout.SkipsByVarint` | src/providers/resolver/gen/livepeer/registry/v1/types.ts:309-313 | varint and length-delimited fields are skipped to their end |
| `WireLayout.SkipLengths` | src/providers/resolver/gen/livepeer/registry/v1/types.ts:309-313 | fixed fields are skipped by eight and four bytes, unknown wire types refused |
| `WireLayout.GuideExamples` | src/providers/resolver/gen/livepeer/registry/v1/types.ts:253-267 | the Protocol Buffers Encoding guide's own examples come out byte for byte |
| `Wire.BodySkips` | src/providers/resolver/gen/livepeer/registry/v1/types.ts:309-313 | skipping a well-formed record, nested groups included, ends exactly where the record does |
| `Wire.DecodesByMeaning` | src/providers/resolver/gen/livepeer/registry/v1/types.ts:269-315 | a decode loop whose switch agrees with the meaning of single records decodes any well-formed record sequence to its meaning and stops exactly at its end |
| `Registry.NodeDecodesByMeaning` | src/providers/resolver/gen/livepeer/registry/v1/types.ts:520-622 | decoding any well-formed records of a node, in any order and number, gives what they mean one after another |
| `Registry.NodeMeansMerge` | src/providers/resolver/gen/livepeer/registry/v1/types.ts:483-518 | the records a node encoder writes, applied to any node, give the merge of the two |
| `WireLayout.NodeBytesAre` | src/providers/resolver/gen/livepeer/registry/v1/types.ts:483-518 | a node's bytes are exactly the fields, tags and order that its `encode` writes, capabilities and offerings included |
| `RegistryTheorems.NodeRoundTrip` | src/providers/resolver/gen/livepeer/registry/v1/types.ts:483-622 | every node with in-range fields, whatever its nesting, comes back from its encoding, all of the input used |
| `RegistryTheorems.NodeMerge` | src/providers/resolver/gen/livepeer/registry/v1/types.ts:520-622 | decoding two encodings in a row gives the merge: each later non-default scalar wins, an earlier one stands otherwise, repeated fields concatenate |
| `RegistryTheorems.UnknownRecordsAreSkipped` | src/providers/resolver/gen/livepeer/registry/v1/types.ts:524-620 | any well-formed records of a node decode, or fail, as the same records without those of unknown fields or wrong wire types, which are left out at all three levels of nesting |
| `RegistryTheorems.SameCoreDecodesAlike` | src/providers/resolver/gen/livepeer/registry/v1/types.ts:524-620 | inputs that agree apart from such records decode to the same message or both fail |
| `RegistryTheorems.NodeSurvivesUnknownRecords` | src/providers/resolver/gen/livepeer/registry/v1/types.ts:483-620 | a node's encoding with such records added anywhere, inside its capabilities and offerings too, decodes to the node |
| `RegistryTheorems.NestedCapabilityRoundTrip` | src/providers/resolver/gen/livepeer/registry/v1/types.ts:559-566 | a capability decoded from its length prefix inside a longer buffer comes back and the reader stops exactly at its end |
| `Nesting.OfferingEndsExactly` | src/providers/resolver/gen/livepeer/registry/v1/types.ts:384-422 | on any bytes, a nested offering that decodes ends exactly at its length just when skipping its records one by one does |
| `Nesting.CapabilityEndsExactly` | src/providers/resolver/gen/livepeer/registry/v1/types.ts:269-315 | the same for a nested capability whose offerings do |
| `Nesting.NodeEndsExactly` | src/providers/resolver/gen/livepeer/registry/v1/types.ts:520-622 | a node that decodes, its capabilities and offerings ending at their lengths, uses all of its input just when skipping its records does |
| `Nesting.ZeroTagStopsShort` | src/providers/resolver/gen/livepeer/registry/v1/types.ts:309-311 | a nested payload that starts with a zero byte ends there, whatever its length |
| `Nesting.EndTagStopsShort` | src/providers/resolver/gen/livepeer/registry/v1/types.ts:309-311 | so does one that starts with the end tag of a group |
| `Nesting.RestIsReadOutside` | src/providers/resolver/gen/livepeer/registry/v1/types.ts:520-622 | six bytes that decode to a node with an empty capability and an id taken from that capability's payload |
| `RegistryIO.EncodeOffering` | src/providers/resolver/gen/livepeer/registry/v1/types.ts:371-382 | appends exactly the records of the offering |
| `RegistryIO.EncodeCapability` | src/providers/resolver/gen/livepeer/registry/v1/types.ts:253-267 | appends exactly the records of the capability and leaves the fork stack as it was |
| `RegistryIO.EncodeNode` | src/providers/resolver/gen/livepeer/registry/v1/types.ts:483-518 | appends exactly the records of the node and leaves the fork stack as it was |
| `RegistryIO.DecodeOffering` | src/providers/resolver/gen/livepeer/registry/v1/types.ts:384-422 | the loop computes the decode function, its message, its failure and its final position |
| `RegistryIO.DecodeCapability` | src/providers/resolver/gen/livepeer/registry/v1/types.ts:269-315 | the same for capabilities |
| `RegistryIO.DecodeNode` | src/providers/resolver/gen/livepeer/registry/v1/types.ts:520-622 | the same for nodes |
| `RegistryIO.NodeOverTheWire` | src/providers/resolver/gen/livepeer/registry/v1/types.ts:483-622 | writing a node with the encoder and reading it with the decoder gives it back |
| `AuditLogRequest.TimestampRoundTrip` | src/providers/resolver/gen/livepeer/registry/v1/resolver.ts:1738-1748 | seconds and nanos of every whole-millisecond date add up to it, nanos short of a second and of the date's sign, fit their fields, and give the date back, before 1970 too |
| `AuditLogRequest.TimestampReads` | src/providers/resolver/gen/livepeer/registry/v1/resolver.ts:1744-1748 | any timestamp is read as its whole milliseconds, cut off toward zero |
| `WireLayout.RequestBytesAre` | src/providers/resolver/gen/livepeer/registry/v1/resolver.ts:1135-1146 | a request's bytes are exactly the fields and tags that its `encode` writes, with the one pair of seconds and nanos that adds up to `since` |
| `AuditLogRequest.RequestDecodesByMeaning` | src/providers/resolver/gen/livepeer/registry/v1/resolver.ts:1148-1186 | a request decodes to what its records mean |
| `AuditLogRequest.RequestRoundTrip` | src/providers/resolver/gen/livepeer/registry/v1/resolver.ts:1135-1186 | for every whole-millisecond `since`, 0 included, and every limit, the decoded request is the encoded one |
| `RegistryIO.EncodeTimestamp` | src/providers/resolver/gen/google/protobuf/timestamp.ts:125-136 | appends exactly the records of the timestamp |
| `RegistryIO.DecodeTimestamp` | src/providers/resolver/gen/google/protobuf/timestamp.ts:138-168 | the loop computes the decode function and its final position |
| `RegistryIO.EncodeRequest` | src/providers/resolver/gen/livepeer/registry/v1/resolver.ts:1135-1146 | appends exactly the records of the request |
| `RegistryIO.DecodeRequest` | src/providers/resolver/gen/livepeer/registry/v1/resolver.ts:1148-1186 | the loop computes the decode function and its final position |
| `RegistryIO.RequestOverTheWire` | src/providers/resolver/gen/livepeer/registry/v1/resolver.ts:1135-1186 | writing a request with the encoder and reading it with the decoder gives it back |
| `Paging.NextStretch` | src/repo/auditEvents.ts:29-43 | the page after the shown rows of a snapshot, read from any longer table, is the next stretch of that snapshot |
| `Paging.PagesNeverSkipOrRepeat` | admin-ui/admin/components/admin-audit.js:37-68 | for any interleaving of appends, failed loads and non-overlapping page loads, the shown rows are the newest of the first-page snapshot in order, without gap or repeat; with no cursor, or too few rows for the "Older" button, they are the whole snapshot |
| `Paging.LoadReadsTheTable` | admin-ui/admin/components/admin-audit.js:37-59 | a click sends one request, for the first page or from the cursor, and the server answers from the table it then has |
| `Paging.FirstPageProgress` | admin-ui/admin/components/admin-audit.js:37-44 | a first page shows the newest fifty rows of that table, or all, whatever was shown before |
| `Paging.FailureOnlyMarks` | admin-ui/admin/components/admin-audit.js:45-49 | a failed load changes nothing but its mark, and the page can be clicked again |
| `Paging.ShownFromTheStart` | admin-ui/admin/components/admin-audit.js:20-68 | from a fresh page on, in every run, shown ids fall strictly and the shown rows are exactly the rows of one snapshot of the table at or above the last shown id |
| `Paging.OlderPageProgress` | admin-ui/admin/components/admin-audit.js:51-63 | every older page extends the list by a full page or to the end, and the cursor clears exactly when nothing was left |
| `Paging.AuditPage.Load` | admin-ui/admin/components/admin-audit.js:37-59 | a request is sent unless an older page is asked for without a cursor, from the cursor; with no load under way this is the machine's click step |
| `Paging.AuditPage.Arrived` | admin-ui/admin/components/admin-audit.js:41-62 | a page replaces or extends the list and sets the cursor to its last row; with the server's answer to the load under way this is the machine's delivery step and keeps the shown snapshot |
| `Paging.AuditPage.Failed` | admin-ui/admin/components/admin-audit.js:63-67 | a failed load keeps list and cursor and is the machine's failure step |
| `Wei.BytesPrintTheirValue` | src/providers/payerDaemon/client.ts:102-105 | the daemon's bytes come out as the decimal numeral of their big-endian value |
| `Wei.HexDigits` | src/providers/payerDaemon/client.ts:102-105 | the hex text has two digits a byte, first byte first |
| `Wei.BigEndianIs` | src/providers/payerDaemon/client.ts:102-105 | the first byte counts most |
| `Digits.DecimalDigits` | src/providers/payerDaemon/client.ts:102-105 | each decimal digit is in its place |
| `Digits.NoLeadingZero` | src/providers/payerDaemon/client.ts:102-105 | a numeral has no zero in front of another digit |
| `Digits.DigitValues` | admin-ui/admin/lib/format.js:8-13 | the digits of both bases, in either case, and no other characters |
| `Digits.ParsesDigits` | admin-ui/admin/lib/format.js:8-13 | signed decimal and hexadecimal text is read as its number |
| `Digits.ParsesNothingElse` | admin-ui/admin/lib/format.js:8-13 | and no other text is |
| `Wei.OtherTexts` | admin-ui/admin/lib/format.js:7-13 | a missing amount is shown as a dash, text that is no number as it is |
| `Wei.SplitsTowardZero` | admin-ui/admin/lib/format.js:14-16 | any amount, negative too, splits into whole ETH and a rest of its sign |
| `Wei.FractionDigits` | admin-ui/admin/lib/format.js:16-19 | the remainder plus one ETH always has nineteen digits, and the slice is its first six fractional digits |
| `Wei.FormatShowsTheAmount` | admin-ui/admin/lib/format.js:6-21 | the shown text reads back as the amount rounded down to a millionth of an ETH, with no trailing fractional zero |
| `Wei.DaemonBytesToShownAmount` | src/providers/payerDaemon/client.ts:102-105 | for every byte string the shown amount d satisfies 0 <= v - d * 10^12 < 10^12 |
| `LayerCheck.SplitIsFaithful` | lint/eslint-plugin-livepeer-gateway-console/rules/layer-check.js:29-29 | the component list determines the path, and no component holds a slash |
| `LayerCheck.Resolve` | lint/eslint-plugin-livepeer-gateway-console/rules/layer-check.js:29-38 | the stack loop computes the normaliser |
| `LayerCheck.NormAbsorbs` | lint/eslint-plugin-livepeer-gateway-console/rules/layer-check.js:29-38 | norm(norm(a) + b) = norm(a + b), and normalising is idempotent |
| `LayerCheck.TargetLayerIsFileLayer` | lint/eslint-plugin-livepeer-gateway-console/rules/layer-check.js:11-46 | an import target is classified as the target file classifies itself when two components follow the first `src`; otherwise the file has no layer |
| `LayerCheck.LayerNames` | lint/eslint-plugin-livepeer-gateway-console/rules/layer-check.js:8-23 | the component after the first `src` names one of the eight layers or none; the six ordered ones rank from `types` up to `ui` |
| `LayerCheck.VerdictExactly` | lint/eslint-plugin-livepeer-gateway-console/rules/layer-check.js:63-99 | for every relative import to a file two components below `src`, when each report is made, and that none is otherwise |
| `LayerCheck.FreeImports` | lint/eslint-plugin-livepeer-gateway-console/rules/layer-check.js:63-76 | imports in tests, of packages, in files without a layer such as src/main.ts, and in or of `providers` and `utils` are never reported |
| `LayerCheck.TestNames` | lint/eslint-plugin-livepeer-gateway-console/rules/layer-check.js:63-64 | a test is a file whose name ends in `.test.ts` |
| `LayerCheck.UpstreamReportedExactly` | lint/eslint-plugin-livepeer-gateway-console/rules/layer-check.js:63-87 | a relative import between ranked non-test files is reported as upstream exactly when the target's layer is higher; accepting and lying strictly below coincide exactly when the layers differ |
| `LayerCheck.OwnLayerIsAccepted` | lint/eslint-plugin-livepeer-gateway-console/rules/layer-check.js:63-99 | in every layer an import of the file's own layer is accepted |
| `LayerCheck.AcceptedNeverRises` | lint/eslint-plugin-livepeer-gateway-console/rules/layer-check.js:63-87 | an accepted relative import between ranked non-test files never goes up a layer |
| `LayerCheck.LayeringIsTransitive` | lint/eslint-plugin-livepeer-gateway-console/rules/layer-check.js:63-87 | along any chain of such imports the rank never rises |
| `LayerCheck.ProvidersLetRankRise` | lint/eslint-plugin-livepeer-gateway-console/rules/layer-check.js:74-76 | a chain through `providers` of accepted imports along which the rank rises |
| `LayerCheck.CrossDomainFollowsText` | lint/eslint-plugin-livepeer-gateway-console/rules/layer-check.js:88-99 | between any two service files the rule reports exactly the imports whose text names a service directory other than the importer's own domain |
| `LayerCheck.CrossDomainReportedExactly` | lint/eslint-plugin-livepeer-gateway-console/rules/layer-check.js:88-99 | from a service file at any depth, two spellings lead to the same file, and the import is reported exactly when the domains of the two files differ and the spelling goes through `src` |

## Left out

- gRPC, viem, Fastify, SQLite and pino wiring: replaced by arbitrary environments (log, table, chain).
- Rendering in the Lit components, browser session, router and event helpers: user interface only.
- `fromJSON`, `toJSON`, `create`, `fromPartial`, and the remaining registry, publisher and payments messages: they repeat the codec shape and would only add easy members.
- The rest of `getOrch` beyond `lastObservedAt`: it composes the same getters as `listOrchs` with `resolveByAddress`.
- Floating-point rounding of sub-millisecond timestamps: `FromTimestamp` is exact, and the round trip is for whole milliseconds.
- Replacement of malformed UTF-8 by U+FFFD: a malformed string is a read error here.
- `detailsJson` as JSON text: a row keeps kind, mode and detail as separate values.
- MirrorLoss.NoLoss: assumes complete answers and a log stamped in order; what is lost without them is `MirrorLoss.LostInRunsExactly`. The order in which the daemon fills a limited answer is not part of this model.
- The counts that `runOnce` hands back, and logging: no code but tests reads them.
- Cross-restart deduplication: the watermark is in memory only, so the code provides none.
- `BigInt` literals in octal or binary and surrounding white space in `formatWei`; negative amounts are modelled, but how a negative fraction is shown is not stated, because the daemon's bytes are never negative.
- Bearer and actor parsing, environment schemas, socket checks, enum label mappers, the other lint rules: each is settled by reading one function.
