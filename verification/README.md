# A verified model of NanobarAPI's stateful core

NanobarAPI captures what an application does, turns the captures into regression bricks, and replays
them. Under its web layer sit a lease protocol over an event table, a capture pipeline that must lose
nothing, a type checker with a schema compiler beside it, a rate limiter, and a few small algorithms.
This project models those parts in Dafny and proves what they promise, or exactly when they keep it.

Tables are maps or sequences, clocks are reals read by whole seconds where the SQL does so, payloads are
JSON trees, and each committed transaction is one atomic step. Where the source updates something in
place there is a class whose methods have the source's loops; each method's contract ties the new state to
a function of the old one, and the lemmas are about that function. The protocols are state machines whose
theorems quantify over every run: a sequence of enabled steps, of any length and interleaving. What a
function shared by a method and its contract computes is also said without it: by columns, by cases or by
a relation of its own. For the worker loops (`NanobarWorker.run_once`, `TelemetryDrainWorker.run`) the
method hands back, as a ghost result, the run of the protocol it has performed.

| file | models |
|---|---|
| `OrderedSelect.dfy` | what `SELECT ... ORDER BY ... LIMIT` may answer; used wherever the source queries |
| `EventStore.dfy`, `LeaseProtocol.dfy` | claims, acks and fails under expiring leases, and what every run of them keeps |
| `LeaseLoss.dfy`, `LeaseTiming.dfy`, `LeaseWaiting.dfy`, `Worker.dfy` | exactly what late acks and fails lose; handlers fast enough to lose nothing; how long an event can wait; a worker among others |
| `EventQueue.dfy`, `Drain.dfy`, `DrainWorker.dfy` | bounded queues and the thread that drains them |
| `Telemetry.dfy`, `Generate.dfy`, `BrickContents.dfy`, `Scanner.dfy`, `ScanLoop.dfy` | idempotent ingestion, brick generation and what a brick holds, the scan loop |
| `Binding.dfy`, `Taxonomy.dfy` | binding bricks to nanobars, and what coverage weighs |
| `Json.dfy`, `Validation.dfy`, `Schema.dfy`, `ParsedValue.dfy`, `Reparse.dfy` | the checker, the schema compiler and interpreter, what a parsed value is |
| `Verdict.dfy`, `DiffLines.dfy`, `SortedKeys.dfy` | the structural diff behind a replay verdict, and what its lines say |
| `RateLimit.dfy` | token buckets in a bounded, last-use-ordered dictionary |
| `ShadowSeeds.dfy`, `SeedProtocol.dfy` | seeded shadow rows, their log, crashes and startup sweeps |
| `Lint.dfy`, `LintCheck.dfy`, `SpanNames.dfy` | the banned-name closure and the check it serves, the span-name codec |
| `Options.dfy`, `Collections.dfy` | the optional value, and facts about sequences and sets |

`dafny verify dfyconfig.toml` checks everything.

## What the code does not keep

Some promises of the documentation hold only under a condition. The code is modelled as it is; in each
case a lemma gives an input or a run that breaks the promise, and another says when it is kept.

- Two workers never act on one event (`nanobar_api/eventbus/store.py:195-201`). `ack_event` and
  `fail_event` filter by event id only. A late ack loses nothing, in no run (`AckLosesNothing`); but a worker
  that fails an event after its lease ran out frees the row under the next holder
  (`LateFailBreaksExclusivity`), and a third worker can claim it. A fail leads to two holders in some
  continuation if and only if somebody else holds the event live and it is not processed
  (`FailLosesExactly`). It never comes to that if `claim_limit` handlers, each with its transactions,
  fit into `lease_seconds` (`BoundedHandlersExclude`).
- Every span a `generate_bricks` call attempts is marked processed (`nanobar_api/bricks/generate.py:144-145`).
  An HTTP snapshot whose body does not decode or whose status code is a string, a list or an object, and a
  capture whose type is a list, an object or an integer of more than 64 bits and whose hash is not stored,
  raise out of the call (`RaisesExactly`), and nothing of it is marked. As long as one call can reach the
  whole backlog, such a snapshot keeps every span beside it unprocessed through all scans, crashes and
  deliveries, and so does such a capture while no span that can be stored, there or delivered, has its hash
  (`PoisonBlocksTheChannel`); one suffices (`UndecodableBodyPoisons`, which a client can send, and
  `StringStatusPoisons`). If no storable span shares a hash with one that is not, a scan that can reach
  everything raises if and only if the backlog holds one (`Scan`).
- A scan drains the backlog (`nanobar_api/telemetry/telemetry_scanner_service.py:28-31`). With fewer waiting
  traces than the limit it does if and only if no trace holds more spans than the limit (`Scan`);
  `ScanCanLeaveSome` is an input.
- A compiled schema stands for the type. It forgets a dict's value type (`DictSchemaTakesOtherValues`), and
  lets null through a union with an `Any` arm and no `None` (`UnionSchemaTakesNull`). Of a supported type
  exactly those values are lost that have it read in this lax way and not as written (`SchemaLossExactly`);
  nothing is lost under the conditions of `DictSchemaExact`, `UnionSchemaExact` and `UnionFreeSchemaExact`.
- A tree equals itself: if and only if it shows no NaN (`SameReflexive`; `NaNFailsItsOwnReplay` is an input).
- A parsed value parses back. Under a union it does if and only if the first arm that does not reject the
  dict form makes the same value of it (`UnionRoundTripsExactly`); two dataclasses can get in each other's
  way (`ClassUnionDoesNotRoundTrip`). They do not if and only if the first requires a field that the second
  does not have, or leaves it nothing to take (`TwoClassesExactly`); several come back
  too if of any two the earlier requires a field that the later lacks, and so does one among scalars and
  lists (`ReparseReturnsTheSame`).
- The rate limit holds. A client can be evicted between two of its calls and start anew
  (`EvictionBreaksTheLimit`). It is treated as if never evicted if and only if its bucket would have
  refilled whenever a call finds it gone (`StoresAgreeExactly`), so if it calls again before as many other
  clients as there is room for have, or only after `capacity / rate` seconds (`RateLimitHoldsWhenSpaced`).
- A row that a seeder found present is not its to delete (`app/db/blog_seeders.py:24-26`). The replay that
  seeded it may delete it under a second one, if two are in flight at once (`SecondReplayLosesItsRow`); the
  one caller in the repository seeds, replays and tears down without giving way, and then it stays
  (`OneReplayKeepsItsRow`). In general a row survives if and only if no replay in flight seeded it and no
  pending log entry names it (`FoundRowStaysExactly`).
- A crash between seed and log leaks a row for ever (`CrashBeforeLogLeaks`): `StepLosesExactly` says which,
  `SweepLeavesTheLost` what any run costs.
- The banned names are closed over all scanned classes (`nanobar_api/lint.py:54-55`). A class defined again
  under the same name hides the earlier definition (`RedefinitionHidesAService`); nothing is missed if and
  only if no definition has a base with a chain to a seed and a name without one (`NothingMissedExactly`).
- Span names survive the trip through their facet: all but one, `worker.process` (`FacetRoundTrip`).
- Coverage gaps lower the weight: if and only if every required scenario of the type weighs something
  (`ScoreShowsGapsExactly`; `WeightlessGapGoesUnscored` is an input).

## Model

| member | source | states |
|---|---|---|
| OrderedSelect.SelectOldest | nanobar_api/eventbus/store.py:206-216 | a legal answer of an ordered, limited query: distinct eligible rows, as many as the limit lets through, in ascending order, and none left behind that is older than one taken; a negative limit is no limit |
| EventStore.Database.InsertEvents | nanobar_api/eventbus/store.py:68-99 | a batch goes in whole, its rows unprocessed, without attempts, error, owner or lease, under the channel and time given; or it is refused, exactly when some id is already in the table or repeated, and changes nothing |
| EventStore.InsertAdds | nanobar_api/eventbus/store.py:68-99 | an accepted batch adds exactly its own rows, column by column as new, and touches no other |
| EventStore.Database.ClaimEvents | nanobar_api/eventbus/store.py:192-241 | takes rows of the channel alone that are unprocessed and unclaimed or past their lease by the strict whole-second test, each once, oldest first, up to the limit, and leaves one behind only if the limit is used up on rows no younger; writes worker and expiry into these and nothing else |
| EventStore.Database.AckEvent | nanobar_api/eventbus/store.py:244-253 | afterwards the row, whoever had claimed it, is processed, has no owner and no lease, and keeps its other columns; every other row is unchanged, and an unknown id changes nothing |
| EventStore.Database.FailEvent | nanobar_api/eventbus/store.py:256-269 | afterwards the row, whoever had claimed it, has one attempt more, the error, no owner and no lease, and is processed only if it was; every other row is unchanged |
| LeaseProtocol.ExclusiveLeases | nanobar_api/eventbus/store.py:192-269 | in every run of any number of workers, crashes included, whose acks and fails are made on a live lease or while the row names the worker, no event is held live by two workers and each live holder is the one its row records |
| LeaseProtocol.HeldKept | nanobar_api/eventbus/store.py:192-269 | each single step keeps that, given that nobody else holds live the event that is acked or failed |
| LeaseLoss.FailLosesExactly | nanobar_api/eventbus/store.py:256-269 | after a fail, some run whose later fails are all disciplined ends with two live holders of one event if and only if somebody else held the failed event live and it was not processed |
| LeaseLoss.FailLosesWhenRivalled | nanobar_api/eventbus/store.py:256-269 | while rows record their live holders, that is if and only if somebody else held it live |
| LeaseLoss.AckLosesNothing | nanobar_api/eventbus/store.py:244-253 | after an ack, however late and whoever holds the event, no such run exists |
| LeaseLoss.SomebodyClaims | nanobar_api/eventbus/store.py:192-241 | a claimable row can always be claimed by a new worker, with a live lease |
| LeaseProtocol.DisciplineMeansUnrivalled | nanobar_api/eventbus/store.py:244-269 | either of two tests a worker could make, its own lease or the row's name, rules a rival holder out |
| LeaseProtocol.LateAcksKeepExclusivity | nanobar_api/eventbus/store.py:244-253 | with only the fails disciplined, exclusivity still holds in every run, and a live holder's row names it or is already processed |
| LeaseLoss.LateFailBreaksExclusivity | nanobar_api/eventbus/store.py:256-269 | a concrete run from a fresh table in which a late fail ends with two live holders of one event |
| LeaseProtocol.RowProgress | nanobar_api/eventbus/store.py:192-269 | no step unprocesses a row, claims a processed one, or changes its attempts except a fail of that event, by one |
| LeaseProtocol.ProcessedForever | nanobar_api/eventbus/store.py:192-269 | in every run, however late its acks and fails, a processed event stays processed and is never claimed again, and `attempt_count` grows by exactly the fails of that event |
| LeaseProtocol.LogsNeverOutnumberAttempts | nanobar_api/workers.py:126-139 | in every run an event has at most as many worker-log rows, counting those still owed, as attempts, although the two are separate commits |
| LeaseProtocol.CrashForgets | nanobar_api/workers.py:76-98 | a crash loses what the worker had in memory and nothing else, so its claims stay until they run out, and it can claim again |
| LeaseProtocol.NothingStranded | nanobar_api/eventbus/store.py:206-226 | in every reachable state an unprocessed event whose lease has run out is taken by the next claim on its channel, unless the limit is used up on rows no younger, so no crash strands one |
| LeaseWaiting.InsertedWaits | nanobar_api/eventbus/store.py:68-99 | a new event can be claimed on its channel at any time, and an unlimited claim there takes it |
| LeaseWaiting.WaitIsBounded | nanobar_api/eventbus/store.py:192-241 | in every run through which an event can be claimed and is not, the limits of the claims on its channel add up to at most the claimable rows ahead of it at the start and those put ahead of it on the way |
| LeaseWaiting.PassedOverAtMost | nanobar_api/eventbus/store.py:192-241 | so, with one limit for all, it is passed over by at most one claim in `limit` such rows |
| LeaseWaiting.ReturnedOnly | nanobar_api/eventbus/store.py:192-269 | a row is put ahead of it only by an insert, a fail, its lease running out, or a claim whose lease is over at once |
| LeaseTiming.WorkersInTimeExclude | nanobar_api/workers.py:95-139 | in every interleaving of any number of workers, crashes included, in which no event is acked or failed later than the seconds it was leased for, no event is ever held live by two |
| LeaseTiming.BoundedHandlersExclude | nanobar_api/workers.py:95-139 | it is enough that each handler takes at most d seconds and every claim has claim_limit * d <= lease_seconds |
| Worker.NanobarWorker.ProcessOne | nanobar_api/workers.py:118-139 | whatever others have done to its row meanwhile, one step settles the event in hand: an ack if the handler, called at that moment, returns, and a fail with its message, logged afterwards, if it raises; the rest of the hand is unchanged |
| Worker.NanobarWorker.RunOnce | nanobar_api/workers.py:76-98 | a pass, with everybody else acting at will between any two of its transactions, is a run of the protocol; it claims once on each configured channel in order, settles every event it claims once and in order, as its handler decides, and leaves no new claim of its own behind |
| EventQueue.EventQueueRepository.Put | nanobar_api/eventbus/queue_repository.py:52-62 | an event goes to the back of its queue if that is unbounded or holds fewer than its bound, and is dropped and counted otherwise; an unknown channel changes nothing |
| EventQueue.EventQueueRepository.GetAny | nanobar_api/eventbus/queue_repository.py:64-81 | takes the head of the first channel in order that is not empty, or finds all of them empty |
| Drain.GateRejectsExactly | nanobar_api/telemetry/telemetry_drain_worker.py:145-164 | through the full field checker, an event is ingested exactly when it has a trace context and an object for payload, and skipped exactly when it has no trace context |
| Drain.NothingLostOrReordered | nanobar_api/telemetry/telemetry_drain_worker.py:106-164 | for every interleaving of puts and worker steps, the events put on a queue while it was unbounded or held fewer than its bound are, in order, those handled, then the batch, then the queue; and its dropped count grows by exactly the other puts |
| Drain.StoppedWorkerHandledEverything | nanobar_api/telemetry/telemetry_drain_worker.py:126-135 | once a stopped worker is done and nothing more was put, batch and drained queues are empty and every accepted event was handled, in order |
| Drain.HandledEventsAreStored | nanobar_api/telemetry/telemetry_drain_worker.py:145-164 | in every run the span table is what it was and, under each other id handled as ingested, holds column by column what the first event of that id so handled carried, unprocessed; every span's trace exists |
| Drain.HandledEventsOpenTraces | nanobar_api/telemetry/telemetry_drain_worker.py:145-164 | in every run a trace there before stays, and each other trace has the entry point and the box that the resolvers gave for the first new event of it |
| Drain.GateBuildsRequest | nanobar_api/telemetry/telemetry_drain_worker.py:145-164 | through the full field checker, the request has, field by field, what the event and the resolvers brought |
| DrainWorker.TelemetryDrainWorker.IngestOne | nanobar_api/telemetry/telemetry_drain_worker.py:145-164 | handling the first event of the batch is one protocol step; one counter grows exactly for an event without trace context, the other exactly for one with it and no object for payload |
| DrainWorker.TelemetryDrainWorker.PollOnce | nanobar_api/telemetry/telemetry_drain_worker.py:113-124 | one turn of the main loop is a run of the protocol: it takes the head of the first queue that is not empty, if any, and flushes exactly when the batch is then full, or not empty and its time is up |
| DrainWorker.TelemetryDrainWorker.RunThread | nanobar_api/telemetry/telemetry_drain_worker.py:106-135 | the thread's whole life, with any arrivals between polls, is a run of the protocol in which every flush is on time; it ends, with every drained queue empty and everything accepted handled in order |
| Telemetry.TelemetryDb.IngestSpan | nanobar_api/telemetry/telemetry_service.py:66-104 | a known event changes nothing; a new one adds a span with, column by column, what it brought, unprocessed, and its trace if that is new, and changes no other row |
| Telemetry.SpansAreFirstDeliveries | nanobar_api/telemetry/telemetry_service.py:66-104 | after any deliveries, repeats included, the span table is the old one and, column by column, what the first delivery of each other event brought |
| Telemetry.TracesKeepFirstEntryPoint | nanobar_api/telemetry/trace_repository.py:63-96 | a trace keeps what it had, and a new one the entry point and box that the first new event of it brought |
| Telemetry.ReferencesKept | nanobar_api/telemetry/telemetry_service.py:66-104 | every span's trace exists, after any deliveries |
| Telemetry.RedeliveryChangesNothing | nanobar_api/telemetry/telemetry_service.py:66-78 | delivering any earlier event again, whatever the repeat carries, changes neither table |
| Telemetry.OneCrash | nanobar_api/telemetry/telemetry_service.py:66-104 | a crash anywhere in a batch, also between the two commits of one event, is healed by delivering the batch again |
| Telemetry.RedeliveryHealsCrashes | nanobar_api/telemetry/telemetry_service.py:66-104 | the same for any number of crashes |
| BrickContents.BuiltAsDepicted | nanobar_api/bricks/generate.py:146-232 | a span is skipped exactly when it is not well-shaped, and a brick made of one has, column by column, the hash, request, response, scenario, type, route key and identity that its payload gives |
| BrickContents.HashesTellApart | nanobar_api/bricks/generate.py:167 | two spans with captured strings for hashes are one brick exactly when the strings are equal |
| BrickContents.VisitStoresVisited | nanobar_api/bricks/generate.py:146-237 | each brick that a call adds is made of the first span visited with its hash, which no brick had before; and unless it raises, every well-shaped span visited has a brick under its own hash |
| BrickContents.RaisesExactly | nanobar_api/bricks/generate.py:43-237 | in terms of the payload: a visit raises out of the call exactly for a well-shaped HTTP snapshot with an undecodable body or a status code that is a string, a list or an object, and for a well-shaped capture whose type is a list, an object or an integer of more than 64 bits, unless a brick of its hash is stored |
| Generate.VisitRaises | nanobar_api/bricks/generate.py:146-237 | a call that raises leaves a span that would raise again; one that does not has met none that always does |
| Generate.FatalStops | nanobar_api/bricks/generate.py:146-237 | a span that raises, and whose hash nothing else of the backlog can store, stops every call that visits it, whatever was visited before |
| Generate.BrickStore.GetByContentHash | nanobar_api/regression_brick/repository.py:62-63 | finds a brick of the hash exactly when one is stored |
| Generate.VisitStoresHashes | nanobar_api/bricks/generate.py:146-237 | visiting spans keeps one brick per hash and every stored brick, and unless it raises stores exactly the hashes of the well-shaped spans visited |
| Generate.CrashThenRerun | nanobar_api/bricks/generate.py:146-244 | bricks commit one by one and marks only at the end, so a crash after any number of visits and a rerun over the same spans ends with the very bricks of an uninterrupted call |
| Scanner.ListWithUnprocessedSpans | nanobar_api/telemetry/trace_repository.py:144-161 | picks traces with unprocessed spans on the channel, each once, up to the limit, each with an oldest such span no younger than that of any picked later or left behind |
| Scanner.GenerateBricks | nanobar_api/bricks/generate.py:127-244 | one call visits, trace by trace, the oldest spans of the oldest traces, or a beginning of these up to one that raises, all of the channel and unprocessed; unless one does, exactly the spans visited are marked; the bricks returned are exactly those added, made as `VisitStoresVisited` says |
| Scanner.RoundProgressed | nanobar_api/bricks/generate.py:127-244 | a call only marks unprocessed spans of its channel, only adds bricks made of spans unprocessed before, and marks no span whose hash is not stored |
| Scanner.CrashedRoundProgressed | nanobar_api/bricks/generate.py:146-244 | so does a call that crashed after any number of its visits |
| Scanner.ProgressedTransitive | nanobar_api/telemetry/telemetry_scanner_service.py:69-88 | and so does any sequence of calls, crashes and reruns |
| Scanner.FinishedIsDetermined | nanobar_api/telemetry/telemetry_scanner_service.py:69-88 | when nothing is left, exactly the channel's backlog has been marked, other channels are untouched, and the hashes are the old ones and those of the backlog's well-shaped spans |
| Scanner.CrashesDoNotShow | nanobar_api/telemetry/telemetry_scanner_service.py:69-88 | an interrupted and an uninterrupted history that both finish end in the same span table and the same set of hashes |
| Scanner.MarkedHaveBricks | nanobar_api/telemetry/telemetry_scanner_service.py:69-88 | every well-shaped span that any scanning has marked has a brick under its own captured hash |
| ScanLoop.LastRoundFinishes | nanobar_api/telemetry/telemetry_scanner_service.py:69-88 | a round that reaches every waiting trace visits the whole backlog if and only if no trace holds more than the limit |
| ScanLoop.AfterRound | nanobar_api/telemetry/telemetry_scanner_service.py:69-88 | every round that finds a waiting trace strictly shrinks the backlog, and the last one empties it if and only if no trace then held more than the limit |
| ScanLoop.Scan | nanobar_api/telemetry/telemetry_scanner_service.py:69-88 | the loop ends for every limit; if it does not raise, nothing is left if and only if no trace held more than the limit as the last round began, which with fewer waiting traces than the limit is the first; it raises only if some span of the backlog stops a visit, surely, marking nothing, if one stops every visit and the first round can reach all, and, if hashes tell storable spans from others and the first round can reach all, if and only if some span stops a visit |
| ScanLoop.PoisonedCallRaises | nanobar_api/bricks/generate.py:127-244 | a call that can reach the whole backlog, with a span in it that stops every visit, raises, marks nothing and leaves that span as it is |
| ScanLoop.PoisonBlocksTheChannel | nanobar_api/telemetry/telemetry_scanner_service.py:69-88 | so through any scans, crashes and deliveries, as long as one call can reach the backlog, no span of the first backlog is ever marked, if one of them raises by itself, or cannot be stored and shares its hash with no storable span there or delivered |
| ScanLoop.PoisonedExactly | nanobar_api/bricks/generate.py:146-237 | where hashes tell storable spans from others, some span stops every visit if and only if some span stops one now |
| ScanLoop.UndecodableBodyPoisons | nanobar_api/bricks/generate.py:108-124 | a concrete table: one exchange whose request body raises something else than the two exceptions caught |
| ScanLoop.StringStatusPoisons | nanobar_api/bricks/generate.py:43-71 | a concrete table: one exchange whose status code was captured as a string |
| ScanLoop.ScanCanLeaveSome | nanobar_api/telemetry/telemetry_scanner_service.py:86-88 | a concrete table on which, by its contract, a scan does not raise and leaves spans: one trace with more spans than the limit |
| Binding.BindNewBricksToNanobars | nanobar_api/bricks/binding.py:73-146 | old rows stay; every brick with a type and a route key is bound to a nanobar of that type that refers to that route, nothing else is bound, and a nanobar is added only for a key that none had, with its stamps and default weights; the counters say so, and exactly the touched nanobars are weighed again; with one nanobar per key, which it keeps, it raises in the loop if and only if some brick is bound already or repeated, the bricks before it staying bound, and after it if and only if a weight is refused |
| Binding.NanobarRepository.GetOrCreateByRouteKey | nanobar_api/nanobar/repository.py:244-292 | answers a nanobar of the type that refers to the route, and adds one, column by column with its stamps and default weights, exactly when there was none |
| Binding.NanobarRepository.RecomputeWeight | nanobar_api/bricks/binding.py:58-70 | weighs one nanobar by all its bindings; a weight outside [0, 1] is refused and nothing changes |
| Binding.BindingKeepsOnePerKey | nanobar_api/nanobar/repository.py:244-292 | binding keeps at most one nanobar per type and route key |
| Binding.CreatedExactlyWhenMissing | nanobar_api/bricks/binding.py:101-123 | a nanobar is created exactly for the keys that had none, and the table grows by their number |
| Binding.BindingsForExactly | nanobar_api/bricks/binding.py:125-137 | every stamped brick is bound to its key's nanobar, nothing else is bound, and the number of bindings is that of the stamped bricks |
| Binding.CoveredExactly | nanobar_api/bricks/binding.py:58-70 | a nanobar's covered scenarios are exactly those carried by the bricks bound to it |
| Binding.KnownKeysCreateNone | nanobar_api/bricks/binding.py:101-146 | a later call with keys bound before creates no nanobar and binds to the same ones |
| Binding.BoundBeforeStops | nanobar_api/bricks/binding.py:125-135 | with one nanobar per key, a loop that gets through had no brick that was bound before or repeated |
| Binding.NewBricksNeverClash | nanobar_api/bricks/binding.py:125-135 | bricks that are distinct and not yet bound are never bound before, so their call does not raise there |
| Binding.BindingNeverLowersWeight | nanobar_api/bricks/binding.py:58-70 | more bindings never lower the weight of a nanobar of known type, which stays between zero and its criticality |
| Taxonomy.LoadTaxonomy | nanobar_api/taxonomy.py:73-94 | the loops compute the merge of all files in order, keeping every dictionary's keys distinct |
| Taxonomy.LastFileWins | nanobar_api/taxonomy.py:73-94 | scenario by scenario the last file that defines it wins, nothing a file does not mention is lost, and a type is known exactly when some file names it |
| Taxonomy.PutKeepsPlaces | nanobar_api/taxonomy.py:83-93 | assigning to a known key leaves every key in its place, and a new key comes last |
| Taxonomy.ReplaysResolve | nanobar_api/taxonomy.py:97-122 | a type replayed any number of times resolves as the type itself, unless a replayed name has its own entry, and then as the outermost such |
| Taxonomy.WorkersShareOneEntry | nanobar_api/taxonomy.py:118-122 | every channel's worker, replayed or not, falls back on the one worker entry |
| Taxonomy.ResolvesByName | nanobar_api/taxonomy.py:97-122 | a type resolves to its own entry; without one, after `replay-` to what it replays, after `worker-` to the entry `worker`, and otherwise to nothing |
| Taxonomy.CoveredAndGapsAreTotal | nanobar_api/taxonomy.py:151-175 | the weight covered and the weight of the reported gaps add up to the weight of all required scenarios |
| Taxonomy.GapsExactly | nanobar_api/taxonomy.py:161-175 | the gaps are exactly the required scenarios not covered |
| Taxonomy.GapsInOrder | nanobar_api/taxonomy.py:161-175 | and they come in the entry's order, each once |
| Taxonomy.ScoreIsProportional | nanobar_api/taxonomy.py:125-158 | the score is to the criticality as the covered weight is to the total, and is the criticality when there is nothing to weigh |
| Taxonomy.WeightsAddUp | nanobar_api/taxonomy.py:151-158 | weights add up over sets of scenario names |
| Taxonomy.NameWeighs | nanobar_api/taxonomy.py:151-158 | a required scenario weighs its weight, and any other nothing |
| Taxonomy.TotalIsWeightOfAll | nanobar_api/taxonomy.py:151-158 | the total is the weight of all names together |
| Taxonomy.ScoreInRangeAndMonotone | nanobar_api/taxonomy.py:125-158 | with nonnegative weights and criticality the score lies between zero and the criticality and never falls when more is covered |
| Taxonomy.ScoreShowsGapsExactly | nanobar_api/taxonomy.py:125-175 | with nonnegative weights and positive criticality, the score tells full coverage from gaps for every set of bricks if and only if every required scenario of the type has a positive weight |
| Taxonomy.FullScoreExactly | nanobar_api/taxonomy.py:151-158 | whatever the signs of the weights, if their total and the criticality are not zero, the score is the criticality if and only if the gaps weigh nothing |
| Taxonomy.FullScoreMeansNoGaps | nanobar_api/taxonomy.py:125-175 | with positive weights and criticality the score is the criticality if and only if there are no gaps |
| Taxonomy.WeightlessGapGoesUnscored | nanobar_api/taxonomy.py:153-154 | a required scenario of weight zero is a gap that the score does not show |
| Validation.CoerceValue | nanobar_api/validation.py:33-103 | the checker's dispatch and loops compute `Coerce`, raising included, which `ParsedValue` says in other words |
| Validation.Parse | nanobar_api/validation.py:106-129 | parsing a dataclass collects every field's error before it fails, takes defaults for absent fields, and otherwise builds the instance |
| Validation.AttributesByName | nanobar_api/validation.py:106-129 | the instance has exactly its fields, each with its own value |
| ParsedValue.ParsesExactly | nanobar_api/validation.py:33-129 | on supported types the checker answers a value exactly when the given one becomes it: an integer under float the float of that number, every other scalar itself, lists and dicts place by place, a dataclass field by field with its defaults, and a union what its first arm that has the value gives |
| ParsedValue.RejectsExactly | nanobar_api/validation.py:33-129 | and rejects one exactly when it becomes nothing |
| ParsedValue.AcceptedBecomes | nanobar_api/validation.py:33-129 | with unsupported types too, whatever is accepted is what the value becomes |
| Schema.ToJsonSchema | nanobar_api/validation.py:161-177 | the loop compiles every field and requires exactly those without a default |
| Schema.CompilesKeyByKey | nanobar_api/validation.py:132-177 | the compiled schema key by key, those that the interpreter never reads included, and each required field once |
| Schema.MatchesByCase | nanobar_api/bricks/verdict.py:44-117 | what any schema, compiled or not, asks of a value, case by case |
| Schema.SchemaMeansLaxType | nanobar_api/bricks/verdict.py:70-117 | a value matches the compiled schema if and only if it has the type, read laxly at three named places |
| Schema.AcceptedHasType | nanobar_api/validation.py:33-129 | whatever the checker accepts has the type |
| Schema.TypedIsAccepted | nanobar_api/validation.py:33-129 | whatever has the type, if no part of the type is unsupported, the checker accepts |
| Schema.SchemaCompilerSound | nanobar_api/validation.py:132-177 | for every flattened type and JSON value, what the checker accepts the compiled schema accepts |
| Schema.SchemaCompilerComplete | nanobar_api/validation.py:132-177 | on types whose dicts hold `Any` and whose unions with an `Any` arm admit None, the two agree on every value |
| Schema.SchemaLossExactly | nanobar_api/validation.py:132-177 | of every supported type the schema takes and the checker rejects exactly the values that have the type read laxly and not as written |
| Schema.DictSchemaExact | nanobar_api/validation.py:146-149 | a dict type is compiled without loss if and only if its value type admits every JSON value |
| Schema.DictSchemaTakesOtherValues | nanobar_api/validation.py:146-149 | a concrete dict type and a value of another that its schema takes |
| Schema.UnionSchemaExact | nanobar_api/validation.py:132-144 | a union without None, of supported arms, loses exactly the values that some arm's schema takes and that are null or accepted by no arm |
| Schema.CleanUnionLosesOnlyNull | nanobar_api/validation.py:132-144 | of arms that lose nothing themselves it loses null alone, and only if `Any` is among them |
| Schema.UnionSchemaTakesNull | nanobar_api/validation.py:132-144 | a concrete union that does not admit null and whose schema does |
| Schema.UnionFreeSchemaExact | nanobar_api/validation.py:132-177 | a type without unions is compiled without loss if and only if every dict in it is of `Any` and no part of it is unsupported |
| Reparse.ReparseReturnsTheSame | nanobar_api/capture/layer_capture.py:25-33 | parsing the dict form of a parsed value returns that value, for types whose defaults parse back and whose union arms are scalars, copied through, or apart from every arm before them, as an only dataclass is, and one of several if each before it requires a field that it does not have |
| Reparse.UnionRoundTripsExactly | nanobar_api/validation.py:33-103 | under a union whose accepting arm gives the value back, the union does if and only if the first arm that does not reject the dict form makes the same value of it |
| Reparse.TwoClassesExactly | nanobar_api/validation.py:33-129 | in a union of two dataclasses whose common fields agree in type, every instance comes back as one of its own class if and only if the first requires a field that the second does not have, or accepts whatever the second does: it requires none the second can do without, and its other fields take any value |
| Reparse.ClassUnionDoesNotRoundTrip | nanobar_api/validation.py:33-129 | a concrete union of two dataclasses and value for which it does not |
| Verdict.Report.DiffPaths | nanobar_api/bricks/verdict.py:120-152 | the recursion over a shared list appends exactly the lines of `Diff`, in order |
| Verdict.EmptyDiffExactly | nanobar_api/bricks/verdict.py:120-152 | no line is reported if and only if the trees agree once values under volatile keys are erased, and show no NaN |
| Verdict.EmptyDiffMeansSame | nanobar_api/bricks/verdict.py:120-152 | that is, if and only if they are the same value by value: of one shape, with equal numbers however written and equal texts at every place no volatile key leads to |
| DiffLines.ReportsExactly | nanobar_api/bricks/verdict.py:120-152 | a line is reported exactly where following its path into both trees finds that difference, brick's side first |
| DiffLines.LinesAscend | nanobar_api/bricks/verdict.py:120-152 | the lines come in the order of their paths, keys by code points and items by index, so no place is reported twice |
| SortedKeys.SortedAscends | nanobar_api/bricks/verdict.py:120-152 | `sorted` gives each key once, in code-point order |
| Verdict.SameReflexive | nanobar_api/bricks/verdict.py:120-152 | a tree passes as its own replay if and only if it shows no NaN |
| Verdict.NaNFailsItsOwnReplay | nanobar_api/bricks/verdict.py:120-152 | a concrete tree that does not: an object with one NaN |
| Verdict.SameTransitive | nanobar_api/bricks/verdict.py:120-152 | passing as a replay is transitive |
| Verdict.SameSymmetric | nanobar_api/bricks/verdict.py:120-152 | and symmetric |
| Verdict.SwapMirrors | nanobar_api/bricks/verdict.py:120-152 | swapping the sides reports the same paths in the same order, each line with its sides exchanged |
| Verdict.HidingOnlyRemoves | nanobar_api/bricks/verdict.py:120-152 | every line reported with more volatile keys is also reported with fewer |
| Verdict.SameGrowsWithHidden | nanobar_api/bricks/verdict.py:120-152 | what passes with fewer volatile keys passes with more |
| Verdict.EvaluateVerdict | nanobar_api/bricks/verdict.py:155-174 | the verdict passes if and only if the responses are the same value by value and the replayed payload matches the schema, if one is given |
| RateLimit.InMemoryRateLimitBackend.Consume | nanobar_api/access.py:168-182 | refills the bucket for the time since, up to the capacity, admits if it then holds a token and takes one, and moves the key to the end, evicting the first entry when the bound is outgrown |
| RateLimit.LruKeepsLastUseOrder | nanobar_api/access.py:164-182 | on every call sequence the store is within its bound, keys are distinct, and the keys after any entry are exactly those used since that entry's last use |
| RateLimit.TrackedExactly | nanobar_api/access.py:164-182 | a key is tracked if and only if fewer distinct keys than the bound were used since its last use |
| RateLimit.StoresAgreeExactly | nanobar_api/access.py:168-182 | a key gets the answers and buckets of a store that never evicts, at every one of its calls, if and only if whenever a call finds it evicted its bucket would by then have refilled |
| RateLimit.SpacedIsHarmless | nanobar_api/access.py:164-182 | that is so if, at each call, fewer distinct other keys than the bound came since its last call or it was idle for as long as an empty bucket takes to refill |
| RateLimit.TokensInRange | nanobar_api/access.py:168-182 | without eviction, tokens stay between zero and the capacity |
| RateLimit.LruTokensInRange | nanobar_api/access.py:168-182 | so do those of every entry of the bounded store |
| RateLimit.WithinWindow | nanobar_api/access.py:168-182 | without eviction, the requests admitted in any window are at most the capacity plus the rate times its length |
| RateLimit.RateLimitHolds | nanobar_api/access.py:168-203 | so it is with eviction, for every key whose evictions are harmless |
| RateLimit.RateLimitHoldsWhenSpaced | nanobar_api/access.py:168-203 | and in terms of the gaps between a client's calls |
| RateLimit.EvictionBreaksTheLimit | nanobar_api/access.py:178-180 | a concrete call sequence in which an evicted key exceeds the bound |
| ShadowSeeds.SeedForReplay | app/admin/nanobar/replay_seeders.py:54-92 | seeds and then logs exactly when the route key is that of updating a post, the request names a string post id, and the post is absent; otherwise changes nothing and leaves nothing to tear down |
| ShadowSeeds.SweepStaleShadowSeeds | app/admin/nanobar/replay_seeders.py:95-114 | in whatever order the pending entries come, exactly the posts that a blog-post entry among them names are deleted, every entry is marked, those of unknown domains too, its other columns kept, and the number found is returned |
| ShadowSeeds.SweptTwice | app/admin/nanobar/replay_seeders.py:95-114 | after a sweep nothing is pending and another changes nothing |
| SeedProtocol.RunConsistent | app/admin/nanobar/replay_seeders.py:54-114 | in every run, crashes and exceptions anywhere, a replay in flight still has its row and its log entry to itself, and no pending entry names a row no seeder made |
| SeedProtocol.ForeignRowsSurvive | app/db/blog_seeders.py:78-113 | a row no seeder made is never deleted, in any run |
| SeedProtocol.SeededRowsAreLogged | app/admin/nanobar/replay_seeders.py:75-92 | in every run whose crashes fall after the log write, every surviving seeded row has a pending entry or is about to get it |
| SeedProtocol.ServesClean | app/admin/nanobar/replay_seeders.py:95-114 | whenever in such a run a startup sweep has ended, no seeded row and no pending entry is left |
| SeedProtocol.StepLosesExactly | app/admin/nanobar/replay_seeders.py:75-92 | the seeded rows that nothing will ever delete grow, at each step, by exactly those a crash or an exception finds inserted, unlogged and named by no pending entry, and by a re-seeded row whose only entry is marked |
| SeedProtocol.SweepLeavesTheLost | app/admin/nanobar/replay_seeders.py:95-114 | after any run, careless crashes included, a completed startup sweep leaves exactly the rows stuck at the start and those lost on the way |
| SeedProtocol.CrashBeforeLogLeaks | app/admin/nanobar/replay_seeders.py:75-92 | a concrete run: a process that dies between seeding a post and logging it leaves a row that nothing will ever delete |
| SeedProtocol.InterruptedSweepsConverge | app/admin/nanobar/replay_seeders.py:95-114 | however often a startup sweep crashes and restarts, it ends in the tables of one undisturbed sweep |
| SeedProtocol.FoundRowStaysExactly | app/db/blog_seeders.py:81-88 | a row survives every run, restarts included, if and only if no pending entry names it and no replay in flight is to delete it |
| SeedProtocol.FoundRowStaysWhileServing | app/db/blog_seeders.py:81-88 | while the process serves, a row survives if and only if no replay in flight seeded it |
| SeedProtocol.OneReplayKeepsItsRow | app/admin/nanobar/api.py:489-530 | with at most one replay in flight, one that finds its row present keeps it to its end |
| SeedProtocol.SecondReplayLosesItsRow | app/db/blog_seeders.py:81-88 | if two replays of one brick were in flight at once: the second finds the row present, and the first takes it away |
| Lint.CollectBannedConstructionTargets | nanobar_api/lint.py:53-70 | the loop ends, whatever order a dictionary is run through, with exactly the names from which the last definitions lead, base by base, to a service or a controller; over all definitions that is none too many, and none too few if and only if no definition is hidden |
| Lint.LeastClosed | nanobar_api/lint.py:62-70 | the names that reach a seed are the least closed set |
| Lint.NothingMissedExactly | nanobar_api/lint.py:53-70 | no name with a chain over all definitions is missed if and only if each definition with a base that reaches a seed has a name that does |
| Lint.DistinctNamesMissNothing | nanobar_api/lint.py:56-60 | nothing is missed when no two classes share a name |
| Lint.RedefinitionHidesAService | nanobar_api/lint.py:56-60 | a concrete pair of classes of one name of which the later hides a service |
| LintCheck.CheckServiceBoundaries | nanobar_api/lint.py:73-92 | exactly one violation, in the order of files and calls, for each construction of such a name in a file with a direct subclass of the service base |
| SpanNames.TagRoundTrip | nanobar_api/eventbus/store.py:148-189 | rebuilding a span name from its component tag returns it, for every name but one |
| SpanNames.FacetRoundTrip | nanobar_api/telemetry/trace_repository.py:35-41 | so does splitting the printed facet at its first colon and rebuilding |
| SpanNames.KindsByPrefix | nanobar_api/eventbus/store.py:148-170 | which prefix gives which kind, and what is left as the name |
| SpanNames.WorkerKind | nanobar_api/eventbus/store.py:162-163 | a channel's worker span is tagged with that channel |
| SpanNames.OtherKinds | nanobar_api/eventbus/store.py:164-170 | every other name is its own tag, of kind api if its first word has no dot and other if not |
| SpanNames.SpanNamesByKind | nanobar_api/eventbus/store.py:173-189 | the span name of a tag kind by kind, and none for an unknown kind |
| SpanNames.FilterSelectsItsFacet | nanobar_api/telemetry/span_repository.py:129-133 | a filter by a facet that some span shows selects exactly the spans that show it, save that it never selects the one name |

## Left out

- Floating-point rounding, and the error of turning a huge integer into a float: token counts, weights and
  JSON numbers are reals, with infinities and NaN as JSON values only.
- Texts and paths of validation errors and schema mismatches: an outcome is accepted, rejected or raised.
- Reparse.UnionRoundTripsExactly: an instance is its attributes, so this does not tell two dataclasses with
  the same attributes apart; `TwoClassesExactly` is about the arm, that is, the class.
- The key order of JSON objects: nothing modelled reads it but the diff, which sorts.
- SQL, WAL and locking: a transaction is one step. SQLAlchemy's identity map, the repositories' cache and
  OpenTelemetry are not part of this model.
- Strings are sequences of Unicode scalar values: lone surrogates, which JSON can carry and sqlite3 refuses, are not modelled.
- SHA-256, base64 and JSON text: hashes are fields of the payload, decoding a body is a function that may fail.
- `default_entry_point_resolver` and worker handlers are function parameters; `compensate`, heartbeats,
  worker registration and dynamic taxonomy entries are not modelled.
- Worker.NanobarWorker.RunOnce: the others act between transactions as a function of the moment and the
  system's state; a crash of the worker itself ends the pass, and is a step of `LeaseProtocol`'s runs.
- Two processes that share one worker id.
- Lifetimes of threads: a drain worker killed by an exception, and the sleep inside `get_any`'s timeout; a poll looks once.
- A trace's `source_activity_info`, and brick fields that carry no decision (schema version, creator, ids).
- The list, count and search queries of the dashboards.
- Binding.BindNewBricksToNanobars: a type or route key that is not a string is not modelled.
- `bind_composite_nanobars`: the same get-or-create and bindings for a grouping of the bricks.
- Taxonomy documents are taken as parsed: the shape errors of `_parse_taxonomy` are one branch each.
- ShadowSeeds.SweepStaleShadowSeeds: two processes starting at once, where one's sweep could delete rows the
  other is using; the source assumes one process.
- The application's own requests inside a replay may create posts under new random ids only; the blog deletes none.
- The order in which `ast.walk` visits a file, and syntax errors in scanned files.
- Admin pages, authentication, CSRF, supervisors, configuration: input and output, or read off one branch.
