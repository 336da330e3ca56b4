# dragomand in Dafny

A model of the logic of dragomand, a per-user translation daemon, with proofs. It covers what
happens to a translation job between its submission and its answer, the life of request objects,
the translation of whole documents, the model store on disk and the choice of models from the
catalogue, and a few self-contained algorithms. `dafny verify dfyconfig.toml` checks everything.

Code that changes state step by step is written as methods on classes or as loops, each proved
against a specification; concurrent code is a step machine of atomic actions, and its properties
hold after every sequence of actions. Libraries are parameters: the engine is a function from
one segment to its translation that may fail in a call, hashing, decompression and JSON are
functions, the server is a function or a sequence of states, and the clock is a number.

| file | what it holds |
|---|---|
| `engine.dfy`, `text.dfy` | the engine as a function, the limits of a request; strings, UTF-8 lengths, splitting and joining |
| `scheduler.dfy`, `scheduler_invariant.dfy`, `scheduler_results.dfy` | one loaded route as a step machine: submitters, handles, the wakeup, the scheduler loop and the engine channel |
| `pair_queue.dfy` | the same queue as a class, run to its end; what a translation request gets |
| `pair_workers.dfy` | the registry of loaded routes: budget, sweep, memory pressure |
| `engine_thread.dfy` | the thread that owns the engine |
| `request_table.dfy`, `requests.dfy`, `requests_results.dfy`, `requests_codes.dfy`, `requests_connected.dfy` | slots per client, request objects, their one response and what its code says, clients that leave |
| `document.dfy`, `sentences.dfy` | translation of documents; sentence ranges and code points |
| `store.dfy`, `install.dfy`, `resolve.dfy` | model directories, installation with a death at any step, lookup |
| `version.dfy`, `filter.dfy`, `filter_terms.dfy`, `catalogue.dfy` | versions, filter expressions and their texts, the acceptance rule |
| `civil.dfy`, `timestamp.dfy` | days to dates, the RFC 3339 text |
| `http_cache.dfy`, `base64.dfy`, `link_walk.dfy` | the ETag cache, the base64 decoder, the link order |

## What holds only under a condition

Some properties one would expect do not hold of the code as it is. For each of these the model
keeps the code's behaviour and states exactly when the property holds.

- A release takes the slots of every request with the same path
  (crates/dragomand/src/requests.rs:113). It is called at the end of a request (:218) and on behalf
  of a request whose token is still in use (:177), and in either case it keeps the table right
  exactly if no other live request has the path: `ReleaseExactIff`, `RejectExactIff`. A client that
  sends each token twice defeats both the cap and the disconnect: `CapDefeated` gives the run, after
  which any number of its requests up to 128 run without a slot and a disconnect flags none of them.
  `TokenReuseReached` is the run for a token used again right after its response.
- A client's requests die with it (crates/dragomand/src/requests.rs:13-14), except for a call that
  registers after the disconnect was handled: it reserves a slot and runs, and nothing flags it
  (:99-108, :127-135). `LateIff` shows that this is the only way, `LateRequestRuns` is such a run.
- A failed publication keeps its slot (crates/dragomand/src/requests.rs:171-175):
  `FailedPublishLeaks`.
- Installation compares digests without regard to case, full verification does not
  (crates/dragoman-models/src/remote_settings.rs:388, crates/dragoman-models/src/store.rs:180):
  `FinishedVerifiesIff`.
- A removal that dies when the manifest is gone and other files are not leaves a directory that no
  scan sees and that no later installation of that version can replace
  (crates/dragoman-models/src/remote_settings.rs:227-236, :324): `InterruptedRemovalBlocks` says
  which removals these are, `RemoveThenInstall` follows one through a restart and an installation.
  The removal of a damaged leftover inside an installation is one of them; the last clauses of
  `Install` say when.
- Unloading a pair frees its model (crates/dragomand/src/workers.rs:329-336), but also drops pivot
  routes that merely share an end with it: exactly the users of the pair go only if there is no such
  bystander, `UnloadExactIff`, and `BystanderGoes` is one.
- A pair is known by its joined name (crates/dragoman-models/src/store.rs:60-62, :127-130,
  crates/dragoman-models/src/remote_settings.rs:225), and languages may contain the separator. A
  lookup answers with the right languages if neither has it in it; else a model of two others can
  answer: `PairNameIff`, `OtherLanguages`. For the same reason, and because the variant is not part of
  the place, an installation can find another pair's or variant's copy there: `SharePlaceIff`.
- A document keeps its number of lines exactly when no translation contains a line break:
  `LineCountKept`.
- A filter is refused although its value does not depend on the terms that are not understood
  (crates/dragoman-models/src/records.rs:112-118): `RefusedThoughSettledIff` gives the exact set,
  `RefusedThoughTrue` and `RefusedThoughFalse` two families, `RefusedOnRelease` two expressions.
- A time stamp has the twenty characters of section 5.6 of RFC 3339 exactly for second counts below
  253402300800, the year 10000: `LengthIff`.
- If one of the two files of the ETag cache is written and the other is not, or one is
  truncated, some later "not modified" can return the wrong content
  (crates/dragoman-models/src/http.rs:119-128): `LostWriteIff`, `TornBodyIff` and `TornTagIff` say exactly
  when, `StaleAfterLostBody` is one such run.
- Code point offsets are 32 bits wide (crates/dragomand/src/service.rs:203). In a segment they are
  always exact, because a request is limited to 1 MiB (:500); in a translation, exactly below 2^32
  characters: `RequestCountsExact`, `CountExactIff`, `RequestSpans`.
- The newly loaded route is not always spared by the budget (crates/dragomand/src/workers.rs:256-258
  says it is): it stays exactly if it fits together with the routes at work, `NewestStaysIff`.

## Model

| member | source | states |
|---|---|---|
| Scheduler.ChunkSize | crates/dragomand/src/workers.rs:405-411 | a call takes all segments of an interactive job, at most sixteen of a batch job, and never more than are left |
| SchedulerInvariant.StepKeepsInv | crates/dragomand/src/workers.rs:94-143 | every atomic step of submitters, droppers, the scheduler and the engine keeps the whole invariant: order, progress of each job, the pin count, handles, wakeups, the channel |
| SchedulerInvariant.InOrderKept | crates/dragomand/src/workers.rs:383-423 | answers, the job in hand and the queue of a class are always the accepted jobs in submission order, although batch jobs go back to the front |
| SchedulerInvariant.WakeupKept | crates/dragomand/src/workers.rs:111-123 | a step never loses a wakeup: whoever made the queue non-empty or closed it has still to notify, or the scheduler is awake, or a permit is stored |
| SchedulerInvariant.RunKeepsInv | crates/dragomand/src/workers.rs:374-442 | the invariant holds after every sequence of steps |
| SchedulerResults.AnsweredOnceInOrder | crates/dragomand/src/workers.rs:374-429 | the i-th answer of a class goes to the i-th accepted job and is either its whole translation as one engine call would give it, or justified by its cancel flag or an engine failure; no submit through a live handle is refused |
| SchedulerResults.ErrorsHaveCauses | crates/dragomand/src/workers.rs:400-428 | told by the events of the run alone: "engine failed" is answered only if a call made for that very job failed, "cancelled" only if that job's flag was raised |
| SchedulerResults.FailureDecides | crates/dragomand/src/workers.rs:413-428 | a failed call decides its job: over every later run its only possible answer is "engine failed" |
| SchedulerResults.FairWeather | crates/dragomand/src/workers.rs:374-429 | in a run without a failing call and without the job's flag every answer is the translation of the whole job |
| SchedulerResults.ActiveCountsUnanswered | crates/dragomand/src/workers.rs:116-128 | the pin counter is the number of accepted jobs without an answer, less the one about to be answered |
| SchedulerResults.HandleKeepsOpen | crates/dragomand/src/workers.rs:111-124 | in every reachable state a submit through a held handle is accepted, at the end of its class, and pins the route; so a caller of `RunTranslation` that holds its handle never sees the route closed |
| SchedulerResults.CallersAreFree | crates/dragomand/src/workers.rs:94-143 | in every reachable state flags can be raised, handles taken and dropped, and a call may end either way |
| SchedulerResults.ExitLosesNothing | crates/dragomand/src/workers.rs:386-392 | once the scheduler left its loop no handle is left, every accepted job is answered and nothing is pinned |
| SchedulerResults.NoLeftovers | crates/dragomand/src/workers.rs:430-438 | the pass over leftovers never finds a job |
| SchedulerResults.NoLostWakeup | crates/dragomand/src/workers.rs:382-398 | a parked scheduler without a permit and with work or a closed queue has a submitter or dropper that is about to notify |
| SchedulerResults.NeverStuck | crates/dragomand/src/workers.rs:382-429 | a route that is not at rest can always take a step of its own |
| SchedulerResults.QuietMeansAnswered | crates/dragomand/src/workers.rs:395-398 | when no own step is possible every job is answered; without handles the engine is gone too, with handles the scheduler is parked |
| SchedulerResults.InternalStepsEnd | crates/dragomand/src/workers.rs:405-429 | each own step decreases the work left: chunks of all jobs, calls under way, pending notifications |
| SchedulerResults.ClosedStep | crates/dragomand/src/workers.rs:136-143 | a closed queue stays closed, and nothing from outside adds work to it |
| SchedulerResults.ClosedQueueDrains | crates/dragomand/src/workers.rs:383-442 | whatever the interleaving, a closed queue admits only as many more steps as work is left |
| SchedulerResults.InteractiveFirst | crates/dragomand/src/workers.rs:385-388 | while an interactive job waits, the next job taken is interactive, and the oldest |
| SchedulerResults.InteractiveWait | crates/dragomand/src/workers.rs:405-423 | while an interactive job waits, at most one chunk of sixteen batch segments and the earlier interactive jobs go to the engine |
| SchedulerResults.FlagWins | crates/dragomand/src/workers.rs:400-403 | a flag raised while its job is queued, be it between two chunks, is honoured: over every later run the job's only possible answer is "cancelled" (the daemon passes each job a flag of its own that it never raises) |
| PairQueues.PairQueue.Submit | crates/dragomand/src/workers.rs:94-125 | an open queue gets the job at the back of its class, one more pin and a permit; a closed one refuses and changes nothing |
| PairQueues.PairQueue.Pop | crates/dragomand/src/workers.rs:383-394 | takes the first interactive job, or the first batch job if there is none |
| PairQueues.PairQueue.Work | crates/dragomand/src/workers.rs:400-428 | a chunk either settles the job with the verdict of one unchunked call or leaves fewer segments with the same verdict |
| PairQueues.PairQueue.Turn | crates/dragomand/src/workers.rs:382-429 | a turn of the loop changes neither the answers to come nor their order, and less is owed after it |
| PairQueues.PairQueue.Drain | crates/dragomand/src/workers.rs:374-442 | the loop answers the waiting jobs, interactive before batch, each with its verdict, unpins everything, and leaves exactly if the queue is closed; else it has used up its permit and waits |
| PairQueues.Serve | crates/dragomand/src/workers.rs:382-429 | whatever others submit between any two turns, the reply promised to a channel stays the only one |
| PairQueues.ChunkKeepsVerdict | crates/dragomand/src/workers.rs:405-423 | what a job comes to does not depend on where it is cut |
| PairQueues.OnlyAnswer | crates/dragomand/src/workers.rs:102-124 | a reply channel carries exactly the verdict of its own job |
| PairQueues.Attempt | crates/dragomand/src/service.rs:251-267 | submitting to an open route and waiting yields the translations of one call, or the engine's failure, whatever others queued before and queue between any two turns of the scheduler |
| PairQueues.RunTranslation | crates/dragomand/src/service.rs:234-270 | one retry: an error of a load is returned as it is, an open route answers, and only two closed routes in a row give "route kept unloading"; the route is asked for once, or twice if it was closed the first time |
| Engine.EachSplits | crates/dragoman-engine/src/backend.rs:80-88 | a call on two lists of segments is the two calls one after the other |
| EngineThread.StepKeepsInv | crates/dragoman-engine/src/worker.rs:42-131 | every step of callers, thread and drop keeps: answers and inbox are the jobs sent, in order; replies fit the phase; models are in memory only while serving |
| EngineThread.AnsweredInOrder | crates/dragoman-engine/src/worker.rs:65-118 | jobs are answered in the order sent, each once and with its own translation |
| EngineThread.ReplyTellsCall | crates/dragoman-engine/src/worker.rs:80-89 | a job is answered with a translation if and only if its call was served, with "engine failed" if and only if its call failed |
| EngineThread.DropWaitsForAll | crates/dragoman-engine/src/worker.rs:122-131 | when the drop returns every job sent has its answer and no model is in memory |
| EngineThread.GoneHasCause | crates/dragoman-engine/src/worker.rs:53-118 | "worker gone" is answered only after a failed load or a panic, in a load or in a call |
| EngineThread.ServesOnlyLoaded | crates/dragoman-engine/src/worker.rs:53-80 | the thread serves exactly after a load of every model of its route, one or two, and refuses exactly after one in which a model failed |
| EngineThread.SendIsTaken | crates/dragoman-engine/src/worker.rs:100-118 | a job handed in waits behind the others, or is told at once that the worker is gone |
| EngineThread.AnythingCanFail | crates/dragoman-engine/src/worker.rs:53-89 | the steps assume nothing of the engine: each model may fail to load, each call may fail, and both may panic |
| EngineThread.InnerStepsEnd | crates/dragoman-engine/src/worker.rs:73-89 | the thread's own steps run out |
| EngineThread.DropNeverStuck | crates/dragoman-engine/src/worker.rs:123-130 | after the close a step is possible until the drop has returned |
| PairWorkersRegistry.PairWorkers.EvictOverBudget | crates/dragomand/src/workers.rs:262-281 | only unpinned routes go, least recently used first; in the end the budget is kept or all are pinned; the last to go went while still over budget |
| PairWorkersRegistry.EvictionIsDetermined | crates/dragomand/src/workers.rs:262-281 | with distinct time stamps that describes a single outcome |
| PairWorkersRegistry.NewestStaysIff | crates/dragomand/src/workers.rs:256-258 | the most recently used route stays if and only if it fits together with the pinned ones |
| PairWorkersRegistry.NewestCanGo | crates/dragomand/src/workers.rs:256-281 | with all other routes pinned, the one just loaded is then the only one to go |
| PairWorkersRegistry.PairWorkers.Victim | crates/dragomand/src/workers.rs:268-272 | the longest idle unpinned route, none only if all are pinned |
| PairWorkersRegistry.PairWorkers.TotalCost | crates/dragomand/src/workers.rs:264 | the sum over all routes, in whatever order they are visited |
| PairWorkersRegistry.PairWorkers.Sweep | crates/dragomand/src/workers.rs:292-319 | what stays are the pinned routes and the `keep_warm` most recently used of the unpinned ones inside the window |
| PairWorkersRegistry.SweepIsDetermined | crates/dragomand/src/workers.rs:292-319 | with distinct time stamps the sweep has a single outcome |
| PairWorkersRegistry.PairWorkers.KeepWarm | crates/dragomand/src/workers.rs:303-318 | exactly the excess over `keep_warm` goes, the longest idle |
| PairWorkersRegistry.PressureGoesFurthest | crates/dragomand/src/workers.rs:322-327 | what memory pressure leaves is contained in what any budget leaves, is what a budget leaves that the pinned routes alone exceed, and no budget evicts any of it |
| PairWorkersRegistry.UnloadFreesPair | crates/dragomand/src/workers.rs:329-336 | no route that is left has the pair's model loaded, neither directly nor as a leg |
| PairWorkersRegistry.UnloadExactIff | crates/dragomand/src/workers.rs:330-336 | exactly the route of that name and the users of the pair go if and only if no pivot route shares an end with the pair without having it as a leg |
| PairWorkersRegistry.BystanderGoes | crates/dragomand/src/workers.rs:330-336 | a route that goes without using the pair |
| RequestManagers.RequestManager.Register | crates/dragomand/src/requests.rs:93-108 | refuses exactly at eight requests, else appends the slot; rows stay between one and eight |
| RequestManagers.RequestManager.Release | crates/dragomand/src/requests.rs:110-118 | removes the slots of the path, and the row with its last slot |
| RequestManagers.RequestManager.CancelClient | crates/dragomand/src/requests.rs:127-135 | forgets the client and raises the flag of each of its requests |
| RequestManagers.RequestManager.ActiveCount | crates/dragomand/src/requests.rs:121-124 | the number of slots in all rows |
| RequestTable.RowsStayCapped | crates/dragomand/src/requests.rs:99-118 | no operation leaves an empty row or one of more than eight slots |
| Requests.StepKeepsInv | crates/dragomand/src/requests.rs:147-222 | every action of tasks, callers and disconnects keeps: published objects belong to running requests, one response each, codes match flags, rows capped |
| Requests.RunKeepsInv | crates/dragomand/src/requests.rs:147-276 | the same after every sequence of actions |
| RequestResults.RowsAlwaysCapped | crates/dragomand/src/requests.rs:99-118 | in every reachable state a client's row has one to eight slots |
| RequestResults.ExactlyOneResponse | crates/dragomand/src/requests.rs:195-240 | a published request whose object is gone has emitted exactly one response, or none if the bus did not take it, with code CANCELLED exactly if its flag was raised before the decision |
| RequestCodes.ResponseSaysWhatHappened | crates/dragomand/src/requests.rs:195-213 | told by the events of the run alone: the code is CANCELLED if the flag was up at the decision, else SUCCESS if the work ended well and ERROR if it failed |
| RequestCodes.AnswerSaysWhatHappened | crates/dragomand/src/requests.rs:195-222 | a request whose object is gone has emitted exactly that code, unless the bus did not take the signal |
| RequestResults.NoEarlyResponse | crates/dragomand/src/requests.rs:183-213 | before that nothing was emitted, and while it is published its own object is under its path |
| RequestResults.CancelWins | crates/dragomand/src/requests.rs:195-197 | a flag raised before the decision makes the code CANCELLED over every later run, and the response too unless the bus does not take it |
| RequestResults.CancelReaches | crates/dragomand/src/requests.rs:64-69 | a cancel on the object of a published request raises the flag of this request and of no other |
| RequestResults.OutcomesAreFree | crates/dragomand/src/requests.rs:147-222 | calls and disconnects may come at any time; publication, work and signal may each fail |
| RequestResults.BreaksIff | crates/dragomand/src/requests.rs:92-222 | the table stays equal to the live requests after a step unless it is a release while another live request has the path, or a failed publication of a client not seen to leave; both ways |
| RequestConnections.LateIff | crates/dragomand/src/requests.rs:99-135 | the unfinished requests of clients that have left stay flagged or about to be after every step but one: a slot reserved for a client that has left |
| RequestConnections.LateRequestRuns | crates/dragomand/src/requests.rs:260-276 | such a run: a disconnect is handled, then a call registers, and its request runs unflagged with a row in the table |
| RequestConnections.StepConnectedIff | crates/dragomand/src/requests.rs:92-222 | the table stays equal to the unfinished requests of the clients that have not left if and only if the step neither breaks it nor is late |
| RequestConnections.TableAlwaysExactIff | crates/dragomand/src/requests.rs:92-276 | it is so in every state of a run from the start if and only if no step of the run breaks it or is late |
| RequestConnections.CleanStep | crates/dragomand/src/requests.rs:92-136 | with distinct live paths, publications that succeed and no call that outlives its client, every step keeps this and all the invariants it needs |
| RequestConnections.TableIsExact | crates/dragomand/src/requests.rs:147-276 | after every such run the table is the unfinished requests of the connected clients, and those of the others are flagged or about to be |
| RequestResults.LiveRequestsCapped | crates/dragomand/src/requests.rs:28 | then a client has at most eight live requests, as many as its row has slots |
| RequestResults.ReleaseExactIff | crates/dragomand/src/requests.rs:218 | a request's own release keeps the table exact if and only if no other live request of the client has the same path |
| RequestResults.RejectExactIff | crates/dragomand/src/requests.rs:176-181 | so does the release for a request whose token is still in use |
| RequestResults.CapDefeated | crates/dragomand/src/requests.rs:99-181 | from the start, a client that sends each of n valid tokens twice has n live requests and no slot, and when it vanishes none of them is flagged or about to be |
| RequestResults.TokenReuseLosesSlot | crates/dragomand/src/requests.rs:214-218 | in any state before a release, a token used again leaves the new request running without a slot |
| RequestResults.TokenReuseReached | crates/dragomand/src/requests.rs:147-219 | such a run from the start: one request up to its release, and the next with the same token |
| RequestResults.FailedPublishLeaks | crates/dragomand/src/requests.rs:171-175 | a failed publication keeps the table exact only if the client is already gone |
| RequestResults.TaskNeverStuck | crates/dragomand/src/requests.rs:186-219 | a published request past its work always has a next step |
| Documents.FindWanted | crates/dragomand/src/service.rs:588-590 | exactly the lines with a letter or digit, in order |
| Documents.NextStep | crates/dragomand/src/service.rs:595-606 | the next lines in order: at most 64, within 1 MiB or a single line, and one more line would break one of these limits |
| Documents.StepIsUnique | crates/dragomand/src/service.rs:597-606 | only one cut has these properties |
| Documents.Replace | crates/dragomand/src/service.rs:620-622 | translations go to the places of their lines, other lines stay |
| Documents.TranslateDocument | crates/dragomand/src/service.rs:581-645 | through both layers of chunking the output is the line-wise map of the input, in steps cut as above, although the route may be evicted and loaded again between steps and others queue their jobs at any turn of the scheduler; it is refused exactly above 64 MiB, and fails only at the first step whose load or engine call fails, with that cause |
| Documents.IdentityEngine | crates/dragomand/src/service.rs:587-634 | an engine that returns its input returns the document, byte for byte |
| Documents.LineCountKept | crates/dragomand/src/service.rs:634 | the number of lines is kept if and only if no translated line contains a line break |
| Sentences.SplitSentences | crates/dragoman-engine/src/fake.rs:104-125 | exactly the sentences of the text, in order, disjoint, on character boundaries; each letter or digit is in exactly one |
| Sentences.Pieces | crates/dragoman-engine/src/fake.rs:104-122 | before filtering: exactly the stretches from a first visible character to the next ending or the last visible one, and they cover all visible characters |
| Sentences.Retain | crates/dragoman-engine/src/fake.rs:123 | keeps exactly the ranges with a letter or digit, in order |
| Sentences.FakeTranslate | crates/dragoman-engine/src/fake.rs:75-96 | the prefixed text with the shifted ranges of its sentences |
| Sentences.TargetsSelect | crates/dragoman-engine/src/fake.rs:80-91 | target ranges lie on character boundaries; after the first they select the text of their source range, the first the prefix and all up to its end |
| Sentences.TargetsIncrease | crates/dragoman-engine/src/fake.rs:80-91 | target ranges are increasing and disjoint |
| Sentences.CodePoints | crates/dragomand/src/service.rs:197-204 | the number of characters wholly before the offset, modulo 2^32, for every offset, on a boundary or not, in the text or past it |
| Sentences.BeforeIsLast | crates/dragomand/src/service.rs:198-202 | stepping back ends at the last character boundary not after the offset |
| Sentences.BeforeExact | crates/dragomand/src/service.rs:203 | on a boundary the count is exact |
| Sentences.BeforeMonotone | crates/dragomand/src/service.rs:197-204 | later offsets never give smaller counts |
| Sentences.CountExactIff | crates/dragomand/src/service.rs:203 | the 32-bit count is the true count at every offset if and only if the text has fewer than 2^32 characters |
| Sentences.RequestCountsExact | crates/dragomand/src/service.rs:499-504 | within the 1 MiB limit of a request the 32-bit count of every offset is the true count |
| Sentences.RequestSpans | crates/dragomand/src/service.rs:491-538 | a request is refused exactly without segments, with more than 256 or above 1 MiB; otherwise its spans are reported segment by segment, exact on the source side, and on the other below 2^32 characters |
| Sentences.SentenceSpans | crates/dragomand/src/service.rs:208-221 | both ranges of each pair as 32-bit code point counts, in order |
| Sentences.WordsAreExact | crates/dragomand/src/service.rs:208-221 | these are the true counts on the source side of any request, and on both sides for translations below 2^32 characters |
| Sentences.ReportKeepsOrder | crates/dragomand/src/service.rs:208-221 | for any engine, ordered ranges are reported in order and inside the texts |
| Sentences.ReportSelects | crates/dragomand/src/service.rs:208-221 | what the reported spans of the fake engine cut out is a sentence of the source and the same text in the translation |
| Text.JoinSplit | crates/dragomand/src/service.rs:587 | splitting into lines and joining gives the text back |
| Text.SplitJoin | crates/dragomand/src/service.rs:634 | lines without line breaks survive joining and splitting |
| Text.SplitSuffix | crates/dragoman-models/src/version.rs:35 | a part put behind a text with a separator becomes the last part |
| Text.ShortestForm | crates/dragomand/src/service.rs:499 | the bytes of a character are those of the shortest form of section 3 of RFC 3629 |
| Text.SpaceIs | crates/dragoman-models/src/records.rs:107 | trimming takes exactly the twenty-five code points with Unicode's White_Space property |
| Versions.ParseVersion | crates/dragoman-models/src/version.rs:33-61 | the loop accepts and reads exactly what the part-wise grammar does, numbers limited to 64 bits |
| Versions.ParsePrinted | crates/dragoman-models/src/version.rs:33-61 | parsing the canonical text of a well-formed list of parts gives the list back |
| Versions.PrintParsed | crates/dragoman-models/src/version.rs:33-61 | whatever parses is well-formed, and its canonical text parses to the same |
| Versions.ShapeParses | crates/dragoman-models/src/version.rs:33-61 | digits, then optional letters, then digits only after letters, each number below 2^64: read as it stands |
| Versions.ParsedHasShape | crates/dragoman-models/src/version.rs:33-61 | no other piece is accepted |
| Versions.Cmp | crates/dragoman-models/src/version.rs:74-92 | the loop decides by the first differing part, shorter versions padded with final zeros |
| Versions.NumberDecides | crates/dragoman-models/src/version.rs:73-93 | where all parts before agree, the smaller number is the older version, whatever follows |
| Versions.LettersPrecede | crates/dragoman-models/src/version.rs:18-26 | with equal numbers a part with letters is older than one without |
| Versions.LettersDecide | crates/dragoman-models/src/version.rs:18-26 | then the letters decide in alphabetical order, then the second number |
| Versions.ToolkitOrder | crates/dragoman-models/src/version.rs:7-8 | on texts: 3.0a < 3.0a1 < 3.0a2 < 3.0 < 3.1 |
| Versions.Trichotomy | crates/dragoman-models/src/version.rs:73-93 | exactly one of less, equal and greater |
| Versions.LessTransitive | crates/dragoman-models/src/version.rs:73-93 | less is transitive across different numbers of parts |
| Versions.SameComparesAlike | crates/dragoman-models/src/version.rs:73-93 | equal versions compare alike with every third |
| Versions.NotNewerChain | crates/dragoman-models/src/version.rs:73-93 | not being newer is transitive, with equality only between equals |
| Versions.AppendZero | crates/dragoman-models/src/version.rs:33-81 | appending `.0` to a text keeps it well-formed or malformed, adds a zero part, and gives an equal version |
| Filters.ClauseMatches | crates/dragoman-models/src/records.rs:113-116 | a clause stops at its first false term and is refused only for a term before that |
| Filters.FilterMatches | crates/dragoman-models/src/records.rs:106-120 | the nested loops compute the table's value: nothing for a refused clause, true for an empty expression |
| Filters.AnswerIsSafe | crates/dragoman-models/src/records.rs:102-105 | an answer is the expression's value under every reading of the terms that are not understood |
| Filters.RefusedIff | crates/dragoman-models/src/records.rs:112-118 | refused if and only if some clause has a term that is not understood with only true terms before it |
| Filters.SettledIff | crates/dragoman-models/src/records.rs:111-119 | the value is the same under all readings of the terms not understood if and only if some clause holds or every clause has a false term |
| Filters.RefusedThoughSettledIff | crates/dragoman-models/src/records.rs:102-118 | the exact set of expressions that are refused although their value is settled |
| Filters.RefusedThoughTrue | crates/dragoman-models/src/records.rs:117 | every true comparison followed by or and a term not understood is true in every reading, and refused |
| Filters.RefusedThoughFalse | crates/dragoman-models/src/records.rs:115 | every term not understood followed by and and a false comparison is false in every reading, and refused |
| Filters.RefusedOnRelease | crates/dragoman-models/src/records.rs:106-120 | two such expressions on the release channel |
| Filters.EvalPrintedTerm | crates/dragoman-models/src/records.rs:122-143 | a printed comparison is read back with its value |
| Filters.PrintedTree | crates/dragoman-models/src/records.rs:106-143 | a printed or of ands of comparisons with plain literals has the value of the tree |
| FilterTerms.ExpressionIff | crates/dragoman-models/src/records.rs:106-143 | told by the text alone: refused if and only if a term that is no comparison is reached, with true comparisons before it in its clause; else true if and only if all terms of some clause are true comparisons |
| FilterTerms.TermIff | crates/dragoman-models/src/records.rs:122-143 | a term is understood, with this value, if and only if it is the spelling of a comparison that has it: field, operator, literal without a quote between quotes, spaces only where they are allowed |
| FilterTerms.SplitIff | crates/dragoman-models/src/records.rs:112-114 | splitting is the only cut at the leftmost pairs of separators that gives the text back |
| FilterTerms.TrimTakes | crates/dragoman-models/src/records.rs:107 | trimming takes spaces off both ends until none is left there, and nothing else |
| FilterTerms.CanBeTakenApart | crates/dragoman-models/src/records.rs:107-114 | every expression that is not blank has such clauses and terms |
| FilterTerms.BlankIsTrue | crates/dragoman-models/src/records.rs:107-110 | a blank expression is true |
| Catalogue.Group | crates/dragoman-models/src/records.rs:174-201 | the groups are the eligible records by language pair, variant and version text, each in catalogue order |
| Catalogue.Skipped | crates/dragoman-models/src/records.rs:178-184 | exactly the texts of refused filters, each once |
| Catalogue.Consider | crates/dragoman-models/src/records.rs:204-235 | after each group the choice is the best of the complete groups visited so far |
| Catalogue.AcceptedSets | crates/dragoman-models/src/records.rs:166-237 | from any list of records: a set for exactly those pairs and variants that have a complete one in the window, the best of them, judged by the parsed versions; and exactly the refused filters, each once |
| Catalogue.SetIsMade | crates/dragoman-models/src/records.rs:174-227 | told by the records: each file of an accepted set is the last record of its type with the set's languages, variant and version whose filter answers true; the version parses with major 3, and a model with its vocabularies is among the files |
| Catalogue.OfferIsHeeded | crates/dragoman-models/src/records.rs:203-235 | told by the records: whenever such records exist for a pair and variant, it has an accepted set, of a version not older than theirs |
| Catalogue.SelectedIsNewest | crates/dragoman-models/src/records.rs:203-235 | the chosen set is complete, in the window and made of eligible records of its group, and no eligible complete set is strictly newer |
| Catalogue.SelectionIsUnique | crates/dragoman-models/src/records.rs:229-234 | the rule leaves no choice, not even between equal versions with different texts |
| Catalogue.OrderDoesNotMatter | crates/dragoman-models/src/records.rs:166-237 | the result does not depend on the order of the records when file types are unique in each group |
| Catalogue.ResultIgnoresOrder | crates/dragoman-models/src/records.rs:166-237 | two lists of the same records in different order lead to the same accepted sets |
| ModelStore.PairNameIff | crates/dragoman-models/src/store.rs:127-130 | a joined name tells the two languages if and only if neither contains the separator |
| ModelStore.SeenIff | crates/dragoman-models/src/store.rs:253-299 | the exact condition for a directory to be taken for a model: name, readable manifest, schema, version, and the size of every file |
| ModelStore.VerifiedIff | crates/dragoman-models/src/store.rs:167-188 | full verification fails exactly for a file that is missing or has another size or digest |
| ModelStore.SameButCase | crates/dragoman-models/src/remote_settings.rs:388 | digests pass if at each place the characters agree or are the two cases of one letter, and not otherwise |
| ModelStore.RemnantsHide | crates/dragoman-models/src/store.rs:191-204 | a partly removed directory is never visible unless it was, and never fails verification if it passed |
| ModelStore.Disk.Rename | crates/dragoman-models/src/remote_settings.rs:324 | atomic: the whole directory moves or nothing does; a non-empty target refuses |
| ModelStore.Disk.Remove | crates/dragoman-models/src/store.rs:191-204 | dying at any step, a removal hides at most its own model and keeps every visible model verified; what it leaves blocks installation exactly if it was cut short after the manifest |
| ModelStore.Disk.RemoveAll | crates/dragoman-models/src/store.rs:198 | in the order of the listing: with enough steps the directory is gone, else exactly the first files are |
| ModelStore.InterruptedRemovalBlocks | crates/dragoman-models/src/remote_settings.rs:227-236 | a directory with its first files removed is in the way of an installation if and only if the manifest is among them and another file is not |
| Installer.RemoveThenInstall | crates/dragoman-models/src/remote_settings.rs:220-324 | after such a removal and a restart the installation does not succeed and the directory stays in the way; after any other removal the rename is not refused |
| Installer.FinishedIsSeen | crates/dragoman-models/src/store.rs:253-299 | what was staged is seen by a scan with the manifest that was written |
| Installer.FinishedVerifiesIff | crates/dragoman-models/src/remote_settings.rs:287-303 | it passes full verification if and only if the catalogue's digests are in lower case |
| Installer.RenameShows | crates/dragoman-models/src/remote_settings.rs:324 | the rename makes exactly the new model visible |
| Installer.ClearFinal | crates/dragoman-models/src/remote_settings.rs:226-236 | a readable copy is returned untouched; a damaged one is removed without a change to what is visible, and when that is cut short after the manifest, exactly then, the rest blocks |
| Installer.Stage | crates/dragoman-models/src/remote_settings.rs:248-305 | all files are downloaded, verified and written, or the set is refused; only the temporary directory changes |
| Installer.Install | crates/dragoman-models/src/remote_settings.rs:214-333 | dying at any step, what is visible is what was, or that and exactly the new model; no place but its own and its temporary one changes; told by the records, a success holds every wanted file and nothing else, and a refusal has a wanted file that is not delivered as described; everything visible verifies; each outcome is tied to its cause; a copy found has the version and the joined name asked for; the place is blocked afterwards exactly if it was, or if the removal of a damaged leftover was cut short |
| Installer.ManifestDescribes | crates/dragoman-models/src/remote_settings.rs:245-305 | told by the records: the manifest has one entry for each wanted file (every known type, the lexical shortlist only if asked for) with its name, decompressed size, digest and role, and no other |
| Installer.FinishedHolds | crates/dragoman-models/src/remote_settings.rs:262-305 | with distinct names the directory holds that record's decompressed content for each of them, the manifest, and nothing else |
| Installer.InstalledIsComplete | crates/dragoman-models/src/remote_settings.rs:245-261 | a model with a vocabulary, or with both, is installed as such |
| Installer.RefusalHasCause | crates/dragoman-models/src/remote_settings.rs:262-291 | the set is delivered if and only if every wanted file is fetched with the size and digest its record gives, before and after decompression |
| Installer.SharePlaceIff | crates/dragoman-models/src/remote_settings.rs:222-226 | two sets share their place if and only if joined name and version agree, whatever their variants |
| Installer.VersionIsNoTmp | crates/dragoman-models/src/store.rs:240-246 | no version directory is mistaken for an unfinished installation |
| Resolver.Scan | crates/dragoman-models/src/store.rs:213-251 | exactly the visible models, each with its parsed version |
| Resolver.Resolve | crates/dragoman-models/src/store.rs:125-136 | a newest copy with the joined name in the window, a system copy on a tie, none only if there is none; told by joined names and leading numbers; of the right languages when neither contains the separator |
| Resolver.OtherLanguages | crates/dragoman-models/src/store.rs:127-130 | the only model of a store answers for two languages that are not its own when the names join alike |
| Resolver.InstalledIsResolved | crates/dragoman-models/src/store.rs:125-136 | a copy the scan found is answered with a version at least as new |
| Resolver.InstallAndResolve | crates/dragoman-models/src/remote_settings.rs:336-349 | after a successful installation the lookup finds a version at least as new, of the right languages when neither contains the separator |
| Civil.YearOfEraFits | crates/dragoman-models/src/manifest.rs:112 | the closed formula finds the year of the era that contains the day |
| Civil.NextDay | crates/dragoman-models/src/manifest.rs:109-118 | the date of the next day is the calendar's successor, and each date is valid |
| Civil.FromDaysIsCounted | crates/dragoman-models/src/manifest.rs:106-118 | the date is the one reached by counting days from 1970-01-01 |
| Civil.DayNumberInverts | crates/dragoman-models/src/manifest.rs:106-118 | the day number of the date, by a separate calendar computation, is the day count |
| Timestamps.FieldsOf | crates/dragoman-models/src/manifest.rs:106-118 | every field is in the range section 5.7 of RFC 3339 gives, the day within its month |
| Timestamps.YearBound | crates/dragoman-models/src/manifest.rs:106-118 | the year is below 10000 if and only if the second count is below 253402300800 |
| Timestamps.TextIsRendered | crates/dragoman-models/src/manifest.rs:119 | below that bound the text is the fixed-width form of section 5.6 of RFC 3339 |
| Timestamps.LengthIff | crates/dragoman-models/src/manifest.rs:119 | it has twenty characters if and only if the second count is below that bound |
| Timestamps.TextOrderIsTimeOrder | crates/dragoman-models/src/manifest.rs:100-120 | there, one text sorts before another if and only if its time is earlier |
| LinkWalk.LinkList.Walk | engine/CMakeLists.txt:95-132 | succeeds if and only if no chain is longer than the depth left; then the reachable items have moved to the end, once each, users first, and the others keep their order |
| LinkWalk.LinkItems | engine/CMakeLists.txt:134-136 | the list has exactly the linked items, each once and after everything that uses it, if and only if no chain of links has more than twenty edges |
| LinkWalk.WithinIff | engine/CMakeLists.txt:96-98 | the depth limit in terms of chains |
| LinkWalk.ReachIff | engine/CMakeLists.txt:112-131 | what the walk visits is what chains of links lead to |
| HttpCaches.HttpCache.CachedGet | crates/dragoman-models/src/http.rs:99-136 | the files and the answer after a get, for every server and every fault of the disk; a "not modified" always finds a body |
| HttpCaches.RunStaysFaithful | crates/dragoman-models/src/http.rs:118-130 | over every run with a working disk the body file is the content last fetched and the tag file its tag |
| HttpCaches.GetsAreCoherent | crates/dragoman-models/src/http.rs:96-98 | in every such run a reachable server's current content is returned, in an outage the last content fetched, an error only if there is none |
| HttpCaches.AlwaysCurrentIff | crates/dragoman-models/src/http.rs:110-117 | all later answers of a reachable server are current if and only if the tag on disk is that of the body on disk |
| HttpCaches.LostWriteIff | crates/dragoman-models/src/http.rs:119-128 | after a fetch that stays so if and only if both files were written, or neither, or the one that was not fits all the same |
| HttpCaches.TornTagIff | crates/dragoman-models/src/http.rs:121-124 | a truncated tag file is harmless if and only if there is no body or what is left of the tag stands for it |
| HttpCaches.TornBodyIff | crates/dragoman-models/src/http.rs:120 | a truncated body is harmless if and only if no tag stands for it or it is what the tag stands for |
| HttpCaches.StaleAfterLostBody | crates/dragoman-models/src/http.rs:120-123 | a lost body write followed by a "not modified" returns the old content |
| Base64.Decode | crates/dragomand/src/lifecycle.rs:165-183 | the 32-bit buffer yields exactly the whole bytes of the six-bit groups, and fails exactly for a character outside the alphabet, `=` and line breaks |
| Base64.Absorb | crates/dragomand/src/lifecycle.rs:175-180 | neither the byte taken out nor the bits kept depend on the stale high bits of the buffer |
| Base64.UnpackGroups | crates/dragomand/src/lifecycle.rs:163-183 | taking bytes out of the groups of section 4 of RFC 4648 gives the bytes back |
| Base64.RoundTrip | crates/dragomand/src/lifecycle.rs:163-183 | decoding undoes encoding for every byte string, with padding optional and line breaks anywhere |

## Left out

- The D-Bus transport, option parsing, the GNOME and KRunner providers and the clipboard: only the table of published objects is kept.
- The Bergamot adapter and the FFI: the engine is a function of one segment and the HTML option that may fail in any call.
- Real HTTP, JSON, TOML, zstd and SHA-256: parameters with the laws named in `Lawful`.
- Memory order and thread scheduling below the atomic actions: locks and atomics are taken as sequentially consistent.
- Fairness and time: progress is stated as "some step is possible" and "steps run out", not as latency; idle exit and prompt cancellation are not modelled.
- The `last_used` stamp inside the step machine: the registry has it as a logical time, and one eviction or sweep reads pins and stamps once.
- Power loss and fsync order: a process can die before any step of the disk, the file system survives.
- I/O errors while installing: a failing disk operation counts as a death at that step; the lock is held by one process.
- Provenance fields of the manifest (license, URLs, installation time): they do not influence scan, lookup or verification.
- The empty pair directory pruned after a removal: empty directories are not represented.
- File names with path separators in catalogue records: a name is a key of its directory.
- `installed_by_pair` and the update check: the grouping neither applies the window nor prefers system copies, unlike `resolve`.
- The order of the accepted sets in the result: a map from pair and variant is computed.
- Documents.TranslateDocument: others act between the turns of the scheduler, inside a turn only in the step machine; the check for lost lines cannot fire for an engine that answers segment by segment; the input is text, reading it as UTF-8 is not modelled.
- Catalogue.OrderDoesNotMatter: two records of one type in one group are resolved by order in the code, so uniqueness is required.
- CMake's own list syntax (`;` inside items) and the lines printed after the walk: items are names with given links.
- `Config`, `plan_route`, token and language validation, query parsing and the command line: straightforward code without further properties.
