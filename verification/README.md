# Agent core: a verified model

leAgent runs a language model in a loop: it repairs the transcript, calls the model, runs the tools the model asks
for, folds in what the user says meanwhile, and goes on until the turn ends. This project models that core in Dafny
and proves what every run of it keeps. The environment (the model, the tools, compaction, approvals, user pushes,
clocks, the file system) is arbitrary: it enters as parameters or as functions without any assumption.

`dafny verify dfyconfig.toml` checks everything.

| file | part of the system |
|---|---|
| `Text`, `Sequences`, `Transcript` | optional values, `str.strip`, messages, and what a provider accepts as a transcript |
| `Repair`, `RepairTheorems`, `ExactIds` | the three passes that repair a transcript in place, and what they guarantee: with ids compared stripped, as the passes do, and with ids compared as sent |
| `StubRows` | which rows the repair adds, told from the tool call blocks as they were sent |
| `QueryLoop`, `Iteration` | one iteration of the query loop, and how it goes, told from its inputs alone |
| `QueryRuns`, `Query` | whole runs, the engine's second transcript, the wrapper |
| `Dispatch`, `Control` | the tool batch of one turn; the queue of messages steered into a running turn |
| `StreamDriver`, `Assembly` | one model call: retries, fallback, partial results, throttled fragments; what the fragments amount to |
| `Base64`, `Utf8`, `TolerantDecode` | salvage of truncated base64 text |
| `PlanGraph`, `Scheduling`, `QueueOrder`, `Execution`, `Replan` | plans: topological order, waves, which of two free steps comes first, execution, replanning |
| `RateLimiter`, `Artifacts`, `Vision`, `MessageIds` | four small stateful algorithms, each against an independent definition |

Code that changes things in place is modelled by classes and methods with loops (`Repair.History`,
`Execution.ExecutionPlan`, `Control.SessionControlRegistry`, `QueryRuns.QueryEngine`,
`RateLimiter.RateLimitMiddleware`, the sorting, merging, dispatching and rebuilding methods). Each is proved equal to
a function of its input or old state, or to a direct statement of the result; the theorems are about that function.
Base64 follows section 4 of RFC 4648, UTF-8 follows section 3 of RFC 3629.

## Where the code does less than its documentation says

For each the model states the exact condition under which the promise holds, and for the promises that fail a
concrete counterexample.

- `dedupe_artifacts` promises one entry per id and per path. An input that joins, by id, an entry without a path, while
  its path belongs to another entry, leaves both in place: `Artifacts.BridgedFileTwice`, `Artifacts.PathsDistinctExactly`.
- `merge_replan` promises that a failed step is only given up if the adjustment does not reintroduce it. A reintroduced
  failed step keeps its failed status, so the merged plan cannot finish: `Replan.RetryUnderSameIdNeverFinishes`,
  `Replan.MergedFinishesExactly`.
- The repair promises a transcript the provider accepts. It pairs rows and calls by stripped ids, and one pass compares
  unstripped ones. To a provider that compares ids as they are sent, the repair can make an accepted transcript
  unacceptable: `ExactIds.RepairBreaksAccepted`, `ExactIds.AcceptedAsSentExactly`, `ExactIds.RepairedValidAsSent`;
  with stripped ids see `RepairTheorems.ValidButRepaired`, `RepairTheorems.RepairIdleExactly`.
- Nothing in planning or replanning keeps ids apart. With a repeated id the order can be wrong, and a replanned new id
  that is repeated leaves a plan that cannot finish: `Scheduling.RepeatedIdBreaksOrder`, `Scheduling.CircularExactly`,
  `Replan.TwinStepsNeverFinish`, `Replan.MergedFinishesExactly`.
- `rebuild_vision_history` promises at most `max_images` images. Images already inside messages that get none rebuilt
  are kept in addition: `Vision.InlineImageEscapesBudget`, `Vision.ImagesCounted`.
- The positional fallback of the message-id matcher can hand out an id that another message keeps by content:
  `MessageIds.ShiftedTranscriptClashes`, `MessageIds.DistinctExactly`.
- `Retry-After` is rounded down, so a client that waits that long is usually rejected again:
  `RateLimiter.AnnouncedWaitTooShort`, `RateLimiter.AnnouncedWaitExactly`.
- Attempts that are given up leave no text behind, but their reasoning and call fragments have been passed on:
  `StreamDriver.OneSourceExactly`.
- Tool results are matched to calls by id, so calls that share an id share a result: `Dispatch.OwnResultsExactly`.

## Model

| member | source | states |
|---|---|---|
| Transcript.IdNamePairs | backend/leagent/agent/query.py:303-317 | every usable id is non-empty and stripped; which pairs these are, `StubRows.PairsExactly` says |
| Repair.History.DropOrphanToolMessages | backend/leagent/agent/query.py:385-425 | the in-place filter leaves exactly what the recursive definition of the pass leaves |
| Repair.History.InjectPendingAskUserToolStubs | backend/leagent/agent/query.py:320-370 | the in-place insertion loop computes the pass: a pending placeholder for each `ask_user` call without a row, at the end of its run; told from the blocks in `StubRows.RepairAddsExactly` |
| Repair.History.InjectMissingToolResultStubs | backend/leagent/agent/query.py:428-492 | the in-place insertion loop computes the pass: one interrupted stub per distinct unanswered id, named as first declared |
| Repair.History.RepairInPlace | backend/leagent/agent/query.py:764-770 | the three passes in their order, as run before every model call |
| Text.InnerIsStrip | backend/leagent/agent/query.py:312-313 | stripping gives the one text without outer white space that lies between white space |
| RepairTheorems.RepairedIsValid | backend/leagent/agent/query.py:385-492 | for every transcript whatsoever, comparing ids without outer white space as the passes do: in the repaired one each tool row lies in the run after an assistant that declares its id, and each declared id is answered there; every `ask_user` call is answered under its stripped id |
| RepairTheorems.DropKeepsExactlyOwned | backend/leagent/agent/query.py:385-425 | the first pass keeps, in order, exactly the non-tool messages and the tool rows owned by position |
| RepairTheorems.RepairPreserves | backend/leagent/agent/query.py:320-492 | everything kept by the first pass survives in order; all else in the result is a justified stub, and an `ask_user` call only ever gets the pending placeholder |
| RepairTheorems.RepairIdleExactly | backend/leagent/agent/query.py:320-492 | a transcript passes through untouched if and only if it is valid with stripped ids and its `ask_user` answers carry the stripped id |
| RepairTheorems.RepairIdempotent | backend/leagent/agent/query.py:320-492 | a second repair changes nothing |
| RepairTheorems.ValidButRepaired | backend/leagent/agent/query.py:351-354 | a transcript that is valid with stripped ids and is still changed, because one pass compares unstripped |
| RepairTheorems.WellOwnedByPosition | backend/leagent/agent/query.py:385-425 | ownership by segments, as the pass walks them, is ownership by position, for either way of comparing ids |
| RepairTheorems.CompleteByPosition | backend/leagent/agent/query.py:428-492 | completeness by segments is completeness by position, for either way of comparing ids |
| RepairTheorems.InterruptedPassCompletes | backend/leagent/agent/query.py:428-492 | the last pass answers every remaining call and disturbs no `ask_user` row |
| StubRows.PairsExactly | backend/leagent/agent/query.py:303-317 | a pair is read if and only if some block carries the id, up to outer white space, and the name: its own, or its function's where it has none of its own |
| StubRows.RepairAddsExactly | backend/leagent/agent/query.py:320-492 | for every transcript, and block by block: to each run are added exactly one pending row for each `ask_user` block whose id no row there carries, in block order, and then one interrupted row for each id neither answered nor asked under, where that id is first declared and with the name it has there |
| StubRows.AskedGetsPending | backend/leagent/agent/query.py:320-370 | so an `ask_user` id without a row gets the pending row, in either format, and never the interrupted one |
| ExactIds.RepairedValidAsSent | backend/leagent/agent/query.py:303-492 | comparing ids as they are sent: the repaired transcript is valid if and only if, in every kept segment, the ids of its rows and of the stubs it is given are those the assistant sent |
| ExactIds.TrimmedValidAsSent | backend/leagent/agent/query.py:303-492 | if no surviving id carries white space or is empty, the repaired transcript is valid as sent |
| ExactIds.AcceptedAsSentExactly | backend/leagent/agent/query.py:303-492 | a transcript that was valid as sent stays so if and only if the repair leaves it alone, and that is so if and only if no blank id was sent and each `ask_user` call was sent under its stripped id |
| ExactIds.RepairBreaksAccepted | backend/leagent/agent/query.py:351-365 | an `ask_user` call and its answer that share an id with a leading space are valid as sent, and the repair makes them invalid |
| ExactIds.DeclaredIsSent | backend/leagent/agent/query.py:303-317 | the ids the passes work with are exactly the non-blank stripped forms of those sent |
| Iteration.EarlyStops | backend/leagent/agent/query.py:653-857 | which terminal an iteration without a usable reply gives: aborted, turns used up, prompt too long, model error, or an exception that escapes; each if and only if its cause is there |
| Iteration.ReplyOutcome | backend/leagent/agent/query.py:888-1084 | what becomes of a reply, in both directions: budget used up, model error, completed, waiting for the user (the first `ask_user` call, or else the first call within the cap with a pending approval, and its id), or going on, which is a retry or a batch none of whose calls waits for approval |
| Iteration.EmitsFirst | backend/leagent/agent/query.py:764-919 | an iteration emits the call with the repaired transcript, then the model's message with all its calls, or only the first that asks the user |
| Iteration.ExhaustedTells | backend/leagent/agent/query.py:993-1047 | a turn without calls whose length recovery is used up is closed by a message that says so, after the text there was |
| Iteration.RetryExactly | backend/leagent/agent/query.py:193-224 | what a retry keeps and changes: no message but a hint, and that only for calls that need it; the raised limit; nothing drained |
| Iteration.DispatchExactly | backend/leagent/agent/query.py:1073-1131 | what a turn with tools appends and emits: the assistant with its calls as run, one row per call within the cap with the content of the call that decides for its id, the waiting steers, a hint exactly after an incomplete salvage |
| Iteration.NextCallLimit | backend/leagent/agent/query.py:193-197 | the next call has the raised limit, four times the configured one within 16384 and 65536, if and only if the turn was retried or salvaged incompletely; otherwise the configured one |
| Iteration.AskedThenPending | backend/leagent/agent/query.py:320-370 | if the messages of a call end with an assistant's single `ask_user` call, its transcript ends with that and its pending row |
| QueryRuns.ContinueShape | backend/leagent/agent/query.py:921-1131 | an iteration that continues either retries the turn, adding at most a hint, or completes it, adding the assistant, one row per dispatched call in order, the waiting steers and perhaps a hint; when it does which, and with what content, is in the `Iteration` rows |
| QueryRuns.HeadsAreGood | backend/leagent/agent/query.py:193-224 | at every loop head at most two recoveries are counted, the raised token limit is within 16384 and 65536, the budget is not used up, and the history has only grown at its end |
| QueryRuns.RunsAreBounded | backend/leagent/agent/query.py:649-1131 | the lexicographic measure (turns left, recoveries left): the k-th loop head is reached only within the calls that are left |
| QueryRuns.EventCounts | backend/leagent/agent/query.py:772-1131 | up to the k-th head there were k model calls, one batch per finished turn, and no terminal |
| QueryRuns.IterationCounts | backend/leagent/agent/query.py:772-1131 | a continuing iteration makes one call, dispatches one batch exactly if the turn advances, and ends nothing |
| QueryRuns.QueryEngine.MapItem | backend/leagent/agent/query_engine.py:579-648 | what the engine appends to its messages for each item, with the placeholder for a pause that names a call |
| QueryRuns.QueryEngine.MapAll | backend/leagent/agent/query_engine.py:558-663 | the engine's messages after a stream of items |
| QueryRuns.HeadsRefineEngine | backend/leagent/agent/query_engine.py:442-663 | at every loop head the loop's history without hints is, up to tool arguments, a subsequence of the engine's messages, shorter by one per recovery, and equal to them if there was none |
| QueryRuns.HeadsDeliverSteers | backend/leagent/agent/query.py:1097-1099 | at every loop head, with pushes at any moment, the steers pushed so far are those in the history followed by those still queued |
| Query.RunQuery | backend/leagent/agent/query.py:629-1131 | for every environment the loop ends; exactly one terminal, last; at most 3 calls and one batch per allowed turn; every call gets a transcript that is valid with stripped ids; the last event tells how, and how each iteration ends is in `Iteration.EarlyStops` and `Iteration.ReplyOutcome` |
| Query.IterationCallsValid | backend/leagent/agent/query.py:764-802 | whatever compaction returned, the transcript of a model call is valid with stripped ids, and each `ask_user` call is answered under its stripped id |
| Query.IterationCallsValidAsSent | backend/leagent/agent/query.py:764-802 | if no id that survives of what compaction returned carries white space, the transcript of the call is valid as sent |
| Query.LastIterationCounts | backend/leagent/agent/query.py:658-1084 | the iteration that ends a run makes at most one call, and none after the last allowed turn |
| Query.HeadsSharded | backend/leagent/agent/query.py:211-212 | over every run, sharded output is forced at a loop head if and only if some earlier iteration retried its turn a second time or got past two retries |
| Query.NoCallOverBudget | backend/leagent/agent/query.py:888-919 | no call starts once the usage of all calls so far, discarded ones included, reaches a positive budget |
| Query.PauseLeavesPlaceholder | backend/leagent/agent/query.py:1051-1083 | a run that pauses for the user leaves the engine with the assistant that declares the call, directly followed by its pending placeholder |
| Dispatch.UnsafeNeverOverlaps | backend/leagent/agent/query.py:1330-1406 | for every interleaving of the batch, a call to an unsafe tool never runs beside another call |
| Dispatch.UnsafeInCallOrder | backend/leagent/agent/query.py:1401-1406 | once a call to an unsafe tool was started, every call to a safe one and every earlier call to an unsafe one has its outcome, whatever the interleaving |
| Dispatch.SchedulesAreFinite | backend/leagent/agent/query.py:1401-1406 | no schedule goes on forever: each move uses up one start or one finish |
| Dispatch.FinishedSchedule | backend/leagent/agent/query.py:1401-1406 | a schedule that cannot go on has run every call once |
| Dispatch.DispatchTools | backend/leagent/agent/query.py:1317-1409 | the loops over the two partitions and the index by id compute the results in call order |
| Dispatch.IndexById | backend/leagent/agent/query.py:1408-1408 | for each id the result collected last |
| Dispatch.DistinctIdsOwnResults | backend/leagent/agent/query.py:1407-1409 | with distinct ids the i-th result is the i-th call's own |
| Dispatch.OwnResultsExactly | backend/leagent/agent/query.py:1407-1409 | every call gets its own result, whatever the outcomes, if and only if the ids are distinct |
| Dispatch.SharedExactly | backend/leagent/agent/query.py:1317-1409 | whatever the ids, a call gets the outcome of the last unsafe call with its id, or of the last one if all are safe |
| Dispatch.SomeDecides | backend/leagent/agent/query.py:1407-1409 | every id has such a deciding call |
| Dispatch.ScheduledResults | backend/leagent/agent/query.py:1317-1409 | every finished schedule of calls with distinct ids hands each call the outcome of its own run |
| Control.SessionControlRegistry.PushSteer | backend/leagent/agent/control.py:72-78 | a text is queued stripped, a blank one refused; no other session changes |
| Control.SessionControlRegistry.DrainSteer | backend/leagent/agent/control.py:80-90 | everything queued for the session is handed out, oldest first, and only its queue is emptied |
| Control.SessionControlRegistry.ClearSession | backend/leagent/agent/control.py:131-135 | the session's queue is dropped, the others stay |
| Control.DeliveredOnceInOrder | backend/leagent/agent/control.py:72-90 | over every interleaving of pushes and drains, what was queued or accepted is what was delivered followed by what is queued: once, in order |
| StreamDriver.CallModel | backend/leagent/agent/deps.py:796-991 | for every provider: at most the allowed streaming calls and one completion; retries only after a retryable error without content; one stop, last, of the right kind; all text and finished calls from one source, and the text exactly that source's; reasoning and call fragments too if and only if no abandoned attempt sent any; everything the attempts passed on comes first, in order; what the calls and fragments hold is in the `Assembly` rows |
| StreamDriver.Stream | backend/leagent/agent/deps.py:800-875 | one attempt passes on exactly its content; what was last sent for a slot is a prefix of its arguments; nothing at all is passed on if and only if it sent no content, no reasoning and no arguments |
| StreamDriver.SendDeltas | backend/leagent/agent/deps.py:857-868 | throttling sends exactly the slots that are due, in order and with their current arguments, and remembers their lengths |
| StreamDriver.NeverFarBehind | backend/leagent/agent/deps.py:46-47 | after every chunk, what was passed on for a slot is at most 511 characters behind, and complete if its interval has passed |
| StreamDriver.ReasoningPassedOn | backend/leagent/agent/deps.py:836-849 | an attempt passes on exactly its reasoning, in order |
| StreamDriver.Flush | backend/leagent/agent/deps.py:692-704 | after the final flush the last fragment sent for every slot is its complete arguments |
| StreamDriver.FeedAllGrows | backend/leagent/llm/streaming.py:88-112 | fragments only ever lengthen a slot's arguments, and the slots stay in index order; by exactly what, `Assembly.SlotsOfExact` says |
| Assembly.SlotsOfExact | backend/leagent/llm/streaming.py:88-112 | one slot per index mentioned, ascending, with the concatenation of all argument fragments sent for it, in order and once each, and the last id and name that were sent for it |
| Assembly.FinishedExactly | backend/leagent/agent/deps.py:684-757 | after a normal end: one finished call per index, ascending, with the last id (else the default one), the last name, and the parse of all its fragments ("{}" if empty); without fragments, the calls found in the text if tools were offered and there is text |
| Assembly.FlushedExactly | backend/leagent/agent/deps.py:692-704 | the last fragment passed on for an index is the concatenation of all fragments sent for it |
| Assembly.ContentExactly | backend/leagent/agent/deps.py:843-849 | the text of an attempt is that of its chunks, one after the other |
| StreamDriver.ReportAll | backend/leagent/agent/deps.py:876-991 | abandoned attempts, which may have passed on reasoning and call fragments, add no text, no finished call and no stop: these are those of the last source |
| StreamDriver.OneSourceExactly | backend/leagent/agent/deps.py:839-868 | everything passed on comes from the last source if and only if every abandoned attempt sent neither reasoning nor arguments |
| TolerantDecode.SalvageGivesPrefix | backend/leagent/agent/deps.py:61-79 | wherever encoded text is cut, salvage gives nothing below one group, and otherwise exactly the characters whose bytes all survived |
| TolerantDecode.SalvageIsMaximal | backend/leagent/agent/deps.py:61-79 | the salvaged prefix is the longest possible |
| TolerantDecode.SalvageRoundTrip | backend/leagent/agent/deps.py:61-68 | non-empty text that was not cut comes back exactly |
| Base64.DecodeCut | backend/leagent/agent/deps.py:67-77 | decoding a cut encoding gives the bytes of its whole groups, or fails inside a group, strictly or not |
| Base64.AlphabetExactly | backend/leagent/agent/deps.py:67-77 | the alphabet of table 1 in section 4 of RFC 4648, both ways |
| Base64.SameBits | backend/leagent/agent/deps.py:67-77 | four sextets hold the 24 bits of their three bytes, the most significant first |
| Base64.ForeignCharacters | backend/leagent/agent/deps.py:67-77 | read strictly, nothing outside the alphabet and the padding is accepted; otherwise such characters are ignored, but for those beyond ASCII |
| Utf8.IgnoringCutText | backend/leagent/agent/deps.py:77-77 | ignoring malformed bytes, a cut encoding decodes to its whole characters |
| Utf8.StrictCutText | backend/leagent/agent/deps.py:74-74 | strict decoding of a cut encoding fails or gives its whole characters, and all of them if nothing is cut |
| Utf8.StrictExactly | backend/leagent/agent/deps.py:67-74 | strict decoding accepts exactly the encodings: no overlong form, no surrogate, nothing beyond the last code point |
| Utf8.WholeCharsFit | backend/leagent/agent/deps.py:61-79 | those characters are as many as fit in the surviving bytes |
| PlanGraph.WaveOfDependencies | backend/leagent/agent/planner.py:591-597 | a step's wave is 0 without dependencies and otherwise one more than the latest wave among them |
| PlanGraph.WavesAreMinimal | backend/leagent/agent/planner.py:591-597 | any assignment of waves that respects the dependencies is nowhere earlier |
| PlanGraph.OrderIsExact | backend/leagent/agent/planner.py:565-588 | an order that leaves only stuck steps out holds exactly the steps that reach no cycle and no unknown id |
| PlanGraph.AllSortable | backend/leagent/agent/planner.py:586-587 | every step is sortable if and only if the plan is acyclic and closed |
| PlanGraph.SortableHasWave | backend/leagent/agent/planner.py:591-622 | a step is sortable if and only if it is in some wave |
| Scheduling.BuildDependencyGraph | backend/leagent/agent/planner.py:555-562 | each step's dependents in plan order, once per mention, dangling mentions dropped, for any plan |
| Scheduling.DependentsCount | backend/leagent/agent/planner.py:557-561 | an id is listed under a dependency as often as the steps with that id name it, so decrements match mentions |
| Scheduling.TopologicalSort | backend/leagent/agent/planner.py:565-588 | for any plan, repeated ids included, the loops over counters and queue compute the sort's rounds; the warning is given if and only if steps are missing from the result |
| Scheduling.TopologicalOrder | backend/leagent/agent/planner.py:565-588 | with unique ids: each step after all its dependencies and no step before an earlier wave; exactly the steps that reach no cycle and no unknown id |
| QueueOrder.OrderExactly | backend/leagent/agent/planner.py:571-584 | with unique ids, the order of any two returned steps: first the one whose last dependency was returned first, steps without any before all others, and between equals the one that is first in the plan |
| Scheduling.SortedOnce | backend/leagent/agent/planner.py:575-584 | no id is returned twice, whatever the plan |
| Scheduling.CircularExactly | backend/leagent/agent/planner.py:586-587 | for any plan the warning is given if and only if an id is repeated, or the plan is not acyclic and closed |
| Scheduling.RepeatedIdBreaksOrder | backend/leagent/agent/planner.py:571-584 | with a repeated id a step that waits for an unknown one is returned |
| Scheduling.GetParallelGroups | backend/leagent/agent/planner.py:591-622 | for any plan the loop computes the grouping, the cycle-residue group included |
| Scheduling.GroupsAreWaves | backend/leagent/agent/planner.py:591-622 | with unique ids the groups are the waves, none is empty, and their concatenation is the topological order; no residue is ever left |
| Scheduling.GroupsHoldSorted | backend/leagent/agent/planner.py:601-622 | for any plan the groups hold exactly the sorted steps, none lost and none doubled |
| Scheduling.NoFewerWaves | backend/leagent/agent/planner.py:591-622 | no assignment of the sorted steps to waves that respects the dependencies uses fewer waves than there are groups |
| Execution.ExecutionPlan.constructor | backend/leagent/agent/base.py:584-592 | a plan starts with the given steps and nothing completed |
| Execution.ExecutionPlan.ScheduleReady | backend/leagent/agent/planner.py:625-640 | exactly the pending steps whose dependencies are completed, in plan order |
| Execution.ExecutionPlan.CurrentStep | backend/leagent/agent/base.py:594-602 | the first step that would be scheduled, if any |
| Execution.ExecutionPlan.MarkStepCompleted | backend/leagent/agent/base.py:615-622 | the first step with the id is completed and the id recorded; an unknown id changes nothing |
| Execution.ExecutionPlan.MarkStepFailed | backend/leagent/agent/base.py:624-630 | the first step with the id is failed; nothing else changes |
| Execution.CompletedPointwise | backend/leagent/agent/base.py:615-622 | position by position, whatever the ids: the first step with the id gets the status and the result, all others stay, and the id is recorded if and only if there is one |
| Execution.FailedStepBlocks | backend/leagent/agent/base.py:624-630 | once an uncompleted step was marked as failed, no run finishes the plan |
| Execution.FinishesExactlyIfRunnable | backend/leagent/agent/base.py:604-647 | a plan can be run to completion if and only if no step failed and no pending one waits for a cycle, an unknown id or a step that never completes |
| Execution.AnyRunFinishes | backend/leagent/agent/base.py:604-647 | however ready steps are picked one at a time, a run of a runnable plan that cannot go on is complete |
| Execution.RunsAreShort | backend/leagent/agent/base.py:615-622 | each completed step uses up one pending step |
| Execution.SomeStepReady | backend/leagent/agent/planner.py:625-640 | while a runnable plan has a pending step, some step is ready: no deadlock |
| Execution.ExecutionPlan.CompleteExactlyIfNothingReady | backend/leagent/agent/planner.py:628-631 | on a runnable plan `is_complete` holds if and only if `schedule_ready` returns nothing |
| Execution.ShadowedNeverFinishes | backend/leagent/agent/base.py:615-622 | whatever is marked as completed, an unfinished step that shares its id with an earlier one stays as it is |
| Execution.BatchIsRun | backend/leagent/agent/planner.py:625-640 | the steps of one batch can be completed one by one, to the effect of the batch |
| Execution.ReadyTogetherIsRun | backend/leagent/agent/planner.py:625-640 | steps that are ready together can be completed in any order |
| Execution.BatchesAreWaves | backend/leagent/agent/planner.py:625-640 | on a fresh plan the k-th batch of `schedule_ready` is, as a set, the k-th wave, and exactly the earlier waves are completed |
| Execution.BatchesAreGroups | backend/leagent/agent/planner.py:591-640 | on a fresh plan the k-th batch of `schedule_ready` is, as a set, the k-th group of `get_parallel_groups` |
| Execution.BatchesFinish | backend/leagent/agent/planner.py:591-640 | an acyclic closed plan is complete after as many batches as there are groups |
| Replan.MergeReplan | backend/leagent/agent/planner.py:276-309 | the in-place merge computes the merged plan |
| Replan.ReplaceFirstPending | backend/leagent/agent/planner.py:302-305 | the first pending step with the same id is replaced, and only that |
| Replan.MergeMeaning | backend/leagent/agent/planner.py:285-307 | completed steps are untouched, abandoned ones skipped, pending ones replaced by the last replanned step of their id, and the steps with new ids appended in order, repeated ids included |
| Replan.MergeKeepsConsistency | backend/leagent/agent/planner.py:276-309 | the merged plan has unique ids and a completed list that names exactly its completed steps if and only if no new id was replanned twice |
| Replan.MergedFinishesExactly | backend/leagent/agent/planner.py:276-309 | for every adjustment the merged plan can be finished if and only if no replanned id names a failed step, no new id is replanned twice, and the steps that take effect (new ones, and replacements of pending ones) are acyclic and depend only on each other and on completed steps |
| Replan.MergedNeverDeadlocks | backend/leagent/agent/planner.py:276-309 | under that condition every run of the merged plan that cannot go on is complete |
| Replan.RetryUnderSameIdNeverFinishes | backend/leagent/agent/planner.py:303-303 | a failed step that is replanned under its own id stays failed, and the plan never completes |
| Replan.FilteredIsAdjustment | backend/leagent/agent/planner.py:265-267 | the filter of completed ids makes any proposal of pending steps an adjustment |
| Replan.DroppedInOrder | backend/leagent/agent/planner.py:265-267 | the filter keeps the order and doubles nothing |
| Replan.RepeatedNewIdNeverFinishes | backend/leagent/agent/planner.py:299-307 | with a new id replanned twice nothing that is marked as completed ever completes the merged plan |
| Replan.TwinStepsNeverFinish | backend/leagent/agent/planner.py:461-461 | two replanned steps that end up with the same new id, as default ids allow |
| RateLimiter.RateLimitMiddleware.constructor | backend/leagent/api/middleware.py:216-227 | the limit is at least 1 and nothing is recorded |
| RateLimiter.RateLimitMiddleware.Dispatch | backend/leagent/api/middleware.py:233-261 | a request is admitted if and only if, of all admissions ever, fewer than the limit lie in the closed last 60 seconds; the bucket invariant is kept; a rejected client that waits as announced is below the limit if and only if less than a second was left |
| RateLimiter.RateLimitMiddleware.WindowsWithinLimit | backend/leagent/api/middleware.py:205-212 | over any run no closed window of 60 seconds holds more than the limit |
| RateLimiter.BucketCounts | backend/leagent/api/middleware.py:240-245 | once old entries are gone, the bucket's length is the number of admissions of the window |
| RateLimiter.AdmissibleAfterOldest | backend/leagent/api/middleware.py:242-245 | a client is below the limit if and only if the oldest of its last `limit` admissions has left the window |
| RateLimiter.AnnouncedWaitExactly | backend/leagent/api/middleware.py:248-248 | after the announced wait the client is below the limit if and only if less than a second was left; one second later it always is; nobody is told to wait for longer than is left, or one second |
| RateLimiter.AnnouncedWaitTooShort | backend/leagent/api/middleware.py:248-248 | a client told to wait 59 seconds that is still over the limit then |
| Artifacts.DedupeArtifacts | backend/leagent/channels/outbound_artifacts.py:253-292 | the loop over the two indices computes the stepwise definition; what the entries then say is in `Artifacts.EntryExactly` |
| Artifacts.SoundStep | backend/leagent/channels/outbound_artifacts.py:269-291 | throughout, the id index is exact and the path index points at entries that hold the path |
| Artifacts.IdsDistinct | backend/leagent/channels/outbound_artifacts.py:253-292 | no file id is delivered twice |
| Artifacts.EntriesAreMergedGroups | backend/leagent/channels/outbound_artifacts.py:234-292 | conservation: every entry is the left-to-right merge of exactly the inputs sent to it, none of these groups is empty |
| Artifacts.EntryExactly | backend/leagent/channels/outbound_artifacts.py:234-250 | every field of an entry, told from the inputs that went into it: the first id and path; the first name that is no placeholder, else the first name; the first type; "image" if a later input is one, else the first kind |
| Artifacts.JoinsExactly | backend/leagent/channels/outbound_artifacts.py:258-291 | an input goes to the entry with its id if there is one, and otherwise only to one that holds its path; it is dropped exactly if it has neither |
| Artifacts.PathExactly | backend/leagent/channels/outbound_artifacts.py:262-262 | what counts as a path: text that is not blank, taken without outer white space, is no served URL and resolves to something |
| Artifacts.EveryInputRepresented | backend/leagent/channels/outbound_artifacts.py:253-292 | every input with an id or a path shares one of them with the entry it went into, to the end |
| Artifacts.NothingInvented | backend/leagent/channels/outbound_artifacts.py:234-251 | every id and path of an entry comes from an input |
| Artifacts.ImageExactly | backend/leagent/channels/outbound_artifacts.py:246-250 | a merged entry counts as an image if and only if its first input was called one or a later one is one |
| Artifacts.PathsDistinctExactly | backend/leagent/channels/outbound_artifacts.py:270-283 | output paths are pairwise distinct if and only if no input bridges two entries |
| Artifacts.BridgedFileTwice | backend/leagent/channels/outbound_artifacts.py:270-273 | a file known once by id, once by path and then by both is delivered twice |
| Vision.RebuildVisionHistory | backend/leagent/agent/content_parts.py:190-239 | the backward loop with its running budget computes, message by message, the share left by all newer messages; what each message then holds is in `Vision.RebuiltContent` and `Vision.StrippedContent` |
| Vision.TakeImages | backend/leagent/agent/content_parts.py:226-234 | the inner loop takes the first readable images, as many as remain |
| Vision.CandidatesExactly | backend/leagent/agent/content_parts.py:210-234 | only a user message with a list of paths has candidates: what its non-empty image paths give when read, in path order |
| Vision.ShareExactly | backend/leagent/agent/content_parts.py:210-239 | a message is given its first candidates, as many as those of all newer messages leave of `max_images` |
| Vision.RebuiltContent | backend/leagent/agent/content_parts.py:214-238 | a message that is given images starts with its text as one block (its own, or that of its text blocks joined by line breaks and stripped; none if empty), followed by exactly these images |
| Vision.StrippedContent | backend/leagent/agent/content_parts.py:176-206 | without vision, a message with an image block becomes its non-empty texts, joined and stripped; any other keeps its content |
| Vision.ShapeKept | backend/leagent/agent/content_parts.py:190-239 | no message is lost, moved or given another role, and no marker remains |
| Vision.TextModelSeesNoImage | backend/leagent/agent/content_parts.py:166-187 | without vision no image block is sent |
| Vision.NewestImagesFirst | backend/leagent/agent/content_parts.py:210-239 | whatever the messages hold, the rebuilt images are exactly the first `max_images` candidates, newest message first, in path order within one |
| Vision.LowerExactly | backend/leagent/agent/content_parts.py:170-171 | kinds are compared without regard to the case of the letters A to Z |
| Vision.UntouchedWithoutShare | backend/leagent/agent/content_parts.py:218-238 | a message that gets no image keeps its content |
| Vision.OnlyRebuiltImages | backend/leagent/agent/content_parts.py:210-239 | if no message brings images of its own, these are all the images sent |
| Vision.ImagesCounted | backend/leagent/agent/content_parts.py:196-206 | the images sent are those within the budget plus those that messages without a rebuilt image brought themselves |
| Vision.InlineImageEscapesBudget | backend/leagent/agent/content_parts.py:200-202 | an image already inside a message is sent even with a budget of 0 |
| MessageIds.AssignIds | backend/leagent/agent/controller.py:692-737 | the loop that pops candidate ids computes, for every message, the id given by counting: the n-th message with some role and content gets the id of the n-th stored one |
| MessageIds.ClaimedExactly | backend/leagent/agent/controller.py:719-723 | a stored message is matched by content if and only if enough messages have its role and content |
| MessageIds.PositionalExactly | backend/leagent/agent/controller.py:711-726 | by position a message takes only the id of a stored message of the same role, and exactly if its own id is not given and no stored message with its role and content is left |
| MessageIds.HandedOutExactly | backend/leagent/agent/controller.py:719-726 | a stored id is given to some message if and only if its role and content are asked for often enough, or the message at its position falls back on it |
| MessageIds.ReusedOnce | backend/leagent/agent/controller.py:719-723 | no stored message is matched by content twice |
| MessageIds.DistinctExactly | backend/leagent/agent/controller.py:692-737 | for all inputs, stored repetitions included, the saved ids are pairwise distinct if and only if no stored message is taken both by position and by content, no two that are handed out share an id, and the id given from outside is none of theirs |
| MessageIds.OldIdsKept | backend/leagent/agent/controller.py:692-723 | when the stored messages come first and unchanged, each keeps its own id, even among equal ones |
| MessageIds.LaterIdsNew | backend/leagent/agent/controller.py:707-730 | in that case every later message gets a new id, or the one given from outside |
| MessageIds.ContinuedDistinctExactly | backend/leagent/agent/controller.py:692-737 | in that case all ids are distinct if and only if the stored ones were and the id given from outside is not among them |
| MessageIds.ShiftedTranscriptClashes | backend/leagent/agent/controller.py:725-726 | after the oldest message was dropped, a new message takes the id that an old one keeps |

## Left out

- Scheduling.TopologicalOrder: order and exact contents are stated for plans with unique ids, likewise the waves in `Scheduling.GroupsAreWaves`, `QueueOrder.OrderExactly` and the batches; what holds for any plan is in `Scheduling.SortedOnce`, `Scheduling.CircularExactly` and `Scheduling.GroupsHoldSorted`.
- Execution.FinishesExactlyIfRunnable: is stated for plans with unique ids; `Execution.ShadowedNeverFinishes` says what a repeated id does.
- Replan.MergeReplan: steps are values, so an adjustment step that later shares an object with the merged plan is not modelled.
- Replan.MergedFinishesExactly: the plan under way has unique ids and a correct completed list; the adjustment consists of pending steps, as every built plan does (backend/leagent/agent/planner.py:456-472), none of them completed.
- Execution.ExecutionPlan.MarkStepCompleted: step results are text, and `progress` and the duplicate `get_ready_steps` are not modelled.
- QueryRuns.HeadsRefineEngine: tool arguments are erased, because length salvage rewrites them after the engine has copied the message; the attachments of the turn are part of the seed transcript.
- Query.RunQuery: stream deltas and reasoning text are not among its events, `query`'s handling of a closed generator is not modelled, and the per-turn cap is not negative.
- QueryLoop: compaction is an arbitrary result list and does not reach into the loop's own messages; salvage of `canvas_publish` arguments, approval decisions and rewriting of the model's text are arbitrary inputs.
- Dispatch.DispatchTools: outcomes are given, so the retries inside one tool run (`ErrorRecovery`) and a cancellation that escapes the batch are not modelled.
- StreamDriver.CallModel: JSON parsing, blob ingestion, redaction of streamed arguments and the extraction of calls from text are abstract functions; the id and name that go with a fragment, waiting between attempts and usage figures are left out.
- RateLimiter.RateLimitMiddleware.Dispatch: time is a real number that never goes back, free of floating-point rounding; exempt paths are a flag.
- Artifacts.PathsDistinctExactly: assumes that resolving a resolved path gives it back or is refused as a served URL; path resolution and case folding are otherwise arbitrary.
- Artifacts.DedupeArtifacts: name, content type and kind are text, empty when missing; entries that are not dictionaries are not in the input.
- Vision.OnlyRebuiltImages: assumes seed messages without images of their own; `Vision.NewestImagesFirst` and `Vision.ImagesCounted` say what happens in general. Image files do not change during the call.
- MessageIds.DistinctExactly: assumes only that new ids clash with nothing.
- Control.SessionControlRegistry.ClearSession: only the steer queue is modelled; next-turn messages and plan mode are plain list and set operations.
- Base64.DecodeCut, Utf8.StrictCutText: text with lone surrogates has no encoding and is not a value of the model's strings.
- The engine's result frame reports usage accumulated before the current turn; no claim is made about it.
- Providers, HTTP, the database, the file system, channels, the workflow engine, hooks, metrics, logging and prompt texts are not part of this model.
- `RateLimitHook` in `hooks.py` enforces nothing, since its exception is swallowed; the string heuristics for HTML and JSON have no meaning to preserve.
