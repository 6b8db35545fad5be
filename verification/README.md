# GitHub for Jira: a verified model of the backfill engine and its neighbours

GitHub for Jira copies the history of an organisation's repositories into Jira. The copy, called a *backfill* or *sync*, is
driven by queue messages: each message picks one main task and a random handful of side tasks, fetches one page for each of
them, records statuses and cursors, and sends the next message. This project models that engine, the queue and the lock it
runs under, and the text and arithmetic algorithms beside it, and proves what they are meant to guarantee.

The project verifies with `dafny verify dfyconfig.toml` (Dafny 4.11).

## How the model is built

State that the source updates in place is a class (`BackfillWorker.Worker`, `PageCounterCursor.PageSizeAwareCounterCursor`,
`SqsQueue.SqsQueue`, `Deduplicator.RedisInProgressStorage`, `WorkersMonitor.MasterMonitor`). Its methods are proved equal to
functions on a value, and the properties are proved about those functions. The loops of the source are loops here
(`Scheduler.CalculateNextTasksWithSubtasks`, `Unfurl.AddJiraIssueLinks`, `CanonicalRequest.CanonicalizeQueryString`, ...).
GitHub, Jira, the clock, random numbers and feature flags are free inputs: every theorem holds for all of them.

| file | what it covers |
|---|---|
| `SyncTypes`, `Scheduler` | rows, tasks, the choice of main and side tasks |
| `BackfillStore` | what one message does to the subscription and its rows; side tasks commute |
| `BackfillEffects` | what each step leaves in the rows, column by column |
| `BackfillRuns` | messages and store over whole histories; when a sync gets stuck; COMPLETE is earned |
| `BackfillInterleavings` | several handlers of one message, time limits, crashes and redelivery; a delivery as a run of smaller steps |
| `BackfillTermination` | every sync ends |
| `BackfillRetries` | a retried message repeats its task |
| `BackfillBuilds` | the build task inside whole backfills: a complete sync has handed over all wanted runs |
| `FromDates` | the recorded from-dates over whole runs |
| `BackfillWorker` | the same engine as methods that update fields |
| `PageCounterCursor`, `ParallelPageFetcher`, `BuildTask` | counter pagination, parallel fetch, the build task |
| `Deduplicator` | the heartbeat lock as a timed state machine |
| `ErrorHandlers`, `SqsQueue` | verdicts, delays, and the life of a message in a queue |
| `IssueKeys`, `Unfurl` | the issue-key scanner and the reference links |
| `PercentEncoding`, `StringSort`, `CanonicalRequest` | the canonical request of Atlassian Connect |
| `WorkersMonitor`, `InstallationId`, `Cidr` | the worker monitor, the installation identifier, IPv4 ranges |
| `Wrappers`, `Decimal`, `Text` | result types, decimal numbers, string operations |

## Main results

1. **Every sync ends** (`BackfillTermination.EverySyncEnds`). From every state that a start leaves, if each non-empty page
   brings its source nearer to the end and only finitely many deliveries are put off or cannot delete their message, the
   queue runs empty, whatever fails on the way, and the subscription is then COMPLETE or FAILED if and only if no delivery
   dropped the last message. The measure is lexicographic: undiscovered repositories, discovery left, work left, attempts
   left. `BuildTaskIsFinite` shows that the build task meets the hypothesis on sources although its number of unread items
   does not shrink with every page.
2. **When a sync gets stuck** (`BackfillRuns.NeverStuck`): over all histories a sync that has not stopped always has a message
   queued if and only if no delivery drops the last one, which the code does for a blocked installation and, under a feature
   flag, for a duplicate. With any number of handlers, time limits, crashes and redelivery there are exactly three steps that
   strand a sync (`BackfillInterleavings.NeverStuckInAnyInterleaving`). One of them, restarting a stopped sync without a
   message, cannot happen while messages stay hidden longer than their handlers are waited for and handlers decide in that
   time (`TimelyFleetKeepsGoing`); the lock alone does not exclude it (`LockIsNotEnough`).
   **What multiplies messages** (`MultipliesExactly`): under the same hypothesis on visibility, what can become a message grows
   exactly when a start sends its message, when the time limit of a handler passes while it goes on, and when a worker that
   has only to delete its message, mostly after sending the successor, dies or fails to delete it; each time by one. The
   count is the largest number of messages that can be visible at once (`LinesAreReached`, `VisibleAtMostLines`).
3. **Which runs are lost when the page size changes** (`BuildTask.NothingLostExactly`): none, for any page sizes and flags, if
   and only if every wanted run behind one that is too old is also listed in front of that one; GitHub's newest-first order
   is enough. Inside whole backfills (`BackfillBuilds.BuildsAreKept`, `CompleteSyncHandedOver`): over all histories, a sync
   that is COMPLETE has handed over all wanted runs of every repository, unless its build task failed or GitHub answered that
   it is gone; and every started sync ends (`StartedSyncHandsOverBuilds`). And **fetching pages in parallel gives what
   fetching them one by one gives, exactly if no non-empty page follows an empty one**
   (`ParallelPageFetcher.ParallelRefinesSequential`).
4. **Scheduling**: the pool of side tasks is large or complete, the tasks of a message never touch the same column, the store
   does not depend on the order in which they settle, and a message that is left for a retry meets its main task again with
   the same cursor (`BackfillRetries.RetryRepeatsTask`).
5. **The lock**: at most one worker runs a key, and a step is orderly if and only if no orderly continuation makes two workers
   run one job (`Deduplicator.OrderlyIsExact`); a crashed worker's key becomes free, and the verdict "another worker is doing
   this job" is sound without any hypothesis.
6. **The queue**: a message goes if and only if one of the stated reasons holds, and delays stay in the range of the service.
7. **Text**: the key scanner is exact, unfurling is conservative, and idempotent for sites whose base URL and tracking
   identifier hold no `[`; the canonical request identifies exactly the requests it should, identifiers are read back exactly
   for base URLs without line breaks.
8. **Extras**: the worker monitor decides exactly, and the signed 32-bit mask test is the prefix test of section 3.1 of
   RFC 4632.

Claims that do not hold of the code are stated as such, with the exact condition under which they hold:

- a dropped message strands its sync exactly if it was the last one (`StepStuckIff`, `StepStrandsIff`);
- one message becomes two when a handler outlives its time limit (`LateHandlerAddsOne`) and when a worker dies or fails to
  delete after the send (`CrashAfterSendAddsOne`); apart from starts there is no other case (`StepMultipliesIff`);
- without the non-interleaving hypothesis two workers run one job (`TwoLooksRunTwice`, `OrderlyIsExact`);
- in `[AB-1][CD-2]` the second key gets no link (`SecondIsPassedOver`); all bracketed keys are considered exactly if no two
  share a delimiter and the scan stays within its limit (`AllVisitedIff`, and key by key `VisitedIsConsidered`);
- canonicalising a path twice differs from doing it once exactly for paths with a second trailing slash
  (`CanonicalUriTwice`);
- with a from-date the build task loses runs of a list with a wanted run only behind one that is too old
  (`HiddenRunIsLost`, `NothingLostExactly`).

Where the code and its comments disagree, the model follows the code: the comment above the key expressions speaks of
Unicode letters and of 255 digits, the expressions take `[A-Z]` under the flags `i` and `u` (so also U+017F and U+212A) and
up to 256 digits; the comment in the deduplicator says a duplicate may be dropped, the backfill reschedules it.

## Model

| member | source | states |
|---|---|---|
| PageCounterCursor.SerialiseRoundTrip | src/sync/page-counter-cursor.ts:20-62 | a stored cursor is read back as it was, for every page size and page number |
| PageCounterCursor.ScaleNeverSkips | src/sync/page-counter-cursor.ts:35-47 | rescaling lands on a page boundary at or before the old position and less than one new page before it |
| PageCounterCursor.ScaleIsUnique | src/sync/page-counter-cursor.ts:35-47 | only one page of the new size has that property, so the result is determined by it |
| PageCounterCursor.PageSizeAwareCounterCursor.FromText | src/sync/page-counter-cursor.ts:20-31 | empty and plain-number texts count pages of 20, a serialised cursor keeps its size; other formats of numbers and JSON are errors here |
| PageCounterCursor.PageSizeAwareCounterCursor.Scale | src/sync/page-counter-cursor.ts:35-47 | the two fields change as the scaling function says |
| PageCounterCursor.PageSizeAwareCounterCursor.CopyWithPageNo | src/sync/page-counter-cursor.ts:49-54 | a fresh cursor with the same page size and the given page; the original stays |
| PageCounterCursor.PageSizeAwareCounterCursor.Serialise | src/sync/page-counter-cursor.ts:56-61 | the text parses back to the cursor |
| ParallelPageFetcher.MergeJiraPayload | src/sync/parallel-page-fetcher.ts:4-22 | merging keeps all builds and pull requests of both payloads in order |
| ParallelPageFetcher.ParallelFailure | src/sync/parallel-page-fetcher.ts:24-52 | the parallel fetch fails exactly if some page fails |
| ParallelPageFetcher.ParallelEdges | src/sync/parallel-page-fetcher.ts:24-52 | the last edge carries the cursor behind the last non-empty page |
| ParallelPageFetcher.SequentialResult | src/sync/installation.ts:96-145 | one-page messages stop at the first empty page, with the builds of the pages before it |
| ParallelPageFetcher.ParallelRefinesSequential | src/sync/parallel-page-fetcher.ts:24-52 | same next cursor as one-page messages if and only if no non-empty page follows an empty one, and then the same builds in order |
| ParallelPageFetcher.CompletedByTheNextMessage | src/sync/parallel-page-fetcher.ts:24-52 | what the one-page messages have completed is completed by the next parallel message without any further build |
| BuildTask.BuildPagesAreSerial | src/sync/build.ts:67-127 | an edge of the build task carries the cursor of the next page, and a page without edges has no builds |
| BuildTask.EmptyPageIff | src/sync/build.ts:67-138 | a page yields no edge exactly if every run on it predates the from-date or there is none |
| BuildTask.OrdersCompared | src/sync/build.ts:74-88 | newest first implies that old runs are last, and that implies that old runs hide nothing; without repeated runs the last two are the same |
| BuildTask.BuildPagesHaveEmptyTail | src/sync/build.ts:67-138 | if the runs that are too old are the last ones, build pages meet the hypothesis of the refinement theorem |
| BuildTask.EmptyTailExactly | src/sync/build.ts:67-138 | they meet it for all cursors and numbers of pages if and only if the runs that are too old are the last ones |
| BuildTask.ParallelOfOne | src/sync/build.ts:29-45 | fetching one page in parallel is fetching it |
| BuildTask.MessageSendsAll | src/sync/build.ts:90-126 | the builds sent to Jira are those of all the runs handed over, in their order, for any number of parallel pages |
| BuildTask.TaskIsParallelFetch | src/sync/build.ts:29-65 | whatever the flag, the task is a parallel fetch of the scaled cursor |
| BuildTask.FetchSkipsNothing | src/sync/build.ts:29-127 | one fetch for a message that asks for runs since some date, with any page size and number of pages: of what is wanted since that or a later date nothing is skipped, a fetch with edges moves forward, one without means that nothing is left |
| BuildTask.MessageSkipsNothing | src/sync/build.ts:29-127 | one message with any page size and any number of pages, on a list whose old runs hide no wanted one: every run before the cursor was handed over or is too old, the position grows, and completion means that nothing is left |
| BuildTask.NoDataLoss | src/sync/build.ts:38-100 | the same over any number of messages, each with its own page size and flag, from any state in which nothing was skipped |
| BuildTask.HiddenRunIsLost | src/sync/build.ts:82-88 | a wanted run that stands only behind a run that is too old is lost by some run from the start, for every list and from-date |
| BuildTask.NothingLostExactly | src/sync/build.ts:67-138 | from the start no run is lost for any page sizes and flags, if and only if every wanted run behind one that is too old is also listed in front of that one |
| BuildTask.StartSkipsNothing | src/sync/page-counter-cursor.ts:20-25 | a task without a cursor starts with nothing skipped |
| BuildTask.FetchMakesProgress | src/sync/build.ts:29-127 | a page with edges brings the task strictly nearer to its end, for page sizes up to 100 |
| Scheduler.AllowedTasksDistinct | src/sync/installation.ts:44-54 | the target tasks are distinct and never contain discovery |
| Scheduler.AllowedTasksExact | src/sync/scheduler.ts:167-170 | a task is allowed exactly if it is targeted or nothing is, and security alerts need the flag and the permissions |
| Scheduler.EstimateNumberOfSubtasks | src/sync/scheduler.ts:21-42 | at most 100 side tasks, and together with the main task they fit into the remaining quota of both limits |
| Scheduler.QuotaIsUsed | src/sync/scheduler.ts:21-42 | below the cap one more side task would not fit |
| Scheduler.MapSyncStateToTasks | src/sync/scheduler.ts:44-66 | the loop yields the pending tasks of the row in the order of the task list |
| Scheduler.PendingTasksExact | src/sync/scheduler.ts:44-85 | exactly the tasks with an empty or pending status, and there is one if and only if the row meets the query condition |
| Scheduler.RowLimitSuffices | src/sync/scheduler.ts:90-135 | a row limit above what is still to gather cuts nothing off |
| Scheduler.QueryLimitIsLargeEnough | src/sync/scheduler.ts:172-175 | the limit of (nSubTasks + 1) * 10 rows never decides which tasks make up the pool |
| Scheduler.PoolIsLargeOrComplete | src/sync/scheduler.ts:106-141 | the pool holds more than 10 tasks per side task, or all pending tasks but the main one |
| Scheduler.CalculateNextTasksWithSubtasks | src/sync/scheduler.ts:106-141 | the loop's main task and pool are the pending tasks in row order, and the side tasks are the first of the shuffled pool |
| Scheduler.GetNextTasks | src/sync/scheduler.ts:151-191 | every path, including the one-row path, gives the schedule of the specification |
| Scheduler.ScheduleIsValid | src/sync/scheduler.ts:137-140 | for every shuffle the side tasks are drawn from the pool without repetition, as many as asked for or all of them |
| BackfillRetries.FailedAttemptKeepsMainTask | src/sync/installation.ts:351-375 | when the main task fails, it is the main task of the state that is left, with its cursor, whatever the side tasks recorded in whatever order |
| BackfillRetries.RetryRepeatsTask | src/sync/scheduler.ts:117-122 | a message whose error leaves it for a retry sends nothing and meets the same main task with the same cursor, whatever rate limit, shuffle and answers the next attempt meets, as long as the security-alert flag stays |
| Scheduler.MainTaskIsFirst | src/sync/scheduler.ts:117-128 | it is the first pending allowed task of the newest row that has one, and there is none exactly if nothing is pending |
| Scheduler.ScheduledTasksApart | src/sync/scheduler.ts:137-140 | main and side tasks are pairwise different, at most 101, and all pending |
| BackfillStore.ResetRowIsExact | src/sync/sync-utils.ts:72-122 | a targeted start makes exactly the targets pending, and clears their cursors only when it is full |
| BackfillStore.WriteSubExact | src/sync/installation.ts:548-550 | of a list of writes the last discovery status and the last discovery cursor reach the subscription, and nothing else of it changes |
| BackfillStore.WriteRowExact | src/sync/installation.ts:548-553 | of a list of writes the last status and the last cursor of every other task reach the row; discovery writes do not |
| BackfillStore.JobsCommute | src/sync/installation.ts:548-555 | two different tasks may record their results in either order |
| BackfillStore.SettlingOrderIrrelevant | src/sync/installation.ts:351-360 | the tasks of a message may settle in any order; the store ends up the same |
| BackfillEffects.FetchedPageRecorded | src/sync/installation.ts:96-153 | a page sets the status Complete and keeps the cursor, or sets Pending and the cursor, in the row of its repository; no status, cursor or date of another task, no other row and no subscription field changes |
| BackfillEffects.FailureRecorded | src/sync/installation.ts:396-417 | a failed task gets its status and code and keeps its cursor and dates, a permission error also warns; no column of another task and no other row changes, and the sync goes on |
| BackfillEffects.FailedDiscoveryRecorded | src/sync/installation.ts:412-416 | a failed discovery stops the sync |
| BackfillEffects.DiscoverIsExact | src/sync/discovery.ts:68-76 | discovery adds one untouched row, and not two, for every repository that had none and leaves the others alone |
| BackfillEffects.StartedRows | src/sync/sync-utils.ts:30-43 | which tasks are pending, and from which cursor, after a full, partial or targeted start |
| BackfillEffects.StartedDiscovery | src/sync/sync-utils.ts:22-37 | when a start discovers anew, and from where |
| BackfillRuns.ProcessedStatus | src/sync/installation.ts:299-305 | the subscription ends COMPLETE without a main task and ACTIVE with one |
| BackfillRuns.HandledStatus | src/sqs/backfill-error-handler.ts:16-89 | the sync is stopped exactly by a failed discovery, and then nothing is sent |
| BackfillRuns.SuccessorUnlessStopped | src/sync/installation.ts:466-540 | a message is replaced by at most one message, and by none only if it is dropped, which changes nothing else, or the sync stops; when its delete fails it stays besides |
| BackfillRuns.StepStuckIff | src/sync/installation.ts:466-540 | one delivery leaves a running sync without a message if and only if it drops the last one; the queue grows only when a delete fails, by one |
| BackfillRuns.NeverStuck | src/sqs/sqs.ts:326-405 | over all histories of starts, removals and deliveries, blocked or not, a sync that has not stopped always has a message queued if and only if no delivery drops the last message of such a sync |
| BackfillRuns.CompleteIsEarned | src/sync/installation.ts:299-303 | COMPLETE if and only if, in the state read, discovery is complete and every allowed task of every row is complete or failed; then nothing is sent, no row changes, and the from-date is kept |
| BackfillInterleavings.StepStrandsIff | src/sync/installation.ts:476-540 | a write, send, delete, expiry, time-out or crash strands a sync if and only if it drops its last message, sets it to ACTIVE again after it had stopped with every message settled, or breaks off its start |
| BackfillInterleavings.NeverStuckInAnyInterleaving | src/sqs/sqs.ts:326-405 | with any number of handlers, also several of one message, time limits, crashes and redelivery: a sync that has not stopped always has a message that nobody is about to delete, or a start about to send one, if and only if no step is one of the three |
| BackfillInterleavings.TimelyFleetKeepsGoing | src/sqs/sqs.ts:337-347 | while messages stay hidden longer than their handlers are waited for, and decisions are made in time, no sync is stranded unless its last message is dropped or its start broken off; the lock is not needed for it |
| BackfillInterleavings.LockIsNotEnough | src/sync/installation.ts:526-536 | the lock alone does not prevent it: although tasks never run twice at a time, a handler that outlived its time limit restarts a sync whose discovery failed meanwhile and whose message is gone |
| BackfillInterleavings.StepMultipliesIff | src/sqs/sqs.ts:224-245 | while messages stay hidden longer than their handlers are waited for, what can become a message grows in a step if and only if a start sends, a time limit passes, or a worker that has only to delete its message dies or fails to; by one |
| BackfillInterleavings.MultipliesExactly | src/sqs/sqs.ts:326-405 | over all such runs it never grows if and only if no step is one of the three, and never by more than their number |
| BackfillInterleavings.LinesAreReached | src/sqs/sqs.ts:326-405 | unless the subscription is gone, as many messages can become visible at once, without any of the three steps |
| BackfillInterleavings.VisibleAtMostLines | src/sqs/sqs.ts:326-405 | and never more are visible, but for one for each of the three |
| BackfillInterleavings.StepConserves | src/sync/installation.ts:482-540 | counting visible messages and handlers that have sent nothing, a step adds if and only if it is a redelivery or the send of a start, in every interleaving |
| BackfillInterleavings.MessagesDoNotMultiply | src/sync/installation.ts:482-540 | that count over all runs, without any hypothesis: at most one more for every redelivery and every start |
| BackfillInterleavings.LateHandlerAddsOne | src/sync/installation.ts:526-536 | a handler goes on after its time limit, another one reschedules the redelivered message, and one message has become two |
| BackfillInterleavings.CrashAfterSendAddsOne | src/sqs/sqs.ts:224-245 | a worker dies between the send of the successor and the delete, or the delete fails, and one message has become two without any handler left |
| BackfillInterleavings.DeliveryIsARun | src/sqs/backfill-error-handler.ts:16-104 | every whole delivery, dropped ones and failing deletes included, is one of these runs, with the same status and as much that leads on |
| BackfillTermination.JobsLighten | src/sync/installation.ts:351-375 | the tasks of a message never add work, and a successful main task removes some |
| BackfillTermination.ProcessedRank | src/sync/installation.ts:280-375 | a processed message lowers the measure when its main task succeeds and never raises it |
| BackfillTermination.HandledRank | src/sqs/backfill-error-handler.ts:16-89 | a handled error lowers the measure, stops the sync, or leaves a retry |
| BackfillTermination.StepCloser | src/sync/installation.ts:280-418 | every delivery that is not put off brings the run nearer to its end |
| BackfillTermination.QueueRunsEmpty | src/sqs/queues.ts:29-40 | the queue runs empty, if only finitely many deliveries are put off or fail to delete |
| BackfillTermination.EverySyncEnds | src/sync/installation.ts:280-418 | with finite sources and finitely many postponements and failing deletes the queue runs empty, and then the sync is COMPLETE or FAILED if and only if no delivery dropped its last message |
| BackfillTermination.StartedSyncEnds | src/sync/sync-utils.ts:13-64 | so does every sync that was started, full, partial or targeted |
| BackfillTermination.BuildTaskIsFinite | src/sync/build.ts:29-127 | the build task is a finite source, with any page size up to 100 and any number of parallel pages |
| BackfillBuilds.NewestFirstIsWellListed | src/sync/build.ts:74-88 | a list that is newest first meets the hypothesis of the next three rows for every date |
| BackfillBuilds.BuildsAreKept | src/sync/installation.ts:79-155 | over all histories of starts, removals and deliveries, with any page sizes, parallel pages, failures, retries, side tasks and dates of messages: no run before a stored build cursor is skipped, and a build column is Complete only if all wanted runs were handed over or the repository was gone |
| BackfillBuilds.CompleteSyncHandedOver | src/sync/installation.ts:299-303 | a sync that is COMPLETE has handed over all wanted runs of each repository whose build task did not fail and that was not gone |
| BackfillBuilds.StartedSyncHandsOverBuilds | src/sync/sync-utils.ts:13-64 | every sync that is started for builds ends, and ends COMPLETE only in that way |
| FromDates.EarliestIsMinimum | src/sync/installation.ts:126-137 | the reference value is a lower bound of the old value and of all completions, and one of them |
| FromDates.FromDateOverHistory | src/sync/installation.ts:126-137 | over all histories of deliveries and of partial and targeted starts the recorded date is that minimum |
| FromDates.BranchesRecordNoDate | src/sync/installation.ts:127-128 | over all these histories the stored date of branches and of discovery keeps its value |
| BackfillWorker.Worker.UpdateRepo | src/sync/installation.ts:548-555 | the last discovery status and cursor written go to the subscription and nothing else of it changes; the last status and cursor of every other task go to the rows of the repository, and rows of other repositories stay |
| BackfillWorker.Worker.UpdateTaskStatusAndContinue | src/sync/installation.ts:79-155 | the fields and the follow-up message are those of the specification, also when the subscription is gone |
| BackfillWorker.Worker.MarkCurrentTaskAsFailedAndContinue | src/sync/installation.ts:384-418 | failure, permission warning, and the stop of a failed discovery |
| BackfillWorker.Worker.ExecuteTask | src/sync/installation.ts:307-349 | a thrown error leaves the task as it was |
| BackfillWorker.Worker.DoProcessInstallation | src/sync/installation.ts:280-375 | all tasks run, only the main task's error is rethrown |
| BackfillWorker.Worker.ProcessInstallation | src/sync/installation.ts:453-546 | one follow-up after the flag is released, a rescheduled copy for a duplicate, nothing for a blocked installation or for a duplicate that the feature flag discards |
| BackfillWorker.Worker.HandleTaskError | src/sqs/backfill-error-handler.ts:16-89 | the four kinds of task error with their writes, sends and verdicts |
| BackfillWorker.Worker.ExecuteMessage | src/sqs/sqs.ts:283-384 | one delivery of the backfill queue is one step of the runs, also when its delete fails |
| BackfillWorker.Worker.DeleteMessage | src/sqs/sqs.ts:224-245 | the message goes, or stays with one more receive when the service fails |
| BackfillWorker.Worker.FindOrStartSync | src/sync/sync-utils.ts:13-64 | the state a sync starts from, and its first message |
| Deduplicator.RedisInProgressStorage.HasInProgressFlag | src/sync/deduplicator.ts:93-105 | the holder of the flag unless it is stale |
| Deduplicator.RedisInProgressStorage.RemoveInProgressFlag | src/sync/deduplicator.ts:107-109 | only the flag of the key goes |
| Deduplicator.RedisInProgressStorage.SetInProgressFlag | src/sync/deduplicator.ts:111-119 | the flag carries the runner and the time |
| Deduplicator.GoesAheadIff | src/sync/deduplicator.ts:184-192 | a runner goes ahead if and only if there is no flag or it is ten periods old |
| Deduplicator.ExclusiveStep | src/sync/deduplicator.ts:181-206 | an orderly step keeps at most one runner per key |
| Deduplicator.OrderlyIsExact | src/sync/deduplicator.ts:184-197 | from a state in which the lock works, a step is orderly if and only if no orderly continuation makes two runners run one job |
| Deduplicator.AtMostOneRuns | src/sync/deduplicator.ts:181-206 | in every state an orderly run reaches at most one worker runs a key |
| Deduplicator.AtMostOneRunsFromStart | src/sync/deduplicator.ts:155-206 | so from the start, with the heartbeat period the deduplicator derives from its timeout |
| Deduplicator.TwoLooksRunTwice | src/sync/deduplicator.ts:184-192 | two looks before the first raise let two workers run one job |
| Deduplicator.CrashedKeyRecovers | src/sync/deduplicator.ts:93-105 | ten periods after the last beat of a crashed worker whoever looks goes ahead, unless somebody raised the flag since |
| Deduplicator.LiveVerdictIsSound | src/sync/deduplicator.ts:121-146 | "another worker is doing this job" only if that worker wrote the flag between the two looks, in every interleaving |
| Deduplicator.LiveRunnerIsRecognised | src/sync/deduplicator.ts:121-146 | its partner: a worker that wrote its flag within the last two periods is recognised at the second look, in every run |
| Deduplicator.FinishedKeyIsFree | src/sync/deduplicator.ts:199-205 | a finished or failed job frees its key at once |
| Deduplicator.TurnedAwayWroteNothing | src/sync/deduplicator.ts:184-190 | a caller that was turned away has written nothing to the store |
| Deduplicator.TurnedAwayFromStart | src/sync/deduplicator.ts:155-192 | so from the start, for every timeout and in every interleaving |
| ErrorHandlers.DiscardedIff | src/sqs/error-handlers.ts:39-101 | an error is given up exactly for the statuses 401, 403 and 404, never for a GitHub rate limit |
| ErrorHandlers.GithubDelayGrows | src/sqs/error-handlers.ts:103-115 | for a fixed reset and clock each further retry waits strictly longer, although the buffer shrinks |
| ErrorHandlers.RetryAfterReset | src/sqs/error-handlers.ts:103-115 | a retry comes ten to fifty seconds after the reset, and an hour later for every earlier attempt |
| ErrorHandlers.BackoffGrows | src/sqs/error-handlers.ts:23-37 | an unknown error is retried after at least a minute, and after strictly longer at every further attempt |
| ErrorHandlers.PostponedIff | src/util/preemptive-rate-limit.ts:18-71 | a message is put off exactly if a limit is used up to the threshold, and then for ten minutes or until both limits are reset |
| SqsQueue.SendDelayInRange | src/sqs/sqs.ts:72-81 | a non-negative delay ends below 900 seconds and is used as it is where it can be |
| SqsQueue.PreemptiveDelayInRange | src/util/preemptive-rate-limit.ts:18-71 | a message put off for the rate limit comes back after 600 to 900 seconds |
| SqsQueue.VisibilityInRange | src/sqs/sqs.ts:421-441 | what is set lies in 0..43199, follows the wish to half a second, and keeps the order of wishes |
| SqsQueue.RetriesWaitLonger | src/sqs/error-handlers.ts:103-115 | after clamping and rounding a later retry still waits longer, up to the maximum |
| SqsQueue.SqsQueue.Send | src/sqs/sqs.ts:72-88 | one new message with the clamped delay |
| SqsQueue.SqsQueue.Delete | src/sqs/sqs.ts:224-245 | needs a receipt handle and a working service; nothing else changes |
| SqsQueue.SqsQueue.DeleteStale | src/sqs/sqs.ts:247-281 | only deployments older than one day |
| SqsQueue.SqsQueue.ChangeVisibility | src/sqs/sqs.ts:421-445 | the new timeout, or nothing for a negative wish, a missing handle or a failing service |
| SqsQueue.SqsQueue.HandleError | src/sqs/sqs.ts:357-414 | deletes, delays or leaves the message according to the verdict |
| SqsQueue.SqsQueue.Execute | src/sqs/sqs.ts:283-355 | every branch of the execution of one message |
| SqsQueue.RemovedIffJustified | src/sqs/sqs.ts:283-405 | a message goes if and only if it was handled, is stale, was replaced, or its error gives it up, and the service deletes |
| SqsQueue.RetriedMessageWaits | src/sqs/sqs.ts:339-414 | a message to be retried stays hidden for the delay of the verdict, otherwise for the time limit and two seconds |
| SqsQueue.WebhookGivesUpIff | src/sqs/queues.ts:45-76 | a webhook's failing message is given up exactly for 401, 403 and 404 that are no GitHub rate limit |
| SqsQueue.RemovedForAReason | src/sqs/sqs.ts:283-405 | in any run a missing message was removed by its own execution for one of these reasons |
| SqsQueue.UnaddressedMessagesStay | src/sqs/sqs.ts:286-294 | a message without a Jira host or installation is left in the queue |
| IssueKeys.KeyEndExact | src/util/jira-utils.ts:84-86 | the scanner stops at an index exactly if a key stands before it and no digit follows |
| IssueKeys.MatchAtExact | src/util/jira-utils.ts:84-86 | the expression matches at an index exactly if a delimited key starts there or behind the delimiter there |
| IssueKeys.ExecExact | src/util/jira-utils.ts:84-86 | a search finds the leftmost occurrence and passes over none |
| IssueKeys.OccurrencesApart | src/util/jira-utils.ts:84-86 | two delimited keys never overlap |
| IssueKeys.MatchAllExact | src/util/jira-utils.ts:113-120 | the matches are exactly the delimited occurrences in order, including those that share a delimiter |
| IssueKeys.UniqExact | src/util/jira-utils.ts:119-120 | each element once, in the order of first appearance |
| IssueKeys.ParserIsExact | src/util/jira-utils.ts:113-121 | over every text: exactly the occurring keys, upper-cased, once each, in order of first appearance |
| Unfurl.BracketAtExact | src/util/jira-utils.ts:93-95 | the bracket expression matches at an index exactly if a bracketed key starts there |
| Unfurl.VisitedExact | src/jira/util/jira-client-util.ts:39-45 | the loop visits a bracketed key exactly if no visited match before it takes its delimiter or reaches the limit of 1000 |
| Unfurl.VisitedIsConsidered | src/jira/util/jira-client-util.ts:39-45 | the same on the text alone: a bracketed key is visited exactly if no key before it that is itself considered takes its delimiter or reaches the limit |
| Unfurl.AllVisitedIff | src/jira/util/jira-client-util.ts:39-45 | every bracketed key is visited if and only if no two share a delimiter and all but the last end within the limit |
| Unfurl.SecondIsPassedOver | src/jira/util/jira-client-util.ts:39-45 | of two bracketed keys side by side only the first is visited |
| Unfurl.AddJiraIssueLinks | src/jira/util/jira-client-util.ts:28-64 | the loop with its index yields the text of the specification |
| Unfurl.LinksExact | src/jira/util/jira-client-util.ts:47-61 | a line is added exactly for a visited key that is valid and not referred to yet |
| Unfurl.LinkedText | src/jira/util/jira-client-util.ts:28-64 | the text stays in front, every added line refers to a valid issue bracketed in it, and every visited valid issue is referred to in the result |
| Unfurl.AllReferred | src/jira/util/jira-client-util.ts:28-64 | under that condition every valid issue in brackets is referred to in the result |
| Unfurl.LinkingTwice | src/jira/util/jira-client-util.ts:28-64 | applying it again changes nothing, for a base URL and tracking identifier without `[` |
| PercentEncoding.EncodesReserved | src/jira/util/jwt.ts:328-331 | the three passes encode exactly the characters that are not unreserved in section 2.3 of RFC 3986, as section 2.1 says |
| PercentEncoding.EncodedChars | src/jira/util/jwt.ts:328-331 | encoded text holds only unreserved characters and percent signs |
| PercentEncoding.EncodingIsInjective | src/jira/util/jwt.ts:328-331 | different values have different encodings |
| StringSort.SortSorts | src/jira/util/jwt.ts:316-322 | sorting by UTF-16 code units is sorted and keeps the elements |
| StringSort.SortForgetsOrder | src/jira/util/jwt.ts:316-322 | two lists are sorted into the same list exactly if they are permutations of each other |
| CanonicalRequest.CanonicalizeUri | src/jira/util/jwt.ts:275-298 | the path assigned step by step is that of the specification |
| CanonicalRequest.CanonicalUriShape | src/jira/util/jwt.ts:275-298 | it starts with a slash and holds no separator |
| CanonicalRequest.CanonicalUriTwice | src/jira/util/jwt.ts:292-295 | doing it twice changes nothing exactly if the path has no second trailing slash, or is just two slashes |
| CanonicalRequest.LastEntryCounts | src/jira/util/jwt.ts:307-309 | parameters taken from the body have the value of the last entry of a key |
| CanonicalRequest.CanonicalizeQueryString | src/jira/util/jwt.ts:300-326 | the loop over the sorted keys yields the query of the specification, body fallback and `jwt` included |
| CanonicalRequest.ValuesFaithful | src/jira/util/jwt.ts:322-322 | two value lists look the same exactly if they hold the same values, where no value counts as an empty one |
| CanonicalRequest.QueryFaithful | src/jira/util/jwt.ts:316-325 | two queries look the same exactly if every key has the same values in both |
| CanonicalRequest.CanonicalFormIsFaithful | src/jira/util/jwt.ts:266-331 | equal canonical requests exactly for equal upper-cased methods, equal canonical paths, and equal parameters apart from `jwt` |
| WorkersMonitor.MasterMonitor.RegisterNewWorkers | src/util/workers-health-monitor.ts:122-132 | the registered workers grow by those of the cluster |
| WorkersMonitor.MasterMonitor.OnMessage | src/util/workers-health-monitor.ts:132-135 | only registered workers are heard |
| WorkersMonitor.MasterMonitor.MaybeSetupWorkersReadyAt | src/util/workers-health-monitor.ts:166-186 | the time of readiness is set once |
| WorkersMonitor.MasterMonitor.MaybeRemoveDeadWorkers | src/util/workers-health-monitor.ts:208-226 | once ready, exactly the workers silent for longer than the window are dropped |
| WorkersMonitor.MasterMonitor.Poll | src/util/workers-health-monitor.ts:286-293 | one poll in the order of the source, with its decision |
| WorkersMonitor.ReadyExactly | src/util/workers-health-monitor.ts:164-186 | ready exactly if the start-up time has passed since a poll that saw more workers than the threshold |
| WorkersMonitor.ReadinessStays | src/util/workers-health-monitor.ts:164-165 | readiness never reverts, whatever happens |
| WorkersMonitor.LiveAfter | src/util/workers-health-monitor.ts:119-135 | the live map holds the last message of every worker heard within the window |
| WorkersMonitor.ShutdownExactly | src/util/workers-health-monitor.ts:208-236 | over every history a poll sends the shutdown exactly if readiness has passed and fewer than the threshold were heard within the window |
| InstallationId.MatchIsFound | src/github/client/installation-id.ts:24-36 | the three groups of a match are what is returned, and there is only one match |
| InstallationId.FromStringExact | src/github/client/installation-id.ts:24-36 | a text is accepted exactly if it has the form of the expression |
| InstallationId.FromStringOfToString | src/github/client/installation-id.ts:24-40 | reading undoes printing exactly for non-empty base URLs without line breaks, even with `###` in them |
| Cidr.MaskExact | src/config/cidr-validator.ts:27-27 | the signed mask clears exactly the host bits, for every prefix text |
| Cidr.BitAndMask | src/config/cidr-validator.ts:28-28 | the conjunction with a mask is division and multiplication by a power of two |
| Cidr.CidrTestExact | src/config/cidr-validator.ts:25-29 | for every pair of texts the test compares the two addresses without their host bits |
| Cidr.DottedValue | src/config/cidr-validator.ts:14-15 | four octets give the number they stand for, in spite of the signed shift |
| Cidr.InRangeExactly | src/config/cidr-validator.ts:25-29 | an address is in a range exactly if its leading bits are those of the range |
| Cidr.InSomeRangeExactly | src/config/cidr-validator.ts:40-41 | the list test holds exactly if some range contains the address |

## Left out

- BackfillTermination.EverySyncEnds: assumes that a non-empty page lies nearer to the end of its source; proved for the build task, assumed of the other page factories, whose GitHub queries are not modelled.
- BackfillTermination.EverySyncEnds: a subscription that is removed while its sync runs is not covered; its messages end without a successor.
- BackfillRuns.NeverStuck: errors that are not task errors (a database or Redis call that throws) keep asking for retries until the redrive policy of the queue acts, which is not part of the code.
- PageCounterCursor.PageSizeAwareCounterCursor.FromText: knows decimal page numbers and the form the class itself writes, which is all that is ever stored; other number formats and other JSON, which the source also accepts, are read as errors.
- BackfillBuilds.BuildsAreKept: the list of a repository's runs stays the same while it is walked; GitHub may add runs in front of it.
- BackfillInterleavings.TimelyFleetKeepsGoing: that visibility outlasts the time limit is a hypothesis on the steps, not derived from clocks; nothing aborts a handler in the source, so a decision that comes too late is possible there.
- BackfillInterleavings.NeverStuckInAnyInterleaving: decisions of other workers are free in their answer, because what they read may be out of date; the rows are not part of this state.
- Unfurl.LinkingTwice: several lines for one key that is bracketed several times are allowed, as in the code.
- Cidr.CidrTestExact: prefix lengths below -21 would need the rounding of doubles, and the `0x` prefix that `parseInt` accepts in a prefix length is not modelled.
- InstallationId.FromStringOfToString: numbers are unbounded; beyond 2^53 the source rounds.
- CanonicalRequest.CanonicalFormIsFaithful: parameter values are strings or lists of strings; method names are upper-cased letter by letter.
- WorkersMonitor.ShutdownExactly: one clock reading per poll; the source reads the clock several times in one callback.
- SqsQueue.RemovedIffJustified: the dead-letter queue, the expiry of visibility timeouts and a handler that goes on after its time limit are outside the queue's value; the last two are modelled in `BackfillInterleavings`.
- Deduplicator.AtMostOneRuns: all workers share one clock.
- Rows of one subscription are taken to have distinct repository identifiers; the database does not enforce it.
- Repositories are discovered through GraphQL cursors; the REST variant of discovery uses the counter cursor that is modelled for builds.
- The lookup of the GitHub server application and of the default from-date during a start are inputs.
- Payload transforms, status tables, logging, metrics, Sentry and analytics are field copying without bearing on the properties.
- Heap dumps: which worker is asked to write one, and their upload.
- HTTP clients, routers, JWT signatures, migrations and the user interface.
