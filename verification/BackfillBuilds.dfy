/**
 * The build task inside whole backfills (src/sync/build.ts, src/sync/installation.ts): what the messages of a sync have
 * handed over of one repository's workflow runs, whatever else the sync does, fails or retries meanwhile.
 */
module BackfillBuilds {
  import opened Wrappers
  import opened SyncTypes
  import opened Scheduler
  import opened BackfillStore
  import opened BackfillRuns
  import opened BackfillTermination
  import opened Deduplicator
  import opened ParallelPageFetcher
  import BackfillEffects
  import BuildTask

  /** A repository, its runs on GitHub, and the date since which they are wanted. */
  datatype Repo = Repo(repoId: int, source: BuildTask.Source, since: Option<int>)

  /** For every date a sync may ask for, a wanted run behind one that is too old is listed in front of it, too. */
  ghost predicate WellListed(repo: Repo) {
    forall asked | BuildTask.ReachesBack(asked, repo.since) :: BuildTask.OldRunsHideNothing(repo.source.runs, asked)
  }

  // GitHub's order is enough.
  lemma NewestFirstIsWellListed(repo: Repo)
    requires BuildTask.NewestFirst(repo.source.runs)
    ensures WellListed(repo)
  {
    hide BuildTask.NewestFirst, BuildTask.OldRunsHideNothing, BuildTask.OldRunsLast;
    forall asked | BuildTask.ReachesBack(asked, repo.since)
      ensures BuildTask.OldRunsHideNothing(repo.source.runs, asked)
    {
      BuildTask.OrdersCompared(repo.source.runs, asked);
    }
  }

  predicate BuildsOfRepo(repo: Repo, task: Task) {
    task.task == Build && task.repositoryId == repo.repoId
  }

  // ---- What GitHub answers, and what is handed over -----------------------------------------------------------------

  /** The page size and the number of parallel pages a message meets. */
  datatype Setting = Setting(perPage: nat, flag: nat)

  /** The build task of the repository throws, or records what the fetched pages hold. */
  predicate Answered(repo: Repo, job: Job, asked: Option<int>, setting: Setting) {
    setting.perPage >= 1
    && (job.outcome.Fetched? ==>
          var fetched := BuildTask.GetBuildTask(repo.source, job.task.cursor, setting.perPage, setting.flag, asked);
          fetched.Success? && job.outcome.edges == CursorsOf(fetched.value.edges))
  }

  ghost predicate Answers(repo: Repo, world: World, asked: Option<int>, setting: Setting) {
    ValidWorld(world)
    && forall task: Task | BuildsOfRepo(repo, task) :: Answered(repo, world.respond(task), asked, setting)
  }

  function JobHandsOver(repo: Repo, job: Job, asked: Option<int>, setting: Setting): seq<WorkflowRun> {
    if BuildsOfRepo(repo, job.task) && job.outcome.Fetched? && Answered(repo, job, asked, setting) then
      BuildTask.RunsOf(
        BuildTask.GetBuildTask(repo.source, job.task.cursor, setting.perPage, setting.flag, asked).value.edges)
    else []
  }

  function JobsHandOver(repo: Repo, jobs: seq<Job>, asked: Option<int>, setting: Setting): seq<WorkflowRun> {
    if jobs == [] then []
    else JobHandsOver(repo, jobs[0], asked, setting) + JobsHandOver(repo, jobs[1..], asked, setting)
  }

  /** The jobs of a message in the order in which they settle. */
  function SettledJobs(store: Store, payload: Payload, world: World): seq<Job> {
    if store.sub.None? then []
    else
      var next := NextTasksFor(store.sub.value, store.rows, payload, world);
      if next.mainTask.None? then [] else world.settle(Respond(world, [next.mainTask.value] + next.otherTasks))
  }

  predicate Processes(turn: Turn) {
    !turn.rateLimitExceeded && !turn.Discards() && turn.dedup == E_OK
  }

  function MessageHandsOver(repo: Repo, store: Store, message: Envelope, turn: Turn,
                            setting: Setting): seq<WorkflowRun> {
    if !Processes(turn) then []
    else JobsHandOver(repo, SettledJobs(store, message.payload, turn.world), message.payload.commitsFromDate, setting)
  }

  /** The build task fails with 404 as the main task, which counts as complete. */
  predicate CountsAsGone(repo: Repo, store: Store, message: Envelope, turn: Turn) {
    Processes(turn)
    && var result := DoProcessInstallation(store, message.payload, turn.world).1;
       result.TaskError? && BuildsOfRepo(repo, result.task) && result.cause.kind == NotFound
  }

  // ---- What is kept for every row -----------------------------------------------------------------------------------

  /** Nothing is skipped before the stored cursor, and nothing at all once the column is complete. */
  ghost predicate Kept(repo: Repo, row: Row, delivered: seq<WorkflowRun>, gone: bool) {
    && BuildTask.CursorCovered(repo.source, delivered, CursorOf(row, Build), repo.since)
    && (StatusOf(row, Build) == Some(Complete) ==> gone || AllHandedOver(repo, delivered))
  }

  /** Every run of the repository was handed over, or predates the date since which runs are wanted. */
  ghost predicate AllHandedOver(repo: Repo, delivered: seq<WorkflowRun>) {
    BuildTask.Covered(repo.source, repo.since, delivered, 0, |repo.source.runs|)
  }

  ghost predicate AllKept(repo: Repo, rows: seq<Row>, delivered: seq<WorkflowRun>, gone: bool) {
    forall row | row in rows && row.repoId == repo.repoId :: Kept(repo, row, delivered, gone)
  }

  lemma CoveredByMore(repo: Repo, delivered: seq<WorkflowRun>, more: seq<WorkflowRun>, text: Option<string>)
    ensures BuildTask.CursorCovered(repo.source, delivered, text, repo.since) ==>
              BuildTask.CursorCovered(repo.source, delivered + more, text, repo.since)
    ensures AllHandedOver(repo, delivered) ==> AllHandedOver(repo, delivered + more)
  {
  }

  lemma KeptWithMore(repo: Repo, row: Row, delivered: seq<WorkflowRun>, gone: bool, more: seq<WorkflowRun>, later: bool)
    requires Kept(repo, row, delivered, gone) && (gone ==> later)
    ensures Kept(repo, row, delivered + more, later)
  {
    hide BuildTask.CursorCovered, AllHandedOver;
    CoveredByMore(repo, delivered, more, CursorOf(row, Build));
  }

  lemma AllKeptWithMore(repo: Repo, rows: seq<Row>, delivered: seq<WorkflowRun>, gone: bool, more: seq<WorkflowRun>,
                        later: bool)
    requires AllKept(repo, rows, delivered, gone) && (gone ==> later)
    ensures AllKept(repo, rows, delivered + more, later)
  {
    hide Kept;
    forall row | row in rows && row.repoId == repo.repoId
      ensures Kept(repo, row, delivered + more, later)
    {
      KeptWithMore(repo, row, delivered, gone, more, later);
    }
  }

  // A row that keeps its status and its cursor, or becomes pending or failed, is kept.
  lemma SameColumnIsKept(repo: Repo, before: Row, after: Row, delivered: seq<WorkflowRun>, gone: bool)
    requires Kept(repo, before, delivered, gone) && StoredCursor(after, Build) == StoredCursor(before, Build)
    requires StatusOf(after, Build) in {StatusOf(before, Build), None, Some(Pending), Some(Failed)}
    ensures Kept(repo, after, delivered, gone)
  {
    hide BuildTask.CursorCovered, AllHandedOver;
    assert CursorOf(after, Build) == CursorOf(before, Build);
  }

  // A row without a cursor has nothing behind it.
  lemma NewRowIsKept(repo: Repo, row: Row, delivered: seq<WorkflowRun>, gone: bool)
    requires CursorOf(row, Build).None? && StatusOf(row, Build) != Some(Complete)
    ensures Kept(repo, row, delivered, gone)
  {
  }

  lemma WrittenRowsAreKept(repo: Repo, rows: seq<Row>, repoId: int, values: seq<Write>, before: seq<WorkflowRun>,
                           gone: bool, after: seq<WorkflowRun>, later: bool)
    requires AllKept(repo, rows, before, gone) && before <= after && (gone ==> later)
    requires forall row | row in rows && row.repoId == repo.repoId == repoId ::
               Kept(repo, WriteRow(row, values), after, later)
    ensures AllKept(repo, WriteRows(rows, repoId, values), after, later)
  {
    hide Kept, WriteRow;
    var written := WriteRows(rows, repoId, values);
    WriteRowsElements(rows, repoId, values);
    assert after == before + after[|before|..];
    AllKeptWithMore(repo, rows, before, gone, after[|before|..], later);
    forall row | row in written && row.repoId == repo.repoId
      ensures Kept(repo, row, after, later)
    {
      var i :| 0 <= i < |written| && written[i] == row;
      assert rows[i] in rows;
      WriteRowIdentity(rows[i], values);
    }
  }

  // ---- One job ------------------------------------------------------------------------------------------------------

  // Writes to other columns, or that fail the task, keep the row.
  lemma OtherWritesKeep(repo: Repo, rows: seq<Row>, task: Task, values: seq<Write>, delivered: seq<WorkflowRun>,
                        gone: bool)
    requires AllKept(repo, rows, delivered, gone)
    requires OwnColumns(values, task) && !BuildsOfRepo(repo, task)
    ensures AllKept(repo, WriteRows(rows, task.repositoryId, values), delivered, gone)
  {
    hide Kept, WriteRow;
    forall row | row in rows && row.repoId == repo.repoId == task.repositoryId
      ensures Kept(repo, WriteRow(row, values), delivered, gone)
    {
      WriteRowFrame(row, values, Build);
      SameColumnIsKept(repo, row, WriteRow(row, values), delivered, gone);
    }
    WrittenRowsAreKept(repo, rows, task.repositoryId, values, delivered, gone, delivered, gone);
  }

  lemma DiscoveryKeeps(repo: Repo, rows: seq<Row>, repoIds: seq<int>, delivered: seq<WorkflowRun>, gone: bool)
    requires AllKept(repo, rows, delivered, gone)
    ensures AllKept(repo, Discover(rows, repoIds), delivered, gone)
  {
    hide Kept, Discover;
    var added := BackfillEffects.DiscoverAdds(rows, repoIds);
    forall row | row in added && row.repoId == repo.repoId
      ensures Kept(repo, row, delivered, gone)
    {
      assert BackfillEffects.Added(rows, row, repoIds);
      assert IsPending(row, Build) && CursorOf(row, Build).None?;
      NewRowIsKept(repo, row, delivered, gone);
    }
  }

  // A fetched page of builds is recorded with the runs it hands over.
  lemma BuildPageKeeps(repo: Repo, rows: seq<Row>, payload: Payload, job: Job, setting: Setting,
                       delivered: seq<WorkflowRun>, gone: bool)
    requires WellListed(repo) && AllKept(repo, rows, delivered, gone) && BuildsOfRepo(repo, job.task)
    requires BuildTask.ReachesBack(payload.commitsFromDate, repo.since)
    requires job.outcome.Fetched? && Answered(repo, job, payload.commitsFromDate, setting)
    requires BuildTask.CursorCovered(repo.source, delivered, job.task.cursor, repo.since)
    ensures var values := TaskWrites(rows, payload, job.outcome.edges, job.task);
            AllKept(repo, WriteRows(rows, repo.repoId, values),
                    delivered + JobHandsOver(repo, job, payload.commitsFromDate, setting), gone)
  {
    hide Kept, WriteRow, TaskWrites, BuildTask.CursorCovered, BuildTask.OldRunsHideNothing, BuildTask.RunsOf,
         BuildTask.GetBuildTask, BuildTask.Covered;
    var asked, edges := payload.commitsFromDate, job.outcome.edges;
    var values := TaskWrites(rows, payload, edges, job.task);
    var runs := JobHandsOver(repo, job, asked, setting);
    BuildTask.FetchSkipsNothing(repo.source, delivered, job.task.cursor, setting.perPage, setting.flag, asked,
                                repo.since);
    if edges != [] {
      BuildCursorIsText(repo.source, job.task.cursor, setting.perPage, setting.flag, asked);
    }
    forall row | row in rows && row.repoId == repo.repoId
      ensures Kept(repo, WriteRow(row, values), delivered + runs, gone)
    {
      BackfillEffects.PageOnRow(rows, payload, edges, job.task, row);
      RecordedPageIsKept(repo, row, WriteRow(row, values), edges, delivered, runs, gone);
    }
    WrittenRowsAreKept(repo, rows, repo.repoId, values, delivered, gone, delivered + runs, gone);
  }

  lemma RecordedPageIsKept(repo: Repo, before: Row, after: Row, edges: seq<string>, delivered: seq<WorkflowRun>,
                           runs: seq<WorkflowRun>, gone: bool)
    requires Kept(repo, before, delivered, gone) && BackfillEffects.PageRecorded(before, after, edges, Build)
    requires if edges == [] then AllHandedOver(repo, delivered)
             else && edges[|edges| - 1] != ""
                  && BuildTask.CursorCovered(repo.source, delivered + runs, Some(edges[|edges| - 1]), repo.since)
    ensures Kept(repo, after, delivered + runs, gone)
  {
    hide BuildTask.CursorCovered, AllHandedOver;
    CoveredByMore(repo, delivered, runs, CursorOf(before, Build));
    assert edges == [] ==> CursorOf(after, Build) == CursorOf(before, Build);
  }

  /** What a scheduled job stands on. */
  ghost predicate Sound(repo: Repo, job: Job, asked: Option<int>, setting: Setting, delivered: seq<WorkflowRun>) {
    BuildsOfRepo(repo, job.task) ==>
      && Answered(repo, job, asked, setting)
      && BuildTask.CursorCovered(repo.source, delivered, job.task.cursor, repo.since)
  }

  lemma JobKeeps(repo: Repo, store: Store, payload: Payload, job: Job, setting: Setting, delivered: seq<WorkflowRun>,
                 gone: bool)
    requires store.sub.Some? && WellListed(repo) && AllKept(repo, store.rows, delivered, gone)
    requires BuildTask.ReachesBack(payload.commitsFromDate, repo.since)
    requires Sound(repo, job, payload.commitsFromDate, setting, delivered)
    ensures RunJob(store, payload, job).sub.Some?
    ensures AllKept(repo, RunJob(store, payload, job).rows,
                    delivered + JobHandsOver(repo, job, payload.commitsFromDate, setting), gone)
  {
    hide AllKept, Discover, TaskWrites, WriteSub, WriteRows, WellListed, Answered, BuildTask.CursorCovered;
    var grown := if job.task.task == Repository then Discover(store.rows, job.discovered) else store.rows;
    DiscoveryKeeps(repo, store.rows, job.discovered, delivered, gone);
    assert delivered + [] == delivered;
    if job.outcome.Fetched? {
      if BuildsOfRepo(repo, job.task) {
        BuildPageKeeps(repo, grown, payload, job, setting, delivered, gone);
      } else {
        TaskWritesOwnColumns(grown, payload, job.outcome.edges, job.task);
        var values := TaskWrites(grown, payload, job.outcome.edges, job.task);
        OtherWritesKeep(repo, grown, job.task, values, delivered, gone);
      }
    }
  }

  lemma {:induction false} JobsKeep(repo: Repo, store: Store, payload: Payload, jobs: seq<Job>, setting: Setting,
                                    delivered: seq<WorkflowRun>, gone: bool)
    requires store.sub.Some? && WellListed(repo) && AllKept(repo, store.rows, delivered, gone)
    requires BuildTask.ReachesBack(payload.commitsFromDate, repo.since)
    requires forall job | job in jobs :: Sound(repo, job, payload.commitsFromDate, setting, delivered)
    ensures RunJobs(store, payload, jobs).sub.Some?
    ensures AllKept(repo, RunJobs(store, payload, jobs).rows,
                    delivered + JobsHandOver(repo, jobs, payload.commitsFromDate, setting), gone)
    decreases |jobs|
  {
    hide AllKept, RunJob, WellListed, Sound, JobHandsOver;
    var asked := payload.commitsFromDate;
    assert delivered + [] == delivered;
    if jobs != [] {
      var runs, rest := JobHandsOver(repo, jobs[0], asked, setting), JobsHandOver(repo, jobs[1..], asked, setting);
      JobKeeps(repo, store, payload, jobs[0], setting, delivered, gone);
      forall job | job in jobs[1..]
        ensures Sound(repo, job, asked, setting, delivered + runs)
      {
        StaysSound(repo, job, asked, setting, delivered, runs);
      }
      JobsKeep(repo, RunJob(store, payload, jobs[0]), payload, jobs[1..], setting, delivered + runs, gone);
      assert delivered + runs + rest == delivered + (runs + rest);
    }
  }

  lemma StaysSound(repo: Repo, job: Job, asked: Option<int>, setting: Setting, delivered: seq<WorkflowRun>,
                   more: seq<WorkflowRun>)
    requires Sound(repo, job, asked, setting, delivered)
    ensures Sound(repo, job, asked, setting, delivered + more)
  {
    hide BuildTask.CursorCovered, Answered;
    CoveredByMore(repo, delivered, more, job.task.cursor);
  }

  // ---- One message --------------------------------------------------------------------------------------------------

  // Whatever is scheduled carries the cursor of its row.
  lemma ScheduledFromRow(store: Store, payload: Payload, world: World, task: Task)
    requires store.sub.Some? && ValidWorld(world) && task.task != Repository
    requires var next := NextTasksFor(store.sub.value, store.rows, payload, world);
             next.mainTask.Some? && task in [next.mainTask.value] + next.otherTasks
    ensures exists row ::
              row in store.rows && row.repoId == task.repositoryId && CursorOf(row, task.task) == task.cursor
  {
    hide AllPending, Pool, PendingRows, AllowedTasks, EstimateNumberOfSubtasks, CursorOf;
    var sub := store.sub.value;
    var tasks := AllowedTasks(sub, world.securityFlag, payload.targetTasks);
    var nSubTasks := EstimateNumberOfSubtasks(world.quota);
    var next := NextTasksFor(sub, store.rows, payload, world);
    ScheduleIsValid(sub, store.rows, tasks, nSubTasks, world.shuffle);
    if sub.repositoryStatus == Some(Complete) {
      DrawnTasksPending(store.rows, tasks, nSubTasks, next.otherTasks);
      assert task in AllPending(store.rows, tasks);
      AllPendingExact(store.rows, tasks, task);
    }
  }

  lemma SettledJobIsSound(repo: Repo, store: Store, payload: Payload, world: World, setting: Setting,
                          delivered: seq<WorkflowRun>, gone: bool, job: Job)
    requires store.sub.Some? && AllKept(repo, store.rows, delivered, gone)
    requires Answers(repo, world, payload.commitsFromDate, setting) && job in SettledJobs(store, payload, world)
    ensures Sound(repo, job, payload.commitsFromDate, setting, delivered)
  {
    hide NextTasksFor, Answered, BuildTask.CursorCovered, CursorOf, AllHandedOver;
    var next := NextTasksFor(store.sub.value, store.rows, payload, world);
    var chosen := [next.mainTask.value] + next.otherTasks;
    var jobs := Respond(world, chosen);
    assert job in multiset(world.settle(jobs));
    assert job in jobs;
    var i :| 0 <= i < |jobs| && jobs[i] == job;
    assert job == world.respond(chosen[i]) && job.task == chosen[i];
    if BuildsOfRepo(repo, job.task) {
      ScheduledFromRow(store, payload, world, job.task);
      var row :| row in store.rows && row.repoId == job.task.repositoryId && CursorOf(row, Build) == job.task.cursor;
      assert Kept(repo, row, delivered, gone);
    }
  }

  lemma ProcessingKeeps(repo: Repo, store: Store, payload: Payload, world: World, setting: Setting,
                        delivered: seq<WorkflowRun>, gone: bool)
    requires WellListed(repo) && AllKept(repo, store.rows, delivered, gone)
    requires BuildTask.ReachesBack(payload.commitsFromDate, repo.since)
    requires Answers(repo, world, payload.commitsFromDate, setting)
    ensures var jobs := SettledJobs(store, payload, world);
            AllKept(repo, DoProcessInstallation(store, payload, world).0.rows,
                    delivered + JobsHandOver(repo, jobs, payload.commitsFromDate, setting), gone)
  {
    hide AllKept, NextTasksFor, RunJobs, Respond, WellListed, Sound, Answers;
    assert delivered + [] == delivered;
    if store.sub.Some? {
      var next := NextTasksFor(store.sub.value, store.rows, payload, world);
      if next.mainTask.Some? {
        var active := store.(sub := Some(store.sub.value.(syncStatus := ACTIVE)));
        var jobs := SettledJobs(store, payload, world);
        forall job | job in jobs
          ensures Sound(repo, job, payload.commitsFromDate, setting, delivered)
        {
          SettledJobIsSound(repo, store, payload, world, setting, delivered, gone, job);
        }
        JobsKeep(repo, active, payload, jobs, setting, delivered, gone);
      }
    }
  }

  lemma FailureKeeps(repo: Repo, store: Store, payload: Payload, task: Task, isPermissionError: bool, code: string,
                     delivered: seq<WorkflowRun>, gone: bool)
    requires AllKept(repo, store.rows, delivered, gone)
    ensures AllKept(repo, MarkCurrentTaskAsFailedAndContinue(store, payload, task, isPermissionError, code).0.rows,
                    delivered, gone)
  {
    hide AllKept, Kept, WriteRows, WriteSub, WriteRow;
    if store.sub.Some? {
      var first := [SetStatus(task.task, Failed), SetFailedCode(code)];
      var values := FailureWrites(task, isPermissionError, code);
      WriteRowsConcat(store.rows, task.repositoryId, first, [SetFailedCode("PERMISSIONS_ERROR")]);
      assert first + [] == first;
      if BuildsOfRepo(repo, task) {
        FailedRowsAreKept(repo, store.rows, task, isPermissionError, code, delivered, gone);
      } else {
        OtherWritesKeep(repo, store.rows, task, values, delivered, gone);
      }
    }
  }

  lemma FailedRowsAreKept(repo: Repo, rows: seq<Row>, task: Task, isPermissionError: bool, code: string,
                          delivered: seq<WorkflowRun>, gone: bool)
    requires AllKept(repo, rows, delivered, gone) && BuildsOfRepo(repo, task)
    ensures AllKept(repo, WriteRows(rows, task.repositoryId, FailureWrites(task, isPermissionError, code)), delivered,
                    gone)
  {
    hide Kept, WriteRow;
    var values := FailureWrites(task, isPermissionError, code);
    forall row | row in rows && row.repoId == repo.repoId
      ensures Kept(repo, WriteRow(row, values), delivered, gone)
    {
      BackfillEffects.FailureOnRow(row, task, isPermissionError, code);
      SameColumnIsKept(repo, row, WriteRow(row, values), delivered, gone);
    }
    WrittenRowsAreKept(repo, rows, task.repositoryId, values, delivered, gone, delivered, gone);
  }

  // A main task answered with 404 counts as complete.
  lemma NotFoundKeeps(repo: Repo, store: Store, payload: Payload, task: Task, delivered: seq<WorkflowRun>, gone: bool)
    requires AllKept(repo, store.rows, delivered, gone)
    ensures AllKept(repo, UpdateTaskStatusAndContinue(store, payload, [], task).0.rows, delivered,
                    gone || BuildsOfRepo(repo, task))
  {
    hide Kept, WriteRow, TaskWrites, WriteSub;
    var values := TaskWrites(store.rows, payload, [], task);
    TaskWritesOwnColumns(store.rows, payload, [], task);
    if store.sub.Some? && BuildsOfRepo(repo, task) {
      forall row | row in store.rows && row.repoId == repo.repoId
        ensures Kept(repo, WriteRow(row, values), delivered, true)
      {
        BackfillEffects.PageOnRow(store.rows, payload, [], task, row);
        GoneRowIsKept(repo, row, WriteRow(row, values), delivered, gone);
      }
      WrittenRowsAreKept(repo, store.rows, task.repositoryId, values, delivered, gone, delivered, true);
    } else if store.sub.Some? {
      OtherWritesKeep(repo, store.rows, task, values, delivered, gone);
    } else {
      assert delivered + [] == delivered;
      AllKeptWithMore(repo, store.rows, delivered, gone, [], gone || BuildsOfRepo(repo, task));
    }
  }

  lemma GoneRowIsKept(repo: Repo, before: Row, after: Row, delivered: seq<WorkflowRun>, gone: bool)
    requires Kept(repo, before, delivered, gone) && StoredCursor(after, Build) == StoredCursor(before, Build)
    ensures Kept(repo, after, delivered, true)
  {
    hide BuildTask.CursorCovered, AllHandedOver;
    assert CursorOf(after, Build) == CursorOf(before, Build);
  }

  lemma MessageKeeps(repo: Repo, store: Store, message: Envelope, turn: Turn, setting: Setting,
                     delivered: seq<WorkflowRun>, gone: bool)
    requires WellListed(repo) && AllKept(repo, store.rows, delivered, gone)
    requires BuildTask.ReachesBack(message.payload.commitsFromDate, repo.since)
    requires Answers(repo, turn.world, message.payload.commitsFromDate, setting)
    ensures AllKept(repo, ProcessMessage(store, message, turn).0.rows,
                    delivered + MessageHandsOver(repo, store, message, turn, setting),
                    gone || CountsAsGone(repo, store, message, turn))
  {
    hide AllKept, DoProcessInstallation, SettledJobs, JobsHandOver, WellListed, Answers,
         MarkCurrentTaskAsFailedAndContinue, UpdateTaskStatusAndContinue;
    assert delivered + [] == delivered;
    if Processes(turn) {
      var payload := message.payload;
      var (processed, result) := DoProcessInstallation(store, payload, turn.world);
      var more := delivered + MessageHandsOver(repo, store, message, turn, setting);
      ProcessingKeeps(repo, store, payload, turn.world, setting, delivered, gone);
      if result.TaskError? {
        FailureKeeps(repo, processed, payload, result.task, true, result.cause.failedCode, more, gone);
        FailureKeeps(repo, processed, payload, result.task, false, result.cause.failedCode, more, gone);
        NotFoundKeeps(repo, processed, payload, result.task, more, gone);
      }
    }
  }

  // ---- Histories ----------------------------------------------------------------------------------------------------

  /** The state of a backfill, with what was handed over of one repository. */
  datatype Ledger = Ledger(state: State, delivered: seq<WorkflowRun>, gone: bool)

  /** An event, and the setting the build task of the repository meets in it. */
  datatype Served = Served(event: Event, setting: Setting)

  function Book(repo: Repo, l: Ledger, served: Served): Ledger {
    var next := Next(l.state, served.event);
    if !served.event.Delivered? || l.state.queue == [] then l.(state := next)
    else
      var turn := served.event.turn;
      var message := l.state.queue[Picked(l.state, turn)];
      Ledger(next, l.delivered + MessageHandsOver(repo, l.state.store, message, turn, served.setting),
             l.gone || CountsAsGone(repo, l.state.store, message, turn))
  }

  function BookAll(repo: Repo, l: Ledger, history: seq<Served>): Ledger {
    if history == [] then l
    else Book(repo, BookAll(repo, l, history[..|history| - 1]), history[|history| - 1])
  }

  /** A message asks for everything since the wanted date. */
  predicate Asks(repo: Repo, payload: Payload) {
    BuildTask.ReachesBack(payload.commitsFromDate, repo.since)
  }

  /** The answers of GitHub in one event; starts ask for everything since the wanted date. */
  ghost predicate Serves(repo: Repo, l: Ledger, served: Served) {
    match served.event
    case Delivered(turn) =>
      l.state.queue != [] ==>
        Answers(repo, turn.world, l.state.queue[Picked(l.state, turn)].payload.commitsFromDate, served.setting)
    case Started(_, targets, since) => Asks(repo, Payload(targets, since))
    case Removed => true
  }

  ghost predicate ServedAll(repo: Repo, l: Ledger, history: seq<Served>) {
    forall k | 0 <= k < |history| :: Serves(repo, BookAll(repo, l, history[..k]), history[k])
  }

  ghost predicate KeptLedger(repo: Repo, l: Ledger) {
    && AllKept(repo, l.state.store.rows, l.delivered, l.gone)
    && forall e | e in l.state.queue :: Asks(repo, e.payload)
  }

  // Messages are sent with the payload of the one that was processed.
  lemma SuccessorsKeepPayload(store: Store, message: Envelope, turn: Turn)
    ensures forall e | e in ProcessMessage(store, message, turn).1 :: e.payload == message.payload
  {
    hide DoProcessInstallation, HandleTaskError;
    NextKeepsPayload(store, message.payload, turn.world);
    var (processed, result) := DoProcessInstallation(store, message.payload, turn.world);
    if result.TaskError? {
      HandledKeepsPayload(processed, message.payload, result.task, result.cause,
                          message.receiveCount + 1 >= MAX_ATTEMPTS);
    }
  }

  lemma NextKeepsPayload(store: Store, payload: Payload, world: World)
    ensures var result := DoProcessInstallation(store, payload, world).1;
            result.Done? ==> result.next in {None, Some(payload)}
  {
    hide NextTasksFor, RunJobs;
  }

  lemma HandledKeepsPayload(store: Store, payload: Payload, task: Task, cause: Cause, lastAttempt: bool)
    ensures HandleTaskError(store, payload, task, cause, lastAttempt).next in {None, Some(payload)}
  {
    hide UpdateRepo, TaskWrites;
  }

  lemma StartKeeps(repo: Repo, store: Store, isFull: bool, targets: seq<TaskType>, delivered: seq<WorkflowRun>,
                   gone: bool)
    requires store.sub.Some? && AllKept(repo, store.rows, delivered, gone)
    ensures AllKept(repo, StartSync(store, isFull, targets).rows, delivered, gone)
  {
    hide Kept, ResetRow;
    ResetRowsElements(store.rows, isFull, targets);
    var after := StartSync(store, isFull, targets).rows;
    forall row | row in after && row.repoId == repo.repoId
      ensures Kept(repo, row, delivered, gone)
    {
      var i :| 0 <= i < |after| && after[i] == row;
      assert store.rows[i] in store.rows;
      if targets != [] {
        ResetRowIsExact(store.rows[i], isFull, targets, Build);
        ResetRowIsKept(repo, store.rows[i], isFull, targets, delivered, gone);
      }
    }
  }

  lemma ResetRowIsKept(repo: Repo, row: Row, isFull: bool, targets: seq<TaskType>, delivered: seq<WorkflowRun>,
                       gone: bool)
    requires Kept(repo, row, delivered, gone)
    ensures Kept(repo, ResetRow(row, isFull, targets), delivered, gone)
  {
    hide BuildTask.CursorCovered, AllHandedOver, Kept;
    var after := ResetRow(row, isFull, targets);
    if isFull && Build in targets {
      NewRowIsKept(repo, after, delivered, gone);
    } else {
      SameColumnIsKept(repo, row, after, delivered, gone);
    }
  }

  lemma BookKeeps(repo: Repo, l: Ledger, served: Served)
    requires WellListed(repo) && KeptLedger(repo, l) && Serves(repo, l, served)
    ensures KeptLedger(repo, Book(repo, l, served))
  {
    hide AllKept, WellListed, Asks, ProcessMessage, MessageHandsOver, CountsAsGone, StartSync;
    match served.event
    case Delivered(turn) =>
      if l.state.queue != [] {
        var message := l.state.queue[Picked(l.state, turn)];
        assert message in l.state.queue;
        AsksIsReaching(repo, message.payload);
        MessageKeeps(repo, l.state.store, message, turn, served.setting, l.delivered, l.gone);
        SuccessorsKeepPayload(l.state.store, message, turn);
      }
    case Started(isFull, targets, since) =>
      if l.state.store.sub.Some? {
        StartKeeps(repo, l.state.store, isFull, targets, l.delivered, l.gone);
      }
    case Removed =>
  }

  lemma AsksIsReaching(repo: Repo, payload: Payload)
    requires Asks(repo, payload)
    ensures BuildTask.ReachesBack(payload.commitsFromDate, repo.since)
  {
  }

  // Main result: over all histories of starts, removals and deliveries, with any page sizes, parallel pages, failures,
  // retries and side tasks, no run before a stored cursor is skipped, and a build column is complete only if all wanted
  // runs of the repository were handed over, or GitHub answered that the repository is gone.
  lemma {:induction false} BuildsAreKept(repo: Repo, l: Ledger, history: seq<Served>)
    requires WellListed(repo) && KeptLedger(repo, l) && ServedAll(repo, l, history)
    ensures KeptLedger(repo, BookAll(repo, l, history))
  {
    hide KeptLedger, WellListed, Serves, Book;
    if history != [] {
      var front, last := history[..|history| - 1], history[|history| - 1];
      assert forall k | 0 <= k <= |front| :: front[..k] == history[..k];
      assert Serves(repo, BookAll(repo, l, history[..|front|]), history[|front|]);
      assert history[..|front|] == front;
      BuildsAreKept(repo, l, front);
      BookKeeps(repo, BookAll(repo, l, front), last);
    }
  }

  // ---- Complete syncs -----------------------------------------------------------------------------------------------

  predicate AsksForBuilds(payload: Payload) {
    payload.targetTasks == [] || Build in payload.targetTasks
  }

  /** When the sync is complete, so is every build column, unless it failed. */
  ghost predicate BuildsSettled(store: Store) {
    store.sub.Some? && store.sub.value.syncStatus == COMPLETE ==>
      forall row | row in store.rows :: StatusOf(row, Build) in {Some(Complete), Some(Failed)}
  }

  ghost predicate Earned(s: State) {
    BuildsSettled(s.store) && forall e | e in s.queue :: AsksForBuilds(e.payload)
  }

  lemma NothingLeftOfBuilds(sub: Subscription, rows: seq<Row>, securityFlag: bool, payload: Payload)
    requires AsksForBuilds(payload) && NothingLeft(sub, rows, AllowedTasks(sub, securityFlag, payload.targetTasks))
    ensures forall row | row in rows :: StatusOf(row, Build) in {Some(Complete), Some(Failed)}
  {
    hide AllowedTasks;
    AllowedTasksExact(sub, securityFlag, payload.targetTasks, Build);
  }

  lemma MessageEarns(store: Store, message: Envelope, turn: Turn)
    requires BuildsSettled(store) && AsksForBuilds(message.payload)
    ensures BuildsSettled(ProcessMessage(store, message, turn).0)
  {
    hide DoProcessInstallation, HandleTaskError, AllowedTasks, NothingLeft;
    if store.sub.None? {
      RemovedVerdict(store, message, turn);
    } else if Processes(turn) {
      var payload, world := message.payload, turn.world;
      var (processed, result) := DoProcessInstallation(store, payload, world);
      ProcessedStatus(store, payload, world);
      CompleteIsEarned(store, payload, world);
      if processed.sub.value.syncStatus == COMPLETE {
        NothingLeftOfBuilds(store.sub.value, store.rows, world.securityFlag, payload);
      }
      if result.TaskError? {
        HandledStatus(processed, payload, result.task, result.cause, message.receiveCount + 1 >= MAX_ATTEMPTS);
      }
    }
  }

  lemma EarnedStays(s: State, event: Event)
    requires Earned(s) && (event.Started? ==> AsksForBuilds(Payload(event.targets, event.since)))
    ensures Earned(Next(s, event))
  {
    hide ProcessMessage, BuildsSettled, AsksForBuilds;
    match event
    case Delivered(turn) =>
      if s.queue != [] {
        var message := s.queue[Picked(s, turn)];
        assert message in s.queue;
        MessageEarns(s.store, message, turn);
        SuccessorsKeepPayload(s.store, message, turn);
      }
    case Started(isFull, targets, _) =>
      if s.store.sub.Some? {
        StartIsNotComplete(s.store, isFull, targets);
      }
    case Removed => RemovedIsSettled(s.store);
  }

  lemma StartIsNotComplete(store: Store, isFull: bool, targets: seq<TaskType>)
    requires store.sub.Some?
    ensures BuildsSettled(StartSync(store, isFull, targets))
  {
    hide ResetRows;
  }

  lemma RemovedIsSettled(store: Store)
    ensures BuildsSettled(store.(sub := None))
  {
  }

  ghost predicate StartsAskForBuilds(history: seq<Served>) {
    forall served | served in history :: served.event.Started? ==>
      AsksForBuilds(Payload(served.event.targets, served.event.since))
  }

  lemma {:induction false} HistoryEarns(repo: Repo, l: Ledger, history: seq<Served>)
    requires Earned(l.state) && StartsAskForBuilds(history)
    ensures Earned(BookAll(repo, l, history).state)
  {
    hide Earned, Next, AsksForBuilds;
    if history != [] {
      var front, last := history[..|history| - 1], history[|history| - 1];
      assert last in history;
      HistoryEarns(repo, l, front);
      EarnedStays(BookAll(repo, l, front).state, last.event);
    }
  }

  /** All wanted runs were handed over, where the build task did not fail and the repository was not gone. */
  ghost predicate BuildsArrived(repo: Repo, l: Ledger) {
    forall row | row in l.state.store.rows && row.repoId == repo.repoId ::
      StatusOf(row, Build) == Some(Failed) || l.gone || AllHandedOver(repo, l.delivered)
  }

  predicate IsComplete(s: State) {
    s.store.sub.Some? && s.store.sub.value.syncStatus == COMPLETE
  }

  // Main result: when syncs ask for builds, a sync that is COMPLETE has handed over all wanted runs of every repository
  // whose build task did not fail, however it came about.
  lemma CompleteSyncHandedOver(repo: Repo, l: Ledger, history: seq<Served>)
    requires WellListed(repo) && KeptLedger(repo, l) && ServedAll(repo, l, history)
    requires Earned(l.state) && StartsAskForBuilds(history)
    ensures var end := BookAll(repo, l, history);
            IsComplete(end.state) ==> BuildsArrived(repo, end)
  {
    hide WellListed, ServedAll, BookAll, StartsAskForBuilds, AllHandedOver, BuildTask.CursorCovered;
    BuildsAreKept(repo, l, history);
    HistoryEarns(repo, l, history);
  }

  // ---- Every sync ends with its builds handed over ------------------------------------------------------------------

  function Deliveries(turns: nat -> Turn, settings: nat -> Setting, k: nat): (history: seq<Served>)
    ensures |history| == k && forall i | 0 <= i < k :: history[i] == Served(Delivered(turns(i)), settings(i))
  {
    if k == 0 then [] else Deliveries(turns, settings, k - 1) + [Served(Delivered(turns(k - 1)), settings(k - 1))]
  }

  lemma FewerDeliveries(turns: nat -> Turn, settings: nat -> Setting, i: nat, k: nat)
    requires i <= k
    ensures Deliveries(turns, settings, k)[..i] == Deliveries(turns, settings, i)
  {
    hide Deliveries;
  }

  lemma {:induction false} DeliveriesAreTheRun(repo: Repo, l: Ledger, turns: nat -> Turn, settings: nat -> Setting,
                                               k: nat)
    ensures BookAll(repo, l, Deliveries(turns, settings, k)).state == StateAt(l.state, turns, k)
  {
    hide Step, MessageHandsOver, CountsAsGone;
    if k > 0 {
      DeliveriesAreTheRun(repo, l, turns, settings, k - 1);
      FewerDeliveries(turns, settings, k - 1, k);
    }
  }

  ghost predicate SamePayload(s: State, payload: Payload) {
    forall e | e in s.queue :: e.payload == payload
  }

  lemma {:induction false} RunKeepsPayload(s: State, turns: nat -> Turn, k: nat, payload: Payload)
    requires SamePayload(s, payload)
    ensures SamePayload(StateAt(s, turns, k), payload)
  {
    hide ProcessMessage;
    if k > 0 {
      RunKeepsPayload(s, turns, k - 1, payload);
      var before := StateAt(s, turns, k - 1);
      if before.queue != [] {
        var message := before.queue[Picked(before, turns(k - 1))];
        assert message in before.queue;
        SuccessorsKeepPayload(before.store, message, turns(k - 1));
      }
    }
  }

  lemma RunIsServed(repo: Repo, l: Ledger, turns: nat -> Turn, settings: nat -> Setting, payload: Payload, k: nat)
    requires SamePayload(l.state, payload)
    requires forall i: nat :: Answers(repo, turns(i).world, payload.commitsFromDate, settings(i))
    ensures ServedAll(repo, l, Deliveries(turns, settings, k))
  {
    hide Answers, BookAll, Deliveries, StateAt;
    var history := Deliveries(turns, settings, k);
    forall i | 0 <= i < |history|
      ensures Serves(repo, BookAll(repo, l, history[..i]), history[i])
    {
      FewerDeliveries(turns, settings, i, k);
      DeliveriesAreTheRun(repo, l, turns, settings, i);
      RunKeepsPayload(l.state, turns, i, payload);
      var before := StateAt(l.state, turns, i);
      if before.queue != [] {
        assert before.queue[Picked(before, turns(i))] in before.queue;
      }
    }
  }

  /** The state a start leaves when nothing else is queued. */
  function StartedState(store: Store, isFull: bool, targets: seq<TaskType>, since: Option<int>): State
    requires store.sub.Some?
  {
    State(StartSync(store, isFull, targets), [Envelope(Payload(targets, since), 0)])
  }

  /** After `m` deliveries the queue is empty, and if the sync is COMPLETE, the builds have arrived. */
  ghost predicate EndsWithBuilds(repo: Repo, l: Ledger, turns: nat -> Turn, settings: nat -> Setting, m: nat) {
    var end := BookAll(repo, l, Deliveries(turns, settings, m));
    && EndsAt(l.state, turns, m) && end.state == StateAt(l.state, turns, m)
    && (IsComplete(end.state) ==> BuildsArrived(repo, end))
  }

  // Main result: every sync that was started for builds ends, and when it ends COMPLETE, it has handed over all wanted
  // runs of a repository, unless its build task failed or the repository was gone.
  lemma StartedSyncHandsOverBuilds(repo: Repo, store: Store, delivered: seq<WorkflowRun>, gone: bool, isFull: bool,
                                   targets: seq<TaskType>, turns: nat -> Turn, settings: nat -> Setting, calm: nat,
                                   left: Left, repoIds: set<int>)
    requires store.sub.Some? && ValidRows(store.rows) && AsksForBuilds(Payload(targets, repo.since))
    requires WellListed(repo) && AllKept(repo, store.rows, delivered, gone)
    requires forall i: nat :: ValidTurn(turns(i), left, repoIds)
    requires forall i: nat :: Answers(repo, turns(i).world, repo.since, settings(i))
    requires FinitelyManyPostponements(StartedState(store, isFull, targets, repo.since), turns, calm)
    ensures var l := Ledger(StartedState(store, isFull, targets, repo.since), delivered, gone);
            exists m: nat :: EndsWithBuilds(repo, l, turns, settings, m)
  {
    hide ValidTurn, Answers, Postpones, StateAt, EndsAt, AllKept, WellListed, BookAll, BuildsArrived, StartSync,
         BuildsSettled, ServedAll, StartsAskForBuilds, AsksForBuilds, Deliveries, ValidRows, IsComplete;
    var s := StartedState(store, isFull, targets, repo.since);
    var l := Ledger(s, delivered, gone);
    StartKeeps(repo, store, isFull, targets, delivered, gone);
    StartIsNotComplete(store, isFull, targets);
    StartedSyncEnds(store, isFull, targets, repo.since, turns, calm, left, repoIds);
    var m: nat :| EndsAt(s, turns, m);
    RunIsServed(repo, l, turns, settings, Payload(targets, repo.since), m);
    NoStartsAmongDeliveries(turns, settings, m);
    CompleteSyncHandedOver(repo, l, Deliveries(turns, settings, m));
    DeliveriesAreTheRun(repo, l, turns, settings, m);
    assert EndsWithBuilds(repo, l, turns, settings, m);
  }

  lemma NoStartsAmongDeliveries(turns: nat -> Turn, settings: nat -> Setting, k: nat)
    ensures StartsAskForBuilds(Deliveries(turns, settings, k))
  {
    hide Deliveries;
  }
}
