/**
 * Every backfill ends: with finite sources and finitely many postponements the queue runs empty, and then the sync is
 * COMPLETE or FAILED.
 */
module BackfillTermination {
  import opened Wrappers
  import opened SyncTypes
  import opened Scheduler
  import opened BackfillStore
  import opened BackfillRuns
  import opened Deduplicator
  import BuildTask
  import PageCounterCursor
  import ParallelPageFetcher

  /** How much of a task's source lies behind a cursor; None is the start. */
  type Left = (int, TaskType, Option<string>) -> nat

  /**
   * GitHub as seen by the sync: `repoIds` are the repositories there are, and a page with edges ends nearer to the end
   * of its source than it began. Everything else about the answers is free, including errors and page sizes.
   */
  ghost predicate Finite(world: World, left: Left, repoIds: set<int>) {
    forall task: Task :: FiniteReply(world.respond(task), left, repoIds)
  }

  ghost predicate FiniteReply(job: Job, left: Left, repoIds: set<int>) {
    && (forall id :: id in job.discovered ==> id in repoIds)
    && (job.outcome.Fetched? && job.outcome.edges != [] ==>
          var edges := job.outcome.edges;
          left(job.task.repositoryId, job.task.task, NonEmptyText(Some(edges[|edges| - 1])))
          < left(job.task.repositoryId, job.task.task, job.task.cursor))
  }

  // ---- The measure --------------------------------------------------------------------------------------------------

  function RepoIds(rows: seq<Row>): set<int> {
    set row | row in rows :: row.repoId
  }

  function DiscoveryLeft(sub: Subscription, left: Left): nat {
    if sub.repositoryStatus == Some(Complete) then 0
    else 1 + left(0, Repository, NonEmptyText(sub.repositoryCursor))
  }

  function Weight(row: Row, t: TaskType, left: Left): nat {
    if IsPending(row, t) then 1 + left(row.repoId, t, CursorOf(row, t)) else 0
  }

  function RowWork(row: Row, tasks: seq<TaskType>, left: Left): nat {
    if tasks == [] then 0 else Weight(row, tasks[0], left) + RowWork(row, tasks[1..], left)
  }

  function Work(rows: seq<Row>, left: Left): nat {
    if rows == [] then 0 else RowWork(rows[0], ALL_TASKS, left) + Work(rows[1..], left)
  }

  /** At least one delivery, and one more for every retry that is left. */
  function AttemptsOf(message: Envelope): nat {
    if message.receiveCount < MAX_ATTEMPTS then 1 + MAX_ATTEMPTS - message.receiveCount else 1
  }

  function Attempts(queue: seq<Envelope>): nat {
    if queue == [] then 0 else AttemptsOf(queue[0]) + Attempts(queue[1..])
  }

  // ---- Sums ---------------------------------------------------------------------------------------------------------

  lemma {:induction false} RowWorkAtMost(before: Row, after: Row, tasks: seq<TaskType>, left: Left)
    requires forall t :: t in tasks ==> Weight(after, t, left) <= Weight(before, t, left)
    ensures RowWork(after, tasks, left) <= RowWork(before, tasks, left)
    ensures (exists t :: t in tasks && Weight(after, t, left) < Weight(before, t, left)) ==>
              RowWork(after, tasks, left) < RowWork(before, tasks, left)
  {
    hide Weight;
    if tasks != [] {
      RowWorkAtMost(before, after, tasks[1..], left);
      assert forall t :: t in tasks <==> t == tasks[0] || t in tasks[1..];
    }
  }

  lemma {:induction false} WorkAtMost(before: seq<Row>, after: seq<Row>, left: Left)
    requires |after| == |before|
    requires forall i | 0 <= i < |before| :: RowWork(after[i], ALL_TASKS, left) <= RowWork(before[i], ALL_TASKS, left)
    ensures Work(after, left) <= Work(before, left)
    ensures (exists i ::
               0 <= i < |before| && RowWork(after[i], ALL_TASKS, left) < RowWork(before[i], ALL_TASKS, left)) ==>
              Work(after, left) < Work(before, left)
  {
    hide RowWork;
    if before != [] {
      WorkAtMost(before[1..], after[1..], left);
      if i :| 0 <= i < |before| && RowWork(after[i], ALL_TASKS, left) < RowWork(before[i], ALL_TASKS, left) {
        if i > 0 {
          assert before[1..][i - 1] == before[i] && after[1..][i - 1] == after[i];
        }
      }
    }
  }

  lemma {:induction false} AttemptsWithout(queue: seq<Envelope>, i: nat, tail: seq<Envelope>)
    requires i < |queue|
    ensures Attempts(Without(queue, i) + tail) == Attempts(queue) - AttemptsOf(queue[i]) + Attempts(tail)
  {
    hide AttemptsOf;
    if i == 0 {
      AttemptsConcat(queue[1..], tail);
      assert Without(queue, 0) + tail == queue[1..] + tail;
    } else {
      AttemptsWithout(queue[1..], i - 1, tail);
      assert (Without(queue, i) + tail)[1..] == Without(queue[1..], i - 1) + tail;
    }
  }

  lemma {:induction false} AttemptsConcat(a: seq<Envelope>, b: seq<Envelope>)
    ensures Attempts(a + b) == Attempts(a) + Attempts(b)
  {
    hide AttemptsOf;
    if a == [] {
      assert a + b == b;
    } else {
      AttemptsConcat(a[1..], b);
      assert (a + b)[1..] == a[1..] + b;
    }
  }

  // ---- One task writes its columns ----------------------------------------------------------------------------------

  /** The rows still show what the task was scheduled on. */
  ghost predicate Fresh(rows: seq<Row>, task: Task) {
    && task.task != Repository
    && (exists row :: row in rows && row.repoId == task.repositoryId)
    && (forall row :: row in rows && row.repoId == task.repositoryId ==>
          IsPending(row, task.task) && CursorOf(row, task.task) == task.cursor)
  }

  /** The writes finish the task or move its cursor towards the end. */
  ghost predicate Lightens(values: seq<Write>, task: Task, left: Left) {
    forall row: Row | row.repoId == task.repositoryId && IsPending(row, task.task)
        && CursorOf(row, task.task) == task.cursor ::
      Weight(WriteRow(row, values), task.task, left) < Weight(row, task.task, left)
  }

  ghost predicate OwnColumns(values: seq<Write>, task: Task) {
    forall w :: w in values ==> w.SetFailedCode? || w.task == task.task
  }

  lemma WriteLightensRow(row: Row, task: Task, values: seq<Write>, left: Left)
    requires task.task != Repository && row.repoId == task.repositoryId
    requires IsPending(row, task.task) && CursorOf(row, task.task) == task.cursor
    requires OwnColumns(values, task) && Lightens(values, task, left)
    ensures RowWork(WriteRow(row, values), ALL_TASKS, left) < RowWork(row, ALL_TASKS, left)
  {
    hide WriteRow, IsPending, CursorOf;
    var after := WriteRow(row, values);
    WriteRowIdentity(row, values);
    forall t | t in ALL_TASKS && t != task.task
      ensures Weight(after, t, left) == Weight(row, t, left)
    {
      WriteRowFrame(row, values, t);
    }
    AllTasksListed(task.task);
    RowWorkAtMost(row, after, ALL_TASKS, left);
  }

  // Writing a scheduled task's columns makes the work strictly less.
  lemma WriteLightens(rows: seq<Row>, task: Task, values: seq<Write>, left: Left)
    requires Fresh(rows, task) && OwnColumns(values, task) && Lightens(values, task, left)
    ensures Work(WriteRows(rows, task.repositoryId, values), left) < Work(rows, left)
  {
    hide WriteRow, Work, RowWork, Lightens, OwnColumns;
    var after := WriteRows(rows, task.repositoryId, values);
    WriteRowsElements(rows, task.repositoryId, values);
    forall i | 0 <= i < |rows|
      ensures RowWork(after[i], ALL_TASKS, left) <= RowWork(rows[i], ALL_TASKS, left)
      ensures rows[i].repoId == task.repositoryId ==>
                RowWork(after[i], ALL_TASKS, left) < RowWork(rows[i], ALL_TASKS, left)
    {
      assert rows[i] in rows;
      if rows[i].repoId == task.repositoryId {
        WriteLightensRow(rows[i], task, values, left);
      }
    }
    var row :| row in rows && row.repoId == task.repositoryId;
    var i :| 0 <= i < |rows| && rows[i] == row;
    WorkAtMost(rows, after, left);
  }

  // A task's writes leave every other scheduled task as it was.
  lemma FreshAfterWrite(rows: seq<Row>, task: Task, values: seq<Write>, other: Task)
    requires Fresh(rows, other) && OwnColumns(values, task) && Apart(task, other)
    ensures Fresh(WriteRows(rows, task.repositoryId, values), other)
  {
    hide WriteRow, IsPending, CursorOf;
    var after := WriteRows(rows, task.repositoryId, values);
    WriteRowsElements(rows, task.repositoryId, values);
    forall i | 0 <= i < |rows|
      ensures after[i].repoId == rows[i].repoId
      ensures rows[i].repoId == other.repositoryId ==>
                IsPending(after[i], other.task) && CursorOf(after[i], other.task) == other.cursor
    {
      assert rows[i] in rows;
      WriteRowIdentity(rows[i], values);
      if rows[i].repoId == task.repositoryId == other.repositoryId {
        WriteRowFrame(rows[i], values, other.task);
      }
    }
    var row :| row in rows && row.repoId == other.repositoryId;
    var i :| 0 <= i < |rows| && rows[i] == row;
    assert after[i] in after;
  }

  lemma WriteOne(row: Row, a: Write)
    ensures WriteRow(row, [a]) == WriteColumn(row, a)
  {
    assert [a][1..] == [];
    assert WriteRow(WriteColumn(row, a), []) == WriteColumn(row, a);
  }

  lemma WriteTwo(row: Row, a: Write, b: Write)
    ensures WriteRow(row, [a, b]) == WriteColumn(WriteColumn(row, a), b)
  {
    assert [a, b][1..] == [b];
    WriteOne(WriteColumn(row, a), b);
  }

  lemma TaskWritesLighten(rows: seq<Row>, payload: Payload, edges: seq<string>, task: Task, left: Left)
    requires task.task != Repository
    requires edges != [] ==> left(task.repositoryId, task.task, NonEmptyText(Some(edges[|edges| - 1])))
                             < left(task.repositoryId, task.task, task.cursor)
    ensures Lightens(TaskWrites(rows, payload, edges, task), task, left)
    ensures OwnColumns(TaskWrites(rows, payload, edges, task), task)
  {
    var values := TaskWrites(rows, payload, edges, task);
    forall row: Row | row.repoId == task.repositoryId && IsPending(row, task.task)
        && CursorOf(row, task.task) == task.cursor
      ensures Weight(WriteRow(row, values), task.task, left) < Weight(row, task.task, left)
    {
      WriteRowIdentity(row, values);
      TaskWritesOnRow(rows, payload, edges, task, row);
    }
  }

  lemma TaskWritesOnRow(rows: seq<Row>, payload: Payload, edges: seq<string>, task: Task, row: Row)
    requires task.task != Repository
    ensures var after := WriteRow(row, TaskWrites(rows, payload, edges, task));
            if edges == [] then !IsPending(after, task.task)
            else IsPending(after, task.task) && CursorOf(after, task.task) == NonEmptyText(Some(edges[|edges| - 1]))
  {
    hide WriteRow;
    if edges != [] {
      WriteTwo(row, SetStatus(task.task, Pending), SetCursor(task.task, edges[|edges| - 1]));
    } else if FromDateWrites(rows, payload, task) == [] {
      assert TaskWrites(rows, payload, edges, task) == [SetStatus(task.task, Complete)];
      WriteOne(row, SetStatus(task.task, Complete));
    } else {
      var since := payload.commitsFromDate.value;
      assert TaskWrites(rows, payload, edges, task) == [SetStatus(task.task, Complete), SetFrom(task.task, since)];
      WriteTwo(row, SetStatus(task.task, Complete), SetFrom(task.task, since));
    }
  }

  // ---- The tasks of one message -------------------------------------------------------------------------------------

  ghost predicate AllFresh(rows: seq<Row>, jobs: seq<Job>) {
    forall i | 0 <= i < |jobs| :: Fresh(rows, jobs[i].task)
  }

  ghost predicate AllFinite(jobs: seq<Job>, left: Left, repoIds: set<int>) {
    forall i | 0 <= i < |jobs| :: FiniteReply(jobs[i], left, repoIds)
  }

  lemma JobLightens(store: Store, payload: Payload, job: Job, left: Left, repoIds: set<int>)
    requires store.sub.Some? && Fresh(store.rows, job.task) && FiniteReply(job, left, repoIds)
    ensures var after := RunJob(store, payload, job);
            && after.sub == store.sub && RepoIds(after.rows) == RepoIds(store.rows)
            && (if job.outcome.Fetched? then Work(after.rows, left) < Work(store.rows, left) else after == store)
  {
    hide TaskWrites, Fresh, Work, Lightens, OwnColumns;
    assert job.task.task != Repository by { FreshIsNotDiscovery(store.rows, job.task); }
    RunJobOnRows(store, payload, job);
    if job.outcome.Fetched? {
      var values := TaskWrites(store.rows, payload, job.outcome.edges, job.task);
      TaskWritesLighten(store.rows, payload, job.outcome.edges, job.task, left);
      WriteLightens(store.rows, job.task, values, left);
      WriteRowsKeepIds(store.rows, job.task.repositoryId, values);
    }
  }

  lemma FreshIsNotDiscovery(rows: seq<Row>, task: Task)
    requires Fresh(rows, task)
    ensures task.task != Repository
  {
  }

  lemma WriteRowsKeepIds(rows: seq<Row>, repoId: int, values: seq<Write>)
    ensures RepoIds(WriteRows(rows, repoId, values)) == RepoIds(rows)
  {
    hide WriteRow;
    var after := WriteRows(rows, repoId, values);
    WriteRowsElements(rows, repoId, values);
    forall i | 0 <= i < |rows|
      ensures after[i].repoId == rows[i].repoId && rows[i] in rows && after[i] in after
    {
      WriteRowIdentity(rows[i], values);
    }
  }

  lemma FreshAfterJob(store: Store, payload: Payload, job: Job, other: Task)
    requires store.sub.Some? && job.task.task != Repository
    requires Fresh(store.rows, other) && Apart(job.task, other)
    ensures Fresh(RunJob(store, payload, job).rows, other)
  {
    hide TaskWrites, Fresh;
    RunJobOnRows(store, payload, job);
    if job.outcome.Fetched? {
      TaskWritesOwnColumns(store.rows, payload, job.outcome.edges, job.task);
      FreshAfterWrite(store.rows, job.task, TaskWrites(store.rows, payload, job.outcome.edges, job.task), other);
    }
  }

  lemma {:induction false} FreshAfterJobs(store: Store, payload: Payload, jobs: seq<Job>, other: Task)
    requires store.sub.Some? && Fresh(store.rows, other)
    requires forall i | 0 <= i < |jobs| :: jobs[i].task.task != Repository && Apart(jobs[i].task, other)
    ensures Fresh(RunJobs(store, payload, jobs).rows, other)
    decreases |jobs|
  {
    hide RunJob, Fresh;
    if jobs != [] {
      FreshAfterJob(store, payload, jobs[0], other);
      RunJobKeepsSub(store, payload, jobs[0]);
      FreshAfterJobs(RunJob(store, payload, jobs[0]), payload, jobs[1..], other);
    }
  }

  lemma RunJobKeepsSub(store: Store, payload: Payload, job: Job)
    requires store.sub.Some? && job.task.task != Repository
    ensures RunJob(store, payload, job).sub == store.sub
  {
    RunJobOnRows(store, payload, job);
  }

  lemma {:induction false} JobsLighten(store: Store, payload: Payload, jobs: seq<Job>, left: Left, repoIds: set<int>)
    requires store.sub.Some? && JobsApart(jobs) && AllFresh(store.rows, jobs) && AllFinite(jobs, left, repoIds)
    ensures var after := RunJobs(store, payload, jobs);
            && after.sub == store.sub && RepoIds(after.rows) == RepoIds(store.rows)
            && Work(after.rows, left) <= Work(store.rows, left)
            && (jobs != [] && jobs[0].outcome.Fetched? ==> Work(after.rows, left) < Work(store.rows, left))
    decreases |jobs|
  {
    hide RunJob, Fresh, Work, RepoIds;
    if jobs != [] {
      var next := RunJob(store, payload, jobs[0]);
      JobLightens(store, payload, jobs[0], left, repoIds);
      forall i | 0 <= i < |jobs[1..]|
        ensures Fresh(next.rows, jobs[1..][i].task)
      {
        assert jobs[1..][i] == jobs[i + 1];
        assert Apart(jobs[0].task, jobs[i + 1].task);
        FreshAfterJob(store, payload, jobs[0], jobs[i + 1].task);
      }
      ApartWithout(jobs, 0);
      assert Without(jobs, 0) == jobs[1..];
      JobsLighten(next, payload, jobs[1..], left, repoIds);
    }
  }

  // ---- The measure of the store -------------------------------------------------------------------------------------

  /** Repositories without a row, discovery left, work left. */
  datatype Rank = Rank(undiscovered: nat, discovery: nat, work: nat)

  function RankOf(store: Store, left: Left, repoIds: set<int>): Rank {
    if store.sub.None? then Rank(0, 0, 0)
    else Rank(|repoIds - RepoIds(store.rows)|, DiscoveryLeft(store.sub.value, left), Work(store.rows, left))
  }

  predicate Below(a: Rank, b: Rank) {
    || a.undiscovered < b.undiscovered
    || (a.undiscovered == b.undiscovered && a.discovery < b.discovery)
    || (a.undiscovered == b.undiscovered && a.discovery == b.discovery && a.work < b.work)
  }

  predicate AtMost(a: Rank, b: Rank) {
    a == b || Below(a, b)
  }

  // Discovery inserts rows for new repositories only: either nothing changes, or fewer repositories are left without a
  // row.
  lemma {:induction false} DiscoverRank(rows: seq<Row>, ids: seq<int>, repoIds: set<int>)
    requires forall id :: id in ids ==> id in repoIds
    ensures var after := Discover(rows, ids);
            after == rows || |repoIds - RepoIds(after)| < |repoIds - RepoIds(rows)|
    decreases |ids|
  {
    if ids != [] {
      FindByRepoIdIff(rows, ids[0]);
      if FindByRepoId(rows, ids[0]).Some? {
        DiscoverRank(rows, ids[1..], repoIds);
      } else {
        var row := Row(NextId(rows), ids[0], map[], map[], map[], None);
        DiscoverRank([row] + rows, ids[1..], repoIds);
        NewRowRank(rows, row, repoIds);
      }
    }
  }

  lemma NewRowRank(rows: seq<Row>, row: Row, repoIds: set<int>)
    requires row.repoId in repoIds && FindByRepoId(rows, row.repoId).None?
    ensures |repoIds - RepoIds([row] + rows)| < |repoIds - RepoIds(rows)|
  {
    hide RepoIds;
    RowIdsWith(rows, row);
    var undiscovered := repoIds - RepoIds(rows);
    assert row.repoId in undiscovered;
    assert repoIds - RepoIds([row] + rows) == undiscovered - {row.repoId};
  }

  lemma RowIdsWith(rows: seq<Row>, row: Row)
    ensures RepoIds([row] + rows) == {row.repoId} + RepoIds(rows)
    ensures FindByRepoId(rows, row.repoId).None? ==> row.repoId !in RepoIds(rows)
  {
    hide FindByRepoId;
    FindByRepoIdIff(rows, row.repoId);
    RepoIdIff(rows, row.repoId);
    forall id
      ensures id in RepoIds([row] + rows) <==> id == row.repoId || id in RepoIds(rows)
    {
      RepoIdIff(rows, id);
      RepoIdIff([row] + rows, id);
      assert ([row] + rows)[0] == row;
      assert forall i | 0 <= i < |rows| :: ([row] + rows)[i + 1] == rows[i];
    }
  }

  lemma RepoIdIff(rows: seq<Row>, id: int)
    ensures id in RepoIds(rows) <==> exists i :: 0 <= i < |rows| && rows[i].repoId == id
  {
    if i :| 0 <= i < |rows| && rows[i].repoId == id {
      assert rows[i] in rows;
    }
  }

  // Columns of the discovery task live in the subscription, not in the rows.
  lemma {:induction false} DiscoveryWritesNoWork(rows: seq<Row>, repoId: int, values: seq<Write>, left: Left)
    requires forall w :: w in values ==> w.SetFailedCode? || (!w.SetFrom? && w.task == Repository)
    ensures Work(WriteRows(rows, repoId, values), left) == Work(rows, left)
    ensures RepoIds(WriteRows(rows, repoId, values)) == RepoIds(rows)
  {
    hide WriteRow, RowWork;
    WriteRowsKeepIds(rows, repoId, values);
    if rows != [] {
      DiscoveryWritesNoWork(rows[1..], repoId, values, left);
      assert WriteRows(rows, repoId, values)[1..] == WriteRows(rows[1..], repoId, values);
      if rows[0].repoId == repoId {
        SameWork(rows[0], values, left);
      }
    }
  }

  lemma SameWork(row: Row, values: seq<Write>, left: Left)
    requires forall w :: w in values ==> w.SetFailedCode? || w.task == Repository
    ensures RowWork(WriteRow(row, values), ALL_TASKS, left) == RowWork(row, ALL_TASKS, left)
  {
    hide WriteRow, RowWork, IsPending, CursorOf;
    var after := WriteRow(row, values);
    forall t | t in ALL_TASKS
      ensures Weight(after, t, left) == Weight(row, t, left)
    {
      AllTasksListed(t);
      WriteRowFrame(row, values, t);
    }
    RowWorkAtMost(row, after, ALL_TASKS, left);
    RowWorkAtMost(after, row, ALL_TASKS, left);
  }

  lemma DiscoveryJobRank(store: Store, payload: Payload, job: Job, left: Left, repoIds: set<int>)
    requires store.sub.Some? && store.sub.value.repositoryStatus != Some(Complete)
    requires job.task == DiscoveryTask(store.sub.value) && FiniteReply(job, left, repoIds)
    ensures var after := RunJob(store, payload, job);
            && after.sub.Some?
            && (job.outcome.Fetched? ==> Below(RankOf(after, left, repoIds), RankOf(store, left, repoIds)))
            && (job.outcome.Threw? ==> after.sub == store.sub
                                       && AtMost(RankOf(after, left, repoIds), RankOf(store, left, repoIds)))
  {
    hide Work, RepoIds;
    var rows := Discover(store.rows, job.discovered);
    DiscoverRank(store.rows, job.discovered, repoIds);
    if job.outcome.Fetched? {
      var edges := job.outcome.edges;
      var values := TaskWrites(rows, payload, edges, job.task);
      DiscoveryWritesNoWork(rows, 0, values, left);
      DiscoveryWritesSub(rows, payload, edges, job.task, store.sub.value);
    }
  }

  lemma DiscoveryWritesSub(rows: seq<Row>, payload: Payload, edges: seq<string>, task: Task, sub: Subscription)
    requires task.task == Repository
    ensures WriteSub(sub, TaskWrites(rows, payload, edges, task)) ==
            if edges == [] then sub.(repositoryStatus := Some(Complete))
            else sub.(repositoryStatus := Some(Pending), repositoryCursor := Some(edges[|edges| - 1]))
  {
    var values := TaskWrites(rows, payload, edges, task);
    if edges == [] {
      assert values[1..] == [];
      assert WriteSub(sub.(repositoryStatus := Some(Complete)), []) == sub.(repositoryStatus := Some(Complete));
    } else {
      var pending := sub.(repositoryStatus := Some(Pending));
      var cursor := [SetCursor(Repository, edges[|edges| - 1])];
      assert values[1..] == cursor && cursor[1..] == [];
      assert WriteSub(pending, cursor) == WriteSub(pending.(repositoryCursor := Some(edges[|edges| - 1])), []);
    }
  }

  // ---- One processed message ----------------------------------------------------------------------------------------

  // Tasks picked from the rows are fresh.
  lemma PickedTaskFresh(rows: seq<Row>, tasks: seq<TaskType>, task: Task)
    requires ValidRows(rows) && task in AllPending(rows, tasks) && Repository !in tasks
    ensures Fresh(rows, task)
  {
    AllPendingExact(rows, tasks, task);
    var row :| row in rows && task == TaskOf(row, task.task) && task.task in tasks && IsPending(row, task.task);
    forall other | other in rows && other.repoId == task.repositoryId
      ensures other == row
    {
      var i :| 0 <= i < |rows| && rows[i] == row;
      var j :| 0 <= j < |rows| && rows[j] == other;
    }
  }

  lemma ScheduledJobsApart(store: Store, payload: Payload, world: World)
    requires store.sub.Some? && ValidRows(store.rows) && ValidWorld(world)
    requires NextTasksFor(store.sub.value, store.rows, payload, world).mainTask.Some?
    ensures var next := NextTasksFor(store.sub.value, store.rows, payload, world);
            var jobs := Respond(world, [next.mainTask.value] + next.otherTasks);
            && jobs[0].task == next.mainTask.value
            && (if store.sub.value.repositoryStatus == Some(Complete) then JobsApart(jobs) && AllFresh(store.rows, jobs)
                else jobs[0].task == DiscoveryTask(store.sub.value) && |jobs| == 1)
  {
    hide Fresh, AllPending, Pool, PendingRows, AllowedTasks, ValidRows, EstimateNumberOfSubtasks, Apart;
    var sub := store.sub.value;
    var tasks := AllowedTasks(sub, world.securityFlag, payload.targetTasks);
    var next := NextTasksFor(sub, store.rows, payload, world);
    var chosen := [next.mainTask.value] + next.otherTasks;
    var jobs := Respond(world, chosen);
    ScheduleIsValid(sub, store.rows, tasks, EstimateNumberOfSubtasks(world.quota), world.shuffle);
    ScheduledTasksApart(sub, store.rows, payload.targetTasks, world.securityFlag, world.quota, next);
    assert forall i | 0 <= i < |jobs| :: jobs[i].task == chosen[i];
    if sub.repositoryStatus == Some(Complete) {
      AllowedTasksDistinct(sub, world.securityFlag, payload.targetTasks);
      forall i | 0 <= i < |jobs|
        ensures Fresh(store.rows, jobs[i].task) && jobs[i].task.task != Repository
      {
        assert chosen[i] in chosen;
        PickedTaskFresh(store.rows, tasks, chosen[i]);
        FreshIsNotDiscovery(store.rows, chosen[i]);
      }
      forall i, j | 0 <= i < |jobs| && 0 <= j < |jobs| && i != j
        ensures Apart(jobs[i].task, jobs[j].task)
      {
        ApartSymmetric(chosen[i], chosen[j]);
      }
    }
  }

  lemma ScheduledJobs(store: Store, payload: Payload, world: World, left: Left, repoIds: set<int>)
    requires store.sub.Some? && ValidRows(store.rows) && ValidWorld(world) && Finite(world, left, repoIds)
    requires NextTasksFor(store.sub.value, store.rows, payload, world).mainTask.Some?
    ensures var next := NextTasksFor(store.sub.value, store.rows, payload, world);
            var jobs := Respond(world, [next.mainTask.value] + next.otherTasks);
            && AllFinite(jobs, left, repoIds)
            && jobs[0].task == next.mainTask.value
            && (if store.sub.value.repositoryStatus == Some(Complete) then JobsApart(jobs) && AllFresh(store.rows, jobs)
                else jobs[0].task == DiscoveryTask(store.sub.value) && |jobs| == 1)
  {
    hide NextTasksFor, FiniteReply, ValidRows, AllFresh, JobsApart, ValidWorld;
    ScheduledJobsApart(store, payload, world);
    var next := NextTasksFor(store.sub.value, store.rows, payload, world);
    var chosen := [next.mainTask.value] + next.otherTasks;
    var jobs := Respond(world, chosen);
    forall i | 0 <= i < |jobs|
      ensures FiniteReply(jobs[i], left, repoIds)
    {
      assert jobs[i] == world.respond(chosen[i]);
    }
  }

  lemma ApartSymmetric(x: Task, y: Task)
    ensures Apart(x, y) <==> Apart(y, x)
  {
  }

  lemma {:induction false} RunJobsKeepRowsValid(store: Store, payload: Payload, jobs: seq<Job>)
    requires ValidRows(store.rows)
    ensures ValidRows(RunJobs(store, payload, jobs).rows)
    decreases |jobs|
  {
    hide ValidRows, TaskWrites, WriteSub;
    if jobs != [] {
      var job := jobs[0];
      DiscoverKeepsRowsValid(store.rows, job.discovered);
      var grown := if job.task.task == Repository && store.sub.Some? then Discover(store.rows, job.discovered)
          else store.rows;
      if job.outcome.Fetched? {
        WriteRowsAt(grown, job.task.repositoryId, TaskWrites(grown, payload, job.outcome.edges, job.task));
      }
      RunJobsKeepRowsValid(RunJob(store, payload, job), payload, jobs[1..]);
    }
  }

  /** Where a failed main task leaves the store: its columns are as it found them. */
  ghost predicate Untouched(store: Store, task: Task) {
    store.sub.Some? && if task.task == Repository then store.sub.value.repositoryStatus != Some(Complete)
                       else Fresh(store.rows, task)
  }

  lemma RowJobsRank(active: Store, payload: Payload, jobs: seq<Job>, settled: seq<Job>, left: Left, repoIds: set<int>)
    requires active.sub.Some? && jobs != [] && multiset(settled) == multiset(jobs)
    requires JobsApart(jobs) && AllFresh(active.rows, jobs) && AllFinite(jobs, left, repoIds)
    ensures var after := RunJobs(active, payload, settled);
            && after.sub.Some?
            && (if jobs[0].outcome.Fetched? then Below(RankOf(after, left, repoIds), RankOf(active, left, repoIds))
                else && AtMost(RankOf(after, left, repoIds), RankOf(active, left, repoIds))
                     && Untouched(after, jobs[0].task))
  {
    hide RunJob, Work, RepoIds, Fresh, FiniteReply, Apart;
    SettlingOrderIrrelevant(active, payload, jobs, settled);
    JobsLighten(active, payload, jobs, left, repoIds);
    if jobs[0].outcome.Threw? {
      RunJobsFirst(active, payload, jobs);
      ThrownRowJob(active, payload, jobs[0]);
      forall i | 0 <= i < |jobs[1..]|
        ensures jobs[1..][i].task.task != Repository && Apart(jobs[1..][i].task, jobs[0].task)
      {
        assert jobs[1..][i] == jobs[i + 1];
      }
      FreshAfterJobs(active, payload, jobs[1..], jobs[0].task);
    }
  }

  lemma ThrownRowJob(store: Store, payload: Payload, job: Job)
    requires job.task.task != Repository && job.outcome.Threw?
    ensures RunJob(store, payload, job) == store
  {
  }

  lemma DiscoveryJobsRank(active: Store, payload: Payload, jobs: seq<Job>, settled: seq<Job>, left: Left,
          repoIds: set<int>)
    requires active.sub.Some? && active.sub.value.repositoryStatus != Some(Complete)
    requires |jobs| == 1 && multiset(settled) == multiset(jobs) && AllFinite(jobs, left, repoIds)
    requires jobs[0].task == DiscoveryTask(active.sub.value)
    ensures var after := RunJobs(active, payload, settled);
            && after.sub.Some?
            && (if jobs[0].outcome.Fetched? then Below(RankOf(after, left, repoIds), RankOf(active, left, repoIds))
                else && AtMost(RankOf(after, left, repoIds), RankOf(active, left, repoIds))
                     && Untouched(after, jobs[0].task))
  {
    hide RunJob, Work, RepoIds, Fresh, FiniteReply;
    assert |settled| == |multiset(settled)| == |multiset(jobs)| == 1;
    assert settled[0] in multiset(jobs);
    assert settled == jobs;
    RunJobsFirst(active, payload, jobs);
    assert jobs[1..] == [];
    DiscoveryJobRank(active, payload, jobs[0], left, repoIds);
  }

  // A processed message leaves the rank as it is when nothing is to be done, lowers it when the main task succeeds, and
  // never raises it.
  lemma ProcessedRank(store: Store, payload: Payload, world: World, left: Left, repoIds: set<int>)
    requires store.sub.Some? && ValidRows(store.rows) && ValidWorld(world) && Finite(world, left, repoIds)
    ensures var (after, result) := DoProcessInstallation(store, payload, world);
            && after.sub.Some? && ValidRows(after.rows)
            && match result {
                 case Done(None) => RankOf(after, left, repoIds) == RankOf(store, left, repoIds)
                 case Done(_) => Below(RankOf(after, left, repoIds), RankOf(store, left, repoIds))
                 case TaskError(task, _) =>
                   AtMost(RankOf(after, left, repoIds), RankOf(store, left, repoIds)) && Untouched(after, task)
               }
  {
    hide NextTasksFor, RunJobs, ValidRows, Work, RepoIds, Fresh, Finite, FiniteReply, Untouched, AllFinite, AllFresh,
         JobsApart, Respond, Below;
    var next := NextTasksFor(store.sub.value, store.rows, payload, world);
    if next.mainTask.Some? {
      var active := store.(sub := Some(store.sub.value.(syncStatus := ACTIVE)));
      assert RankOf(active, left, repoIds) == RankOf(store, left, repoIds);
      var jobs := Respond(world, [next.mainTask.value] + next.otherTasks);
      var settled := world.settle(jobs);
      ScheduledJobs(store, payload, world, left, repoIds);
      RunJobsKeepRowsValid(active, payload, settled);
      if store.sub.value.repositoryStatus == Some(Complete) {
        RowJobsRank(active, payload, jobs, settled, left, repoIds);
      } else {
        DiscoveryJobsRank(active, payload, jobs, settled, left, repoIds);
      }
    }
  }

  // ---- One handled error --------------------------------------------------------------------------------------------

  lemma RowTaskRank(store: Store, task: Task, values: seq<Write>, sub: Subscription, left: Left, repoIds: set<int>)
    requires store.sub.Some? && Fresh(store.rows, task) && OwnColumns(values, task) && Lightens(values, task, left)
    requires DiscoveryLeft(sub, left) == DiscoveryLeft(store.sub.value, left)
    ensures Below(RankOf(Store(Some(sub), WriteRows(store.rows, task.repositoryId, values)), left, repoIds),
                  RankOf(store, left, repoIds))
  {
    hide Fresh, OwnColumns, Lightens, Work, RepoIds;
    WriteLightens(store.rows, task, values, left);
    WriteRowsKeepIds(store.rows, task.repositoryId, values);
  }

  lemma NoColumnOfSub(sub: Subscription, task: Task, code: string)
    requires task.task != Repository
    ensures WriteSub(sub, [SetStatus(task.task, Failed), SetFailedCode(code)]) == sub
    ensures WriteSub(sub, [SetFailedCode(code)]) == sub
  {
    var values := [SetStatus(task.task, Failed), SetFailedCode(code)];
    assert values[1..] == [SetFailedCode(code)];
    assert [SetFailedCode(code)][1..] == [];
    assert WriteSub(sub, []) == sub;
  }

  lemma FailedDiscoverySub(sub: Subscription, code: string)
    ensures WriteSub(sub, [SetStatus(Repository, Failed), SetFailedCode(code)])
        == sub.(repositoryStatus := Some(Failed))
    ensures WriteSub(sub, [SetFailedCode(code)]) == sub
  {
    var values := [SetStatus(Repository, Failed), SetFailedCode(code)];
    assert values[1..] == [SetFailedCode(code)];
    assert [SetFailedCode(code)][1..] == [];
    assert WriteSub(sub.(repositoryStatus := Some(Failed)), []) == sub.(repositoryStatus := Some(Failed));
  }

  // Two updates of the same row are one.
  lemma {:induction false} WriteRowConcat(row: Row, a: seq<Write>, b: seq<Write>)
    ensures WriteRow(WriteRow(row, a), b) == WriteRow(row, a + b)
    decreases |a|
  {
    if a == [] {
      assert a + b == b;
    } else {
      WriteRowConcat(WriteColumn(row, a[0]), a[1..], b);
      assert (a + b)[1..] == a[1..] + b;
    }
  }

  lemma {:induction false} WriteRowsConcat(rows: seq<Row>, repoId: int, a: seq<Write>, b: seq<Write>)
    ensures WriteRows(WriteRows(rows, repoId, a), repoId, b) == WriteRows(rows, repoId, a + b)
  {
    if rows != [] {
      WriteRowConcat(rows[0], a, b);
      WriteRowIdentity(rows[0], a);
      WriteRowsConcat(rows[1..], repoId, a, b);
      assert WriteRows(rows, repoId, a)[1..] == WriteRows(rows[1..], repoId, a);
    }
  }

  /** What marking a task as failed writes to its row, in one list. */
  function FailureWrites(task: Task, isPermissionError: bool, code: string): seq<Write> {
    [SetStatus(task.task, Failed), SetFailedCode(code)] + if isPermissionError
        then [SetFailedCode("PERMISSIONS_ERROR")] else []
  }

  lemma FailureStore(store: Store, payload: Payload, task: Task, isPermissionError: bool, code: string, left: Left)
    requires store.sub.Some?
    requires task.task == Repository ==> store.sub.value.repositoryStatus != Some(Complete)
    ensures var after := MarkCurrentTaskAsFailedAndContinue(store, payload, task, isPermissionError, code).0;
            && after.sub.Some?
            && DiscoveryLeft(after.sub.value, left) == DiscoveryLeft(store.sub.value, left)
            && after.rows == WriteRows(store.rows, task.repositoryId, FailureWrites(task, isPermissionError, code))
  {
    hide WriteRows, WriteSub;
    var first := [SetStatus(task.task, Failed), SetFailedCode(code)];
    WriteRowsConcat(store.rows, task.repositoryId, first, [SetFailedCode("PERMISSIONS_ERROR")]);
    assert first + [] == first;
    var sub := store.sub.value;
    if task.task == Repository {
      FailedDiscoverySub(sub, code);
      FailedDiscoverySub(sub.(repositoryStatus := Some(Failed)), "PERMISSIONS_ERROR");
    } else {
      NoColumnOfSub(sub, task, code);
      NoColumnOfSub(sub, task, "PERMISSIONS_ERROR");
    }
  }

  lemma FailureWritesLighten(task: Task, isPermissionError: bool, code: string, left: Left)
    requires task.task != Repository
    ensures Lightens(FailureWrites(task, isPermissionError, code), task, left)
    ensures OwnColumns(FailureWrites(task, isPermissionError, code), task)
  {
    var first := [SetStatus(task.task, Failed), SetFailedCode(code)];
    var values := FailureWrites(task, isPermissionError, code);
    forall row: Row
      ensures !IsPending(WriteRow(row, values), task.task)
    {
      WriteTwo(row, SetStatus(task.task, Failed), SetFailedCode(code));
      assert first + [] == first;
      if isPermissionError {
        WriteRowConcat(row, first, [SetFailedCode("PERMISSIONS_ERROR")]);
        WriteOne(WriteRow(row, first), SetFailedCode("PERMISSIONS_ERROR"));
      }
    }
  }

  lemma FailureRank(store: Store, payload: Payload, task: Task, isPermissionError: bool, code: string,
                    left: Left, repoIds: set<int>)
    requires Untouched(store, task)
    ensures var after := MarkCurrentTaskAsFailedAndContinue(store, payload, task, isPermissionError, code).0;
            && after.sub.Some? && (ValidRows(store.rows) ==> ValidRows(after.rows))
            && (if task.task == Repository then RankOf(after, left, repoIds) == RankOf(store, left, repoIds)
                else Below(RankOf(after, left, repoIds), RankOf(store, left, repoIds)))
  {
    hide MarkCurrentTaskAsFailedAndContinue, Fresh, Lightens, Work, RepoIds, DiscoveryLeft, ValidRows;
    var after := MarkCurrentTaskAsFailedAndContinue(store, payload, task, isPermissionError, code).0;
    var values := FailureWrites(task, isPermissionError, code);
    FailureStore(store, payload, task, isPermissionError, code, left);
    WriteRowsAt(store.rows, task.repositoryId, values);
    if task.task == Repository {
      DiscoveryWritesNoWork(store.rows, task.repositoryId, values, left);
    } else {
      FailureWritesLighten(task, isPermissionError, code, left);
      RowTaskRank(store, task, values, after.sub.value, left, repoIds);
    }
  }

  // A task whose repository is gone counts as complete, which lowers the rank like any completion.
  lemma NotFoundRank(store: Store, payload: Payload, task: Task, left: Left, repoIds: set<int>)
    requires Untouched(store, task)
    ensures var after := UpdateTaskStatusAndContinue(store, payload, [], task).0;
            && after.sub.Some? && (ValidRows(store.rows) ==> ValidRows(after.rows))
            && Below(RankOf(after, left, repoIds), RankOf(store, left, repoIds))
  {
    hide Fresh, Lightens, Work, RepoIds, TaskWrites, ValidRows;
    var values := TaskWrites(store.rows, payload, [], task);
    WriteRowsAt(store.rows, task.repositoryId, values);
    if task.task == Repository {
      DiscoveryWritesSub(store.rows, payload, [], task, store.sub.value);
      DiscoveryCompletionWrites(store.rows, payload, task);
      DiscoveryWritesNoWork(store.rows, task.repositoryId, values, left);
    } else {
      TaskWritesOwnColumns(store.rows, payload, [], task);
      SubUntouched(store.sub.value, values);
      TaskWritesLighten(store.rows, payload, [], task, left);
      RowTaskRank(store, task, values, store.sub.value, left, repoIds);
    }
  }

  lemma DiscoveryCompletionWrites(rows: seq<Row>, payload: Payload, task: Task)
    requires task.task == Repository
    ensures TaskWrites(rows, payload, [], task) == [SetStatus(Repository, Complete)]
  {
  }

  // An error that is not a postponement either stops discovery, or lowers the rank, or is retried on the same store.
  lemma HandledRank(store: Store, payload: Payload, task: Task, cause: Cause, lastAttempt: bool,
                    left: Left, repoIds: set<int>)
    requires Untouched(store, task) && cause.kind != RateLimiting
    ensures var h := HandleTaskError(store, payload, task, cause, lastAttempt);
            && h.store.sub.Some? && (ValidRows(store.rows) ==> ValidRows(h.store.rows))
            && AtMost(RankOf(h.store, left, repoIds), RankOf(store, left, repoIds))
            && (h.next.Some? ==> Below(RankOf(h.store, left, repoIds), RankOf(store, left, repoIds)))
            && (!h.deleted ==> !lastAttempt)
  {
    hide MarkCurrentTaskAsFailedAndContinue, UpdateTaskStatusAndContinue, Work, RepoIds, Fresh, DiscoveryLeft,
         ValidRows, Below;
    FailureRank(store, payload, task, true, cause.failedCode, left, repoIds);
    FailureRank(store, payload, task, false, cause.failedCode, left, repoIds);
    NotFoundRank(store, payload, task, left, repoIds);
    if task.task == Repository {
      FailedDiscoverySendsNothing(store, payload, task, true, cause.failedCode);
      FailedDiscoverySendsNothing(store, payload, task, false, cause.failedCode);
    }
  }

  lemma FailedDiscoverySendsNothing(store: Store, payload: Payload, task: Task, isPermissionError: bool, code: string)
    requires task.task == Repository
    ensures MarkCurrentTaskAsFailedAndContinue(store, payload, task, isPermissionError, code).1.None?
  {
  }

  // ---- One delivery -------------------------------------------------------------------------------------------------

  /**
   * The delivery puts the work off, for a rate limit, a duplicate in progress, or a rate-limited main task, or it
   * cannot delete its message.
   */
  predicate Postpones(s: State, turn: Turn)
    requires s.queue != []
  {
    || turn.rateLimitExceeded || turn.deleteFails
    || (turn.dedup != E_OK && !turn.Discards())
    || var result := DoProcessInstallation(s.store, s.queue[Picked(s, turn)].payload, turn.world).1;
       result.TaskError? && result.cause.kind == RateLimiting
  }

  ghost predicate ValidTurn(turn: Turn, left: Left, repoIds: set<int>) {
    ValidWorld(turn.world) && Finite(turn.world, left, repoIds)
  }

  /** Fewer attempts on the same store, or a lower store. */
  predicate Closer(after: State, before: State, left: Left, repoIds: set<int>) {
    || Below(RankOf(after.store, left, repoIds), RankOf(before.store, left, repoIds))
    || (RankOf(after.store, left, repoIds) == RankOf(before.store, left, repoIds)
        && Attempts(after.queue) < Attempts(before.queue))
  }

  lemma MessageRank(store: Store, message: Envelope, turn: Turn, left: Left, repoIds: set<int>)
    requires store.sub.Some? && ValidRows(store.rows) && ValidTurn(turn, left, repoIds)
    ensures var (after, successors) := ProcessMessage(store, message, turn);
            && after.sub.Some? && ValidRows(after.rows)
            && (!turn.rateLimitExceeded && !turn.deleteFails && (turn.dedup == E_OK || turn.Discards())
                && (var result := DoProcessInstallation(store, message.payload, turn.world).1;
                    result.TaskError? ==> result.cause.kind != RateLimiting) ==>
                  || Below(RankOf(after, left, repoIds), RankOf(store, left, repoIds))
                  || (RankOf(after, left, repoIds) == RankOf(store, left, repoIds)
                      && (successors == []
                          || (message.receiveCount + 1 < MAX_ATTEMPTS
                              && successors == [Received(message)]))))
  {
    hide DoProcessInstallation, HandleTaskError, RankOf, ValidRows, Untouched, ValidWorld, Finite;
    if !turn.rateLimitExceeded && !turn.Discards() && turn.dedup == E_OK {
      ProcessedRank(store, message.payload, turn.world, left, repoIds);
      var (processed, result) := DoProcessInstallation(store, message.payload, turn.world);
      if result.TaskError? {
        if result.cause.kind == RateLimiting {
          RateLimitedKeepsStore(processed, message.payload, result.task, result.cause,
              message.receiveCount + 1 >= MAX_ATTEMPTS);
        } else {
          HandledRank(processed, message.payload, result.task, result.cause, message.receiveCount + 1 >= MAX_ATTEMPTS,
                      left, repoIds);
          HandledStatus(processed, message.payload, result.task, result.cause,
              message.receiveCount + 1 >= MAX_ATTEMPTS);
        }
      }
    }
  }

  lemma RateLimitedKeepsStore(store: Store, payload: Payload, task: Task, cause: Cause, lastAttempt: bool)
    requires cause.kind == RateLimiting
    ensures HandleTaskError(store, payload, task, cause, lastAttempt).store == store
  {
  }

  /** What every state of a run satisfies. */
  ghost predicate Good(s: State) {
    s.store.sub.Some? && ValidRows(s.store.rows)
  }

  lemma StepCloser(s: State, turn: Turn, left: Left, repoIds: set<int>)
    requires s.queue != [] && Good(s) && ValidTurn(turn, left, repoIds)
    ensures Good(Step(s, turn))
    ensures !Postpones(s, turn) ==> Closer(Step(s, turn), s, left, repoIds)
  {
    hide ProcessMessage, DoProcessInstallation, RankOf, ValidRows, ValidTurn, Below;
    var i := Picked(s, turn);
    var (after, successors) := ProcessMessage(s.store, s.queue[i], turn);
    MessageRank(s.store, s.queue[i], turn, left, repoIds);
    AttemptsWithout(s.queue, i, successors);
    if successors != [] && |successors| == 1 {
      assert successors[1..] == [];
      assert Attempts(successors) == AttemptsOf(successors[0]) + Attempts([]);
    }
  }

  // ---- Whole runs ---------------------------------------------------------------------------------------------------

  /** None of the first `k` deliveries drops the last message of a sync that has not stopped. */
  ghost predicate NothingDropped(s: State, turns: nat -> Turn, k: nat) {
    forall i: nat | i < k :: DeliversMessage(StateAt(s, turns, i)) ==> !DropsLast(StateAt(s, turns, i), turns(i))
  }

  predicate DeliversMessage(s: State) {
    s.queue != []
  }

  lemma {:induction false} RunsStayGood(s: State, turns: nat -> Turn, k: nat, left: Left, repoIds: set<int>)
    requires Good(s) && NotStuck(s)
    requires forall i: nat :: ValidTurn(turns(i), left, repoIds)
    ensures Good(StateAt(s, turns, k)) && (NotStuck(StateAt(s, turns, k)) <==> NothingDropped(s, turns, k))
  {
    assert NothingDropped(s, turns, 0);
    hide NothingDropped;
    if k > 0 {
      RunsStayGood(s, turns, k - 1, left, repoIds);
      NextState(s, turns, k);
      NothingDroppedStep(s, turns, k);
      hide StateAt;
      GoodStep(StateAt(s, turns, k - 1), turns(k - 1), left, repoIds);
    }
  }

  lemma GoodStep(s: State, turn: Turn, left: Left, repoIds: set<int>)
    requires Good(s) && ValidTurn(turn, left, repoIds)
    ensures var next := if s.queue == [] then s else Step(s, turn);
            && Good(next)
            && (NotStuck(next) <==> NotStuck(s) && (DeliversMessage(s) ==> !DropsLast(s, turn)))
  {
    hide ValidTurn, Step, ValidRows;
    if s.queue != [] {
      StepCloser(s, turn, left, repoIds);
      StepStuckIff(s, turn);
    }
  }

  lemma NextState(s: State, turns: nat -> Turn, k: nat)
    requires k > 0
    ensures var before := StateAt(s, turns, k - 1);
            StateAt(s, turns, k) == if before.queue == [] then before else Step(before, turns(k - 1))
  {
    hide Step;
  }

  lemma NothingDroppedStep(s: State, turns: nat -> Turn, k: nat)
    requires k > 0
    ensures var before := StateAt(s, turns, k - 1);
            NothingDropped(s, turns, k) <==>
              NothingDropped(s, turns, k - 1) && (DeliversMessage(before) ==> !DropsLast(before, turns(k - 1)))
  {
    hide StateAt, DropsLast, DeliversMessage;
  }

  /** From delivery `calm` on, nothing is postponed any more. */
  ghost predicate FinitelyManyPostponements(s: State, turns: nat -> Turn, calm: nat) {
    forall k: nat | k >= calm && StateAt(s, turns, k).queue != [] :: !Postpones(StateAt(s, turns, k), turns(k))
  }

  lemma {:induction false} QueueRunsEmpty(s: State, turns: nat -> Turn, calm: nat, k: nat, left: Left,
          repoIds: set<int>)
    requires Good(s) && NotStuck(s)
    requires forall i: nat :: ValidTurn(turns(i), left, repoIds)
    requires FinitelyManyPostponements(s, turns, calm)
    ensures exists m: nat :: StateAt(s, turns, m).queue == []
    decreases if k < calm then calm - k else 0,
              RankOf(StateAt(s, turns, k).store, left, repoIds).undiscovered,
              RankOf(StateAt(s, turns, k).store, left, repoIds).discovery,
              RankOf(StateAt(s, turns, k).store, left, repoIds).work,
              Attempts(StateAt(s, turns, k).queue)
  {
    hide Good, NotStuck, ValidTurn, Step, Postpones, RankOf, Attempts, NothingDropped;
    var here := StateAt(s, turns, k);
    if here.queue != [] {
      RunsStayGood(s, turns, k, left, repoIds);
      StepCloser(here, turns(k), left, repoIds);
      assert StateAt(s, turns, k + 1) == Step(here, turns(k));
      QueueRunsEmpty(s, turns, calm, k + 1, left, repoIds);
    }
  }

  /** After `m` deliveries the queue is empty, and the sync has stopped unless its last message was dropped. */
  ghost predicate EndsAt(s: State, turns: nat -> Turn, m: nat) {
    var end := StateAt(s, turns, m);
    && end.queue == [] && end.store.sub.Some?
    && (Stopped(end.store.sub.value.syncStatus) <==> NothingDropped(s, turns, m))
  }

  // Main result: with finite sources and finitely many postponements every sync comes to an end, however its tasks
  // fail: the queue runs empty, and the subscription is then COMPLETE or FAILED if and only if no delivery dropped the
  // last message of the running sync.
  lemma EverySyncEnds(s: State, turns: nat -> Turn, calm: nat, left: Left, repoIds: set<int>)
    requires Good(s) && NotStuck(s)
    requires forall i: nat :: ValidTurn(turns(i), left, repoIds)
    requires FinitelyManyPostponements(s, turns, calm)
    ensures exists m: nat :: EndsAt(s, turns, m)
  {
    hide ValidTurn, ValidRows, Step, Postpones, NothingDropped;
    QueueRunsEmpty(s, turns, calm, 0, left, repoIds);
    var m: nat :| StateAt(s, turns, m).queue == [];
    RunsStayGood(s, turns, m, left, repoIds);
    assert EndsAt(s, turns, m);
  }

  // The states `findOrStartSync` leaves are such starting points.
  lemma StartedSyncEnds(store: Store, isFull: bool, targets: seq<TaskType>, since: Option<int>,
                        turns: nat -> Turn, calm: nat, left: Left, repoIds: set<int>)
    requires store.sub.Some? && ValidRows(store.rows)
    requires forall i: nat :: ValidTurn(turns(i), left, repoIds)
    requires var s := State(StartSync(store, isFull, targets), [Envelope(Payload(targets, since), 0)]);
             FinitelyManyPostponements(s, turns, calm)
    ensures var s := State(StartSync(store, isFull, targets), [Envelope(Payload(targets, since), 0)]);
            exists m: nat :: EndsAt(s, turns, m)
  {
    hide ValidTurn, Postpones, StateAt, EndsAt;
    ResetRowsValid(store.rows, isFull, targets);
    var s := State(StartSync(store, isFull, targets), [Envelope(Payload(targets, since), 0)]);
    EverySyncEnds(s, turns, calm, left, repoIds);
  }

  lemma ResetRowsValid(rows: seq<Row>, isFull: bool, targets: seq<TaskType>)
    requires ValidRows(rows)
    ensures ValidRows(ResetRows(rows, isFull, targets))
  {
    ResetRowsElements(rows, isFull, targets);
  }

  lemma {:induction false} ResetRowsElements(rows: seq<Row>, isFull: bool, targets: seq<TaskType>)
    ensures |ResetRows(rows, isFull, targets)| == |rows|
    ensures forall i | 0 <= i < |rows| :: ResetRows(rows, isFull, targets)[i] == ResetRow(rows[i], isFull, targets)
  {
    if rows != [] {
      ResetRowsElements(rows[1..], isFull, targets);
      forall i | 1 <= i < |rows|
        ensures ResetRows(rows, isFull, targets)[i] == ResetRow(rows[i], isFull, targets)
      {
        assert ResetRows(rows, isFull, targets)[i] == ResetRows(rows[1..], isFull, targets)[i - 1];
      }
    }
  }

  // ---- The hypothesis on sources is met -----------------------------------------------------------------------------

  function CursorsOf(edges: seq<ParallelPageFetcher.Edge>): (cursors: seq<string>)
    ensures |cursors| == |edges| && forall i | 0 <= i < |edges| :: cursors[i] == edges[i].cursor
  {
    if edges == [] then [] else [edges[0].cursor] + CursorsOf(edges[1..])
  }

  // The build task is a finite source in the sense of `Finite`, with any page size up to 100 and any number of parallel
  // pages.
  lemma BuildTaskIsFinite(source: BuildTask.Source, job: Job, perPage: nat, flag: nat, fromDate: Option<int>,
                          left: Left, repoIds: set<int>)
    requires 1 <= perPage <= BuildTask.MAX_PAGE_SIZE
    requires job.task.task == Build && job.discovered == []
    requires var fetched := BuildTask.GetBuildTask(source, job.task.cursor, perPage, flag, fromDate);
             fetched.Success? && job.outcome == Fetched(CursorsOf(fetched.value.edges))
    requires forall text :: left(job.task.repositoryId, Build, text) == BuildTask.Left(source, text)
    ensures FiniteReply(job, left, repoIds)
  {
    hide BuildTask.Left;
    BuildTask.FetchMakesProgress(source, job.task.cursor, perPage, flag, fromDate);
    var edges := BuildTask.GetBuildTask(source, job.task.cursor, perPage, flag, fromDate).value.edges;
    if edges != [] {
      BuildCursorIsText(source, job.task.cursor, perPage, flag, fromDate);
    }
  }

  lemma BuildCursorIsText(source: BuildTask.Source, text: Option<string>, perPage: nat, flag: nat,
          fromDate: Option<int>)
    requires perPage >= 1
    requires var fetched := BuildTask.GetBuildTask(source, text, perPage, flag, fromDate);
             fetched.Success? && fetched.value.edges != []
    ensures var edges := BuildTask.GetBuildTask(source, text, perPage, flag, fromDate).value.edges;
            edges[|edges| - 1].cursor != ""
  {
    hide PageCounterCursor.Parse, PageCounterCursor.Print, BuildTask.GetBuildTask;
    BuildTask.FetchedFromValidCursor(source, text, perPage, flag, fromDate);
    BuildTask.TaskIsParallelFetch(source, text, perPage, flag, fromDate);
    BuildTask.BuildPagesAreSerial(source, fromDate);
    var c := PageCounterCursor.Scaled(PageCounterCursor.Parse(text).value, perPage);
    var n := ParallelPageFetcher.LastNonEmpty(BuildTask.Pages(flag), c, BuildTask.PageFactory(source, fromDate));
    ParallelPageFetcher.ParallelEdges(BuildTask.Pages(flag), c, BuildTask.PageFactory(source, fromDate));
    PrintIsNotEmpty(ParallelPageFetcher.Ahead(c, n));
  }

  lemma PrintIsNotEmpty(c: PageCounterCursor.Cursor)
    ensures PageCounterCursor.Print(c) != ""
  {
  }
}
