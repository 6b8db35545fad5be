/**
 * A retried message repeats its task (src/sync/scheduler.ts, src/sync/installation.ts): the error of the main task is
 * retried with the same task and cursor, whatever the side tasks of the failed attempt have recorded meanwhile.
 */
module BackfillRetries {
  import opened Wrappers
  import opened SyncTypes
  import opened Scheduler
  import opened BackfillStore
  import opened BackfillRuns
  import opened BackfillTermination
  import opened Deduplicator

  // ---- Side tasks make nothing pending ------------------------------------------------------------------------------

  /** The same rows, and no task is pending that was not before. */
  ghost predicate NothingWoken(before: seq<Row>, after: seq<Row>) {
    && |after| == |before|
    && (forall i | 0 <= i < |before| :: after[i].id == before[i].id && after[i].repoId == before[i].repoId)
    && (forall i, t | 0 <= i < |before| && IsPending(after[i], t) :: IsPending(before[i], t))
  }

  lemma WriteWakesNothing(rows: seq<Row>, task: Task, values: seq<Write>)
    requires Fresh(rows, task) && OwnColumns(values, task)
    ensures NothingWoken(rows, WriteRows(rows, task.repositoryId, values))
  {
    hide WriteRow, IsPending, CursorOf;
    var after := WriteRows(rows, task.repositoryId, values);
    WriteRowsElements(rows, task.repositoryId, values);
    forall i | 0 <= i < |rows|
      ensures after[i].id == rows[i].id && after[i].repoId == rows[i].repoId
      ensures forall t | IsPending(after[i], t) :: IsPending(rows[i], t)
    {
      assert rows[i] in rows;
      WriteRowIdentity(rows[i], values);
      forall t | IsPending(after[i], t)
        ensures IsPending(rows[i], t)
      {
        if rows[i].repoId == task.repositoryId && t != task.task {
          WriteRowFrame(rows[i], values, t);
        }
      }
    }
  }

  lemma JobWakesNothing(store: Store, payload: Payload, job: Job)
    requires store.sub.Some? && Fresh(store.rows, job.task)
    ensures var after := RunJob(store, payload, job);
            after.sub == store.sub && NothingWoken(store.rows, after.rows)
  {
    hide TaskWrites, Fresh, WriteRows, NothingWoken;
    FreshIsNotDiscovery(store.rows, job.task);
    RunJobOnRows(store, payload, job);
    if job.outcome.Fetched? {
      TaskWritesOwnColumns(store.rows, payload, job.outcome.edges, job.task);
      WriteWakesNothing(store.rows, job.task, TaskWrites(store.rows, payload, job.outcome.edges, job.task));
    } else {
      SameRowsWakeNothing(store.rows);
    }
  }

  lemma SameRowsWakeNothing(rows: seq<Row>)
    ensures NothingWoken(rows, rows)
  {
  }

  lemma {:induction false} JobsWakeNothing(store: Store, payload: Payload, jobs: seq<Job>)
    requires store.sub.Some? && JobsApart(jobs) && AllFresh(store.rows, jobs)
    ensures var after := RunJobs(store, payload, jobs);
            after.sub == store.sub && NothingWoken(store.rows, after.rows)
    decreases |jobs|
  {
    hide RunJob, Fresh, IsPending;
    if jobs != [] {
      var next := RunJob(store, payload, jobs[0]);
      JobWakesNothing(store, payload, jobs[0]);
      forall i | 0 <= i < |jobs[1..]|
        ensures Fresh(next.rows, jobs[1..][i].task)
      {
        assert jobs[1..][i] == jobs[i + 1];
        assert Apart(jobs[0].task, jobs[i + 1].task);
        FreshAfterJob(store, payload, jobs[0], jobs[i + 1].task);
      }
      ApartWithout(jobs, 0);
      assert Without(jobs, 0) == jobs[1..];
      JobsWakeNothing(next, payload, jobs[1..]);
    }
  }

  // ---- The main task stays the first pending one --------------------------------------------------------------------

  lemma FirstPendingIsMain(sub: Subscription, rows: seq<Row>, tasks: seq<TaskType>, i: int, k: int)
    requires sub.repositoryStatus == Some(Complete) && IsFirstPending(rows, tasks, i, k)
    ensures MainTask(sub, rows, tasks) == Some(TaskOf(rows[i], tasks[k]))
  {
    hide HasPending, TaskOf;
    MainTaskIsFirst(sub, rows, tasks);
    assert HasPending(tasks, rows[i]) by {
      PendingHas(tasks, rows[i], tasks[k]);
    }
    assert rows[i] in rows;
    var j, l :| IsFirstPending(rows, tasks, j, l) && MainTask(sub, rows, tasks).value == TaskOf(rows[j], tasks[l]);
    PendingHas(tasks, rows[j], tasks[l]);
    assert i == j && k == l;
  }

  lemma PendingHas(tasks: seq<TaskType>, row: Row, t: TaskType)
    requires t in tasks && IsPending(row, t)
    ensures HasPending(tasks, row)
  {
  }

  lemma FirstPendingStays(before: seq<Row>, after: seq<Row>, tasks: seq<TaskType>, i: int, k: int)
    requires IsFirstPending(before, tasks, i, k) && NothingWoken(before, after)
    requires Fresh(after, TaskOf(before[i], tasks[k]))
    ensures IsFirstPending(after, tasks, i, k) && TaskOf(after[i], tasks[k]) == TaskOf(before[i], tasks[k])
  {
    hide CursorOf;
    assert after[i] in after;
    forall j | 0 <= j < i
      ensures !HasPending(tasks, after[j])
    {
      hide IsPending;
      if t :| t in tasks && IsPending(after[j], t) {
        PendingHas(tasks, before[j], t);
      }
    }
  }

  lemma MainTaskStays(sub: Subscription, before: seq<Row>, after: seq<Row>, tasks: seq<TaskType>)
    requires sub.repositoryStatus == Some(Complete) && MainTask(sub, before, tasks).Some?
    requires NothingWoken(before, after) && Fresh(after, MainTask(sub, before, tasks).value)
    ensures MainTask(sub, after, tasks) == MainTask(sub, before, tasks)
  {
    hide MainTask, NothingWoken, Fresh, TaskOf;
    MainTaskIsFirst(sub, before, tasks);
    var i, k :| IsFirstPending(before, tasks, i, k)
        && MainTask(sub, before, tasks).value == TaskOf(before[i], tasks[k]);
    FirstPendingStays(before, after, tasks, i, k);
    FirstPendingIsMain(sub, after, tasks, i, k);
  }

  // ---- A failed attempt ---------------------------------------------------------------------------------------------

  lemma RowJobsKeepMainTask(active: Store, payload: Payload, jobs: seq<Job>, settled: seq<Job>, tasks: seq<TaskType>)
    requires active.sub.Some? && active.sub.value.repositoryStatus == Some(Complete)
    requires jobs != [] && multiset(settled) == multiset(jobs) && JobsApart(jobs) && AllFresh(active.rows, jobs)
    requires MainTask(active.sub.value, active.rows, tasks) == Some(jobs[0].task) && jobs[0].outcome.Threw?
    ensures var after := RunJobs(active, payload, settled);
            after.sub == active.sub && MainTask(after.sub.value, after.rows, tasks) == Some(jobs[0].task)
  {
    hide RunJob, RunJobs, Fresh, NothingWoken, MainTask;
    SettlingOrderIrrelevant(active, payload, jobs, settled);
    JobsWakeNothing(active, payload, jobs);
    RunJobsFirst(active, payload, jobs);
    ThrownRowJob(active, payload, jobs[0]);
    forall i | 0 <= i < |jobs[1..]|
      ensures jobs[1..][i].task.task != Repository && Apart(jobs[1..][i].task, jobs[0].task)
    {
      assert jobs[1..][i] == jobs[i + 1];
    }
    FreshAfterJobs(active, payload, jobs[1..], jobs[0].task);
    MainTaskStays(active.sub.value, active.rows, RunJobs(active, payload, jobs).rows, tasks);
  }

  lemma DiscoveryJobKeepsSub(active: Store, payload: Payload, jobs: seq<Job>, settled: seq<Job>)
    requires active.sub.Some? && |jobs| == 1 && multiset(settled) == multiset(jobs) && jobs[0].outcome.Threw?
    ensures RunJobs(active, payload, settled).sub == active.sub
  {
    hide RunJob;
    assert |settled| == |multiset(settled)| == |multiset(jobs)| == 1;
    assert settled[0] in multiset(jobs);
    assert settled == jobs && jobs[1..] == [];
    RunJobsFirst(active, payload, jobs);
    ThrownJobKeepsSub(active, payload, jobs[0]);
  }

  lemma ThrownJobKeepsSub(store: Store, payload: Payload, job: Job)
    requires job.outcome.Threw?
    ensures RunJob(store, payload, job).sub == store.sub
  {
  }

  // Main result, one attempt: when the main task fails, it is the main task of the state that is left, with its cursor.
  lemma FailedAttemptKeepsMainTask(store: Store, payload: Payload, world: World)
    requires store.sub.Some? && ValidRows(store.rows) && ValidWorld(world)
    requires DoProcessInstallation(store, payload, world).1.TaskError?
    ensures var (after, result) := DoProcessInstallation(store, payload, world);
            && after.sub.Some?
            && MainTask(after.sub.value, after.rows,
                 AllowedTasks(after.sub.value, world.securityFlag, payload.targetTasks))
               == Some(result.task)
  {
    hide NextTasksFor, RunJobs, ValidRows, AllFresh, JobsApart, Respond, AllPending, GetTargetTasks;
    var sub := store.sub.value;
    var next := NextTasksFor(sub, store.rows, payload, world);
    var active := store.(sub := Some(sub.(syncStatus := ACTIVE)));
    var jobs := Respond(world, [next.mainTask.value] + next.otherTasks);
    var settled := world.settle(jobs);
    var tasks := AllowedTasks(sub, world.securityFlag, payload.targetTasks);
    ScheduledJobsApart(store, payload, world);
    NextIsMain(sub, store.rows, payload, world);
    if sub.repositoryStatus == Some(Complete) {
      RowJobsKeepMainTask(active, payload, jobs, settled, tasks);
    } else {
      DiscoveryJobKeepsSub(active, payload, jobs, settled);
    }
  }

  lemma NextIsMain(sub: Subscription, rows: seq<Row>, payload: Payload, world: World)
    ensures NextTasksFor(sub, rows, payload, world).mainTask
            == MainTask(sub, rows, AllowedTasks(sub, world.securityFlag, payload.targetTasks))
  {
    hide AllowedTasks, MainTask;
  }

  // Only an error that is not handled leaves the message for a retry, and then nothing more is written.
  lemma RetriedVerdict(store: Store, message: Envelope, turn: Turn)
    requires store.sub.Some? && !HandleMessage(store, message, turn).deleted
    ensures !turn.rateLimitExceeded && !turn.Discards() && turn.dedup == E_OK
    ensures var (processed, result) := DoProcessInstallation(store, message.payload, turn.world);
            result.TaskError? && HandleMessage(store, message, turn) == Handled(processed, None, false)
  {
    hide DoProcessInstallation, MarkCurrentTaskAsFailedAndContinue, UpdateTaskStatusAndContinue;
    var (processed, result) := DoProcessInstallation(store, message.payload, turn.world);
    assert result.TaskError?;
    assert result.cause.kind == OtherError;
  }

  // Main result: a message that is left for a retry meets its task again: the next attempt has the same main task with
  // the same cursor, whatever the rate limit allows then, whichever side tasks are drawn, and whatever the side tasks
  // of the failed attempt have recorded.
  lemma RetryRepeatsTask(store: Store, message: Envelope, turn: Turn, later: World)
    requires store.sub.Some? && ValidRows(store.rows) && ValidWorld(turn.world)
    requires !HandleMessage(store, message, turn).deleted
    requires later.securityFlag == turn.world.securityFlag
    ensures var (processed, result) := DoProcessInstallation(store, message.payload, turn.world);
            var (after, successors) := ProcessMessage(store, message, turn);
            && result.TaskError? && after.sub.Some? && successors == [Received(message)]
            && NextTasksFor(after.sub.value, after.rows, message.payload, later).mainTask == Some(result.task)
  {
    hide DoProcessInstallation, NextTasksFor, MainTask, AllowedTasks, HandleMessage;
    RetriedVerdict(store, message, turn);
    var (processed, result) := DoProcessInstallation(store, message.payload, turn.world);
    FailedAttemptKeepsMainTask(store, message.payload, turn.world);
    NextIsMain(processed.sub.value, processed.rows, message.payload, later);
  }
}
