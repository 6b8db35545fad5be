/**
 * The backfill worker step by step (src/sync/installation.ts, src/sqs/backfill-error-handler.ts,
 * src/sync/sync-utils.ts): the rows it updates and the messages it sends, each method against its function on the
 * store.
 */
module BackfillWorker {
  import opened Wrappers
  import opened SyncTypes
  import opened Scheduler
  import opened BackfillStore
  import opened BackfillRuns
  import opened Deduplicator
  import FromDates

  lemma WithoutConcat<T>(s: seq<T>, i: nat, tail: seq<T>)
    requires i < |s|
    ensures Without(s + tail, i) == Without(s, i) + tail
  {
  }

  function MessageOf(result: Processed): Option<Payload> {
    if result.Done? then result.next else None
  }

  function ErrorOf(result: Processed): Option<(Task, Cause)> {
    if result.Done? then None else Some((result.task, result.cause))
  }

  // A delivery replaces the message by what is sent, and by itself where it is not deleted.
  lemma StepByVerdict(s: State, turn: Turn)
    requires s.queue != []
    ensures var i := turn.pick % |s.queue|;
            var h := HandleMessage(s.store, s.queue[i], turn);
            Step(s, turn) == State(h.store, Without(s.queue + Queued(h.next), i)
                                            + if h.deleted && !turn.deleteFails then [] else [Received(s.queue[i])])
  {
    hide HandleMessage, Queued, Received;
    var i := Picked(s, turn);
    WithoutConcat(s.queue, i, Queued(HandleMessage(s.store, s.queue[i], turn).next));
  }

  class Worker {
    var sub: Option<Subscription>
    var rows: seq<Row>
    var queue: seq<Envelope>

    function Value(): Store
      reads this
    {
      Store(sub, rows)
    }

    constructor (store: Store, queue: seq<Envelope>)
      ensures Value() == store && this.queue == queue
    {
      this.sub, this.rows, this.queue := store.sub, store.rows, queue;
    }

    method UpdateRepo(repoId: int, values: seq<Write>)
      requires sub.Some?
      modifies `sub, `rows
      ensures Value() == BackfillStore.UpdateRepo(old(Value()), repoId, values)
      ensures sub == Some(old(sub).value.(
                            repositoryStatus := Either(LastStatus(values, Repository), old(sub).value.repositoryStatus),
                            repositoryCursor := Either(LastCursor(values, Repository),
                                old(sub).value.repositoryCursor)))
      ensures |rows| == |old(rows)|
      ensures forall i | 0 <= i < |rows| && old(rows)[i].repoId != repoId :: rows[i] == old(rows)[i]
      ensures forall i, t | 0 <= i < |rows| && old(rows)[i].repoId == repoId && t != Repository ::
                && StatusOf(rows[i], t) == Either(LastStatus(values, t), StatusOf(old(rows)[i], t))
                && StoredCursor(rows[i], t) == Either(LastCursor(values, t), StoredCursor(old(rows)[i], t))
    {
      hide WriteRow, WriteSub, StatusOf, StoredCursor, LastStatus, LastCursor;
      WriteSubExact(sub.value, values);
      WriteRowsElements(rows, repoId, values);
      forall i, t | 0 <= i < |rows|
        ensures t != Repository ==>
                  && StatusOf(WriteRow(rows[i], values), t) == Either(LastStatus(values, t), StatusOf(rows[i], t))
                  && StoredCursor(WriteRow(rows[i], values), t)
                       == Either(LastCursor(values, t), StoredCursor(rows[i], t))
      {
        WriteRowExact(rows[i], values, t);
      }
      sub := Some(WriteSub(sub.value, values));
      rows := WriteRows(rows, repoId, values);
    }

    method UpdateTaskStatusAndContinue(payload: Payload, edges: seq<string>, task: Task) returns (next: Option<Payload>)
      modifies `sub, `rows
      ensures (Value(), next) == BackfillStore.UpdateTaskStatusAndContinue(old(Value()), payload, edges, task)
    {
      if sub.None? {
        return None;
      }
      var isComplete := edges == [];
      var updateRepoSyncFields := [SetStatus(task.task, if isComplete then Complete else Pending)];
      if isComplete {
        if TracksFromDate(task.task) && payload.commitsFromDate.Some? {
          var repoSync := FindByRepoId(rows, task.repositoryId);
          if repoSync.Some? {
            var newFromDate := payload.commitsFromDate.value;
            var existingFromDate := FromDates.FromOf(rows, task.repositoryId, task.task);
            if existingFromDate.None? || newFromDate < existingFromDate.value {
              updateRepoSyncFields := updateRepoSyncFields + [SetFrom(task.task, newFromDate)];
            }
          }
        }
      } else {
        updateRepoSyncFields := updateRepoSyncFields + [SetCursor(task.task, edges[|edges| - 1])];
      }
      assert updateRepoSyncFields == TaskWrites(rows, payload, edges, task);
      UpdateRepo(task.repositoryId, updateRepoSyncFields);
      next := Some(payload);
    }

    method MarkCurrentTaskAsFailedAndContinue(payload: Payload, task: Task, isPermissionError: bool, failedCode: string)
      returns (next: Option<Payload>)
      modifies `sub, `rows
      ensures (Value(), next) ==
              BackfillStore.MarkCurrentTaskAsFailedAndContinue(old(Value()), payload, task, isPermissionError,
                  failedCode)
    {
      if sub.None? {
        return None;
      }
      UpdateRepo(task.repositoryId, [SetStatus(task.task, Failed), SetFailedCode(failedCode)]);
      if isPermissionError {
        UpdateRepo(task.repositoryId, [SetFailedCode("PERMISSIONS_ERROR")]);
        sub := Some(sub.value.(syncWarning := Some(task.task)));
      }
      if task.task == Repository {
        sub := Some(sub.value.(syncStatus := FAILED));
        return None;
      }
      next := Some(payload);
    }

    /** One task executor, from the fetched page on; a thrown error leaves the task as it is. */
    method ExecuteTask(payload: Payload, job: Job) returns (next: Option<Payload>)
      modifies `sub, `rows
      ensures Value() == RunJob(old(Value()), payload, job)
      ensures next.Some? <==> job.outcome.Fetched? && old(sub).Some?
      ensures next.Some? ==> next.value == payload
    {
      next := None;
      if job.task.task == Repository && sub.Some? {
        rows := Discover(rows, job.discovered);
      }
      if job.outcome.Fetched? {
        next := UpdateTaskStatusAndContinue(payload, job.outcome.edges, job.task);
      }
    }

    method DoProcessInstallation(payload: Payload, world: World) returns (result: Processed)
      requires ValidWorld(world)
      modifies `sub, `rows
      ensures (Value(), result) == BackfillStore.DoProcessInstallation(old(Value()), payload, world)
    {
      hide RunJob, Schedule, AllowedTasks, EstimateNumberOfSubtasks, IsSchedule;
      if sub.None? {
        return Done(None);
      }
      var nextTasks := GetNextTasks(sub.value, rows, payload.targetTasks, world.securityFlag, world.quota,
          world.shuffle);
      assert nextTasks == NextTasksFor(sub.value, rows, payload, world);
      if nextTasks.mainTask.None? {
        sub := Some(MarkSyncAsCompleteAndStop(sub.value, payload));
        return Done(None);
      }
      sub := Some(sub.value.(syncStatus := ACTIVE));
      ghost var active := Value();
      var jobs := Respond(world, [nextTasks.mainTask.value] + nextTasks.otherTasks);
      var settled := world.settle(jobs);
      JobsKeepStatus(active, payload, settled);
      for i := 0 to |settled|
        invariant RunJobs(Value(), payload, settled[i..]) == RunJobs(active, payload, settled)
      {
        RunJobsFirst(Value(), payload, settled[i..]);
        assert settled[i..][1..] == settled[i + 1..];
        var _ := ExecuteTask(payload, settled[i]);
      }
      assert settled[|settled|..] == [];
      match jobs[0].outcome {
        case Fetched(_) => result := Done(Some(payload));
        case Threw(cause) => result := TaskError(nextTasks.mainTask.value, cause);
      }
    }

    method SendBackfillMessage(payload: Payload)
      modifies `queue
      ensures queue == old(queue) + [Envelope(payload, 0)]
    {
      queue := queue + [Envelope(payload, 0)];
    }

    /** The handler of one message. The follow-up message is kept back until the in-progress flag is released. */
    method ProcessInstallation(payload: Payload, turn: Turn) returns (error: Option<(Task, Cause)>)
      requires ValidWorld(turn.world)
      modifies this
      ensures if turn.Discards() then Value() == old(Value()) && queue == old(queue) && error.None?
              else if turn.dedup != E_OK then
                Value() == old(Value()) && queue == old(queue) + [Envelope(payload, 0)] && error.None?
              else
                var (store, result) := BackfillStore.DoProcessInstallation(old(Value()), payload, turn.world);
                Value() == store && queue == old(queue) + Queued(MessageOf(result)) && error == ErrorOf(result)
    {
      error := None;
      if turn.blocked {
        return;
      }
      var nextMessage: Option<Payload> := None;
      match turn.dedup {
        case E_OK =>
          var result := DoProcessInstallation(payload, turn.world);
          match result {
            case Done(next) => nextMessage := next;
            case TaskError(task, cause) => return Some((task, cause));
          }
          if nextMessage.Some? {
            SendBackfillMessage(nextMessage.value);
          }
        case E_NOT_SURE_TRY_AGAIN_LATER =>
          SendBackfillMessage(payload);
        case E_OTHER_WORKER_DOING_THIS_JOB =>
          if !turn.discardDuplicates {
            SendBackfillMessage(payload);
          }
      }
    }

    /** The error side; `deleted` tells the queue to drop the failed message. */
    method HandleTaskError(payload: Payload, task: Task, cause: Cause, lastAttempt: bool) returns (deleted: bool)
      modifies this
      ensures var handled := BackfillStore.HandleTaskError(old(Value()), payload, task, cause, lastAttempt);
              Value() == handled.store && queue == old(queue) + Queued(handled.next) && deleted == handled.deleted
    {
      var next: Option<Payload> := None;
      if cause.kind == InvalidPermissions {
        next := MarkCurrentTaskAsFailedAndContinue(payload, task, true, cause.failedCode);
      } else if cause.kind == RateLimiting {
        next := Some(payload);
      } else if cause.kind == NotFound {
        next := UpdateTaskStatusAndContinue(payload, [], task);
      } else if lastAttempt {
        next := MarkCurrentTaskAsFailedAndContinue(payload, task, false, cause.failedCode);
      } else {
        return false;
      }
      if next.Some? {
        SendBackfillMessage(next.value);
      }
      deleted := true;
    }

    /** A failing delete is only logged: the message stays, and was received once more. */
    method DeleteMessage(i: nat, fails: bool)
      requires i < |queue|
      modifies `queue
      ensures queue == Without(old(queue), i) + if fails then [Received(old(queue)[i])] else []
    {
      var message := queue[i];
      queue := Without(queue, i);
      if fails {
        queue := queue + [Received(message)];
      }
    }

    /** One delivery: the successor is always sent before the processed message goes. */
    method ExecuteMessage(turn: Turn)
      requires queue != [] && ValidWorld(turn.world)
      modifies this
      ensures State(Value(), queue) == Step(State(old(Value()), old(queue)), turn)
    {
      hide BackfillStore.DoProcessInstallation, BackfillStore.HandleTaskError, Without, ValidWorld, Received, Step;
      var i := turn.pick % |queue|;
      var message := queue[i];
      ghost var before := State(Value(), queue);
      ghost var handled := HandleMessage(before.store, message, turn);
      StepByVerdict(before, turn);
      if turn.rateLimitExceeded {
        SendBackfillMessage(message.payload);
        DeleteMessage(i, turn.deleteFails);
        return;
      }
      var error := ProcessInstallation(message.payload, turn);
      if error.None? {
        assert queue == before.queue + Queued(handled.next);
        DeleteMessage(i, turn.deleteFails);
        return;
      }
      var lastAttempt := message.receiveCount + 1 >= MAX_ATTEMPTS;
      var deleted := HandleTaskError(message.payload, error.value.0, error.value.1, lastAttempt);
      assert queue == before.queue + Queued(handled.next);
      if deleted {
        DeleteMessage(i, turn.deleteFails);
      } else {
        queue := Without(queue, i) + [Received(message)];
      }
    }

    method FindOrStartSync(isFull: bool, commitsFromDate: Option<int>, targetTasks: seq<TaskType>)
      requires sub.Some?
      modifies this
      ensures Value() == StartSync(old(Value()), isFull, targetTasks)
      ensures queue == old(queue) + [Envelope(Payload(targetTasks, commitsFromDate), 0)]
    {
      sub := Some(sub.value.(syncStatus := PENDING, syncWarning := None));
      if targetTasks != [] {
        rows := ResetRows(rows, isFull, targetTasks);
        if Repository in targetTasks {
          sub := Some(sub.value.(repositoryStatus := None));
          if isFull {
            sub := Some(sub.value.(repositoryCursor := None));
          }
        }
      }
      if isFull && targetTasks == [] {
        sub := Some(sub.value.(repositoryCursor := None, repositoryStatus := None));
        rows := [];
      }
      SendBackfillMessage(Payload(targetTasks, commitsFromDate));
    }
  }
}
