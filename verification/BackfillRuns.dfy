/**
 * Whole backfills: the queue of messages and the store, message after message (src/sync/installation.ts,
 * src/sqs/backfill-error-handler.ts, src/sqs/queues.ts, src/sqs/sqs.ts).
 */
module BackfillRuns {
  import opened Wrappers
  import opened SyncTypes
  import opened Scheduler
  import opened BackfillStore
  import opened Deduplicator

  /** The retry limit of the backfill queue. */
  const MAX_ATTEMPTS := 3

  /** A queued message and how often it was received so far. */
  datatype Envelope = Envelope(payload: Payload, receiveCount: nat)

  datatype State = State(store: Store, queue: seq<Envelope>)

  /** One delivery: which message comes next and what it meets. A failing delete is swallowed: the message stays. */
  datatype Turn = Turn(pick: nat, rateLimitExceeded: bool, blocked: bool, dedup: DeduplicatorResult,
                       discardDuplicates: bool, deleteFails: bool, world: World)
  {
    /** The handler returns and sends nothing: the installation is blocked, or the flag discards a duplicate. */
    predicate Discards() {
      blocked || (dedup == E_OTHER_WORKER_DOING_THIS_JOB && discardDuplicates)
    }

    /** The message is deleted and nothing takes its place. */
    predicate Drops() {
      !rateLimitExceeded && Discards() && !deleteFails
    }
  }

  /** The new store, the message to send, and whether the processed one is to be deleted; otherwise it is retried. */
  function HandleMessage(store: Store, message: Envelope, turn: Turn): Handled {
    var payload := message.payload;
    if turn.rateLimitExceeded then Handled(store, Some(payload), true)
    else if turn.Discards() then Handled(store, None, true)
    else if turn.dedup != E_OK then Handled(store, Some(payload), true)
    else
      var (processed, result) := DoProcessInstallation(store, payload, turn.world);
      match result {
        case Done(next) => Handled(processed, next, true)
        case TaskError(task, cause) =>
          HandleTaskError(processed, payload, task, cause, message.receiveCount + 1 >= MAX_ATTEMPTS)
      }
  }

  function Received(message: Envelope): Envelope {
    message.(receiveCount := message.receiveCount + 1)
  }

  /** The new store, and the messages that stand in the queue in place of the processed one. */
  function ProcessMessage(store: Store, message: Envelope, turn: Turn): (Store, seq<Envelope>) {
    var handled := HandleMessage(store, message, turn);
    (handled.store, Queued(handled.next) + if handled.deleted && !turn.deleteFails then [] else [Received(message)])
  }

  function Queued(next: Option<Payload>): seq<Envelope> {
    if next.Some? then [Envelope(next.value, 0)] else []
  }

  function Picked(s: State, turn: Turn): nat
    requires s.queue != []
  {
    turn.pick % |s.queue|
  }

  function Step(s: State, turn: Turn): State
    requires s.queue != []
  {
    var i := Picked(s, turn);
    var (store, successors) := ProcessMessage(s.store, s.queue[i], turn);
    State(store, Without(s.queue, i) + successors)
  }

  /** The state after `k` deliveries; nothing happens once the queue is empty. */
  function StateAt(s: State, turns: nat -> Turn, k: nat): State {
    if k == 0 then s
    else
      var before := StateAt(s, turns, k - 1);
      if before.queue == [] then before else Step(before, turns(k - 1))
  }

  // ---- What the tasks leave of the subscription ---------------------------------------------------------------------

  predicate Stopped(status: SyncStatus) {
    status == COMPLETE || status == FAILED
  }

  lemma UpdateKeepsStatus(store: Store, repoId: int, values: seq<Write>)
    requires store.sub.Some?
    ensures UpdateRepo(store, repoId, values).sub.Some?
    ensures UpdateRepo(store, repoId, values).sub.value.syncStatus == store.sub.value.syncStatus
  {
    WriteSubExact(store.sub.value, values);
  }

  lemma {:induction false} JobsKeepStatus(store: Store, payload: Payload, jobs: seq<Job>)
    requires store.sub.Some?
    ensures var after := RunJobs(store, payload, jobs);
            after.sub.Some? && after.sub.value.syncStatus == store.sub.value.syncStatus
    decreases |jobs|
  {
    hide UpdateRepo, TaskWrites, Discover;
    if jobs != [] {
      var job := jobs[0];
      var grown := if job.task.task == Repository then store.(rows := Discover(store.rows, job.discovered)) else store;
      if job.outcome.Fetched? {
        UpdateKeepsStatus(grown, job.task.repositoryId, TaskWrites(grown.rows, payload, job.outcome.edges, job.task));
      }
      JobsKeepStatus(RunJob(store, payload, job), payload, jobs[1..]);
    }
  }

  lemma ProcessedStatus(store: Store, payload: Payload, world: World)
    requires store.sub.Some?
    ensures var (after, result) := DoProcessInstallation(store, payload, world);
            var mainTask := NextTasksFor(store.sub.value, store.rows, payload, world).mainTask;
            && after.sub.Some?
            && (mainTask.None? ==> after.sub.value.syncStatus == COMPLETE && result == Done(None))
            && (mainTask.Some? ==> after.sub.value.syncStatus == ACTIVE && result != Done(None))
            && (result.TaskError? ==> mainTask == Some(result.task))
  {
    hide NextTasksFor, RunJobs;
    var next := NextTasksFor(store.sub.value, store.rows, payload, world);
    if next.mainTask.Some? {
      var active := store.(sub := Some(store.sub.value.(syncStatus := ACTIVE)));
      var jobs := Respond(world, [next.mainTask.value] + next.otherTasks);
      JobsKeepStatus(active, payload, world.settle(jobs));
    }
  }

  lemma HandledStatus(store: Store, payload: Payload, task: Task, cause: Cause, lastAttempt: bool)
    requires store.sub.Some?
    ensures var h := HandleTaskError(store, payload, task, cause, lastAttempt);
            var fails := cause.kind == InvalidPermissions || (cause.kind == OtherError && lastAttempt);
            && h.store.sub.Some?
            && h.store.sub.value.syncStatus == (if fails && task.task == Repository then FAILED
                                                else store.sub.value.syncStatus)
            && (h.next.None? && h.deleted <==> fails && task.task == Repository)
            && (!h.deleted ==> h.next.None?)
  {
    hide UpdateRepo, TaskWrites;
    UpdateKeepsStatus(store, task.repositoryId, [SetStatus(task.task, Failed), SetFailedCode(cause.failedCode)]);
    UpdateKeepsStatus(UpdateRepo(store, task.repositoryId,
        [SetStatus(task.task, Failed), SetFailedCode(cause.failedCode)]),
                      task.repositoryId, [SetFailedCode("PERMISSIONS_ERROR")]);
    UpdateKeepsStatus(store, task.repositoryId, TaskWrites(store.rows, payload, [], task));
  }

  // ---- No sync gets stuck -------------------------------------------------------------------------------------------

  // With a retry nothing is sent, and without one nothing is sent only if the message is discarded or the sync stops.
  lemma VerdictStatus(store: Store, message: Envelope, turn: Turn)
    requires store.sub.Some?
    ensures var h := HandleMessage(store, message, turn);
            && h.store.sub.Some? && (!h.deleted ==> h.next.None?)
            && (turn.rateLimitExceeded ==> h == Handled(store, Some(message.payload), true))
            && (!turn.rateLimitExceeded && turn.Discards() ==> h == Handled(store, None, true))
            && (h.next.None? && h.deleted && !turn.Discards() ==> Stopped(h.store.sub.value.syncStatus))
            && ((h.next.Some? || !h.deleted) && !turn.rateLimitExceeded && turn.dedup == E_OK ==>
                  h.store.sub.value.syncStatus == ACTIVE)
  {
    hide DoProcessInstallation, HandleTaskError;
    if !turn.rateLimitExceeded && turn.dedup == E_OK {
      ProcessedStatus(store, message.payload, turn.world);
      var (processed, result) := DoProcessInstallation(store, message.payload, turn.world);
      if result.TaskError? {
        HandledStatus(processed, message.payload, result.task, result.cause, message.receiveCount + 1 >= MAX_ATTEMPTS);
      }
    }
  }

  // Main result, one message: a message is replaced by at most one message, itself not counted when its delete fails,
  // and by none only if it is dropped or the sync stops; a discarded message changes nothing.
  lemma SuccessorUnlessStopped(store: Store, message: Envelope, turn: Turn)
    requires store.sub.Some?
    ensures var (after, successors) := ProcessMessage(store, message, turn);
            && after.sub.Some? && |successors| <= 1 + (if turn.deleteFails then 1 else 0)
            && (!turn.rateLimitExceeded && turn.Discards() ==>
                  after == store && successors == if turn.deleteFails then [Received(message)] else [])
            && (turn.deleteFails ==> Received(message) in successors)
            && (successors == [] && !turn.Drops() ==> Stopped(after.sub.value.syncStatus))
            && (successors != [] && !turn.deleteFails && !turn.rateLimitExceeded && turn.dedup == E_OK ==>
                  after.sub.value.syncStatus == ACTIVE)
  {
    hide HandleMessage;
    VerdictStatus(store, message, turn);
  }

  /** An existing subscription whose sync has not stopped has a message queued. */
  ghost predicate NotStuck(s: State) {
    s.store.sub.Some? && !Stopped(s.store.sub.value.syncStatus) ==> s.queue != []
  }

  /** Everything that can happen to a subscription. */
  datatype Event = Delivered(turn: Turn) | Started(isFull: bool, targets: seq<TaskType>, since: Option<int>) | Removed

  function Next(s: State, event: Event): State {
    match event {
      case Delivered(turn) => if s.queue == [] then s else Step(s, turn)
      case Started(isFull, targets, since) =>
        if s.store.sub.None? then s
        else State(StartSync(s.store, isFull, targets), s.queue + [Envelope(Payload(targets, since), 0)])
      case Removed => s.(store := s.store.(sub := None))
    }
  }

  function After(s: State, events: seq<Event>): State
    decreases |events|
  {
    if events == [] then s else Next(After(s, events[..|events| - 1]), events[|events| - 1])
  }

  lemma StepKeepsSub(s: State, turn: Turn)
    requires s.queue != []
    ensures Step(s, turn).store.sub.Some? <==> s.store.sub.Some?
  {
    hide HandleMessage;
    var message := s.queue[Picked(s, turn)];
    if s.store.sub.Some? {
      VerdictStatus(s.store, message, turn);
    } else {
      RemovedVerdict(s.store, message, turn);
    }
  }

  lemma RemovedDoesNothing(store: Store, payload: Payload, world: World)
    requires store.sub.None?
    ensures DoProcessInstallation(store, payload, world) == (store, Done(None))
  {
  }

  /** The delivery drops the last message of a sync that has not stopped. */
  predicate DropsLast(s: State, turn: Turn) {
    s.store.sub.Some? && !Stopped(s.store.sub.value.syncStatus) && |s.queue| == 1 && turn.Drops()
  }

  // Main result, one delivery: it leaves a sync without a message if and only if it drops the last one. Dropping is
  // what the code does for a blocked installation, and for a duplicate while the flag that discards duplicates is on.
  // The queue grows only when a delete fails, and then by one message at most.
  lemma StepStuckIff(s: State, turn: Turn)
    requires s.queue != [] && NotStuck(s)
    ensures !NotStuck(Step(s, turn)) <==> DropsLast(s, turn)
    ensures |Step(s, turn).queue| <= |s.queue| + if turn.deleteFails then 1 else 0
  {
    hide ProcessMessage;
    StepKeepsSub(s, turn);
    var message := s.queue[Picked(s, turn)];
    if s.store.sub.Some? {
      SuccessorUnlessStopped(s.store, message, turn);
    } else {
      RemovedYieldsAtMostOne(s.store, message, turn);
    }
  }

  lemma RemovedYieldsAtMostOne(store: Store, message: Envelope, turn: Turn)
    requires store.sub.None?
    ensures |ProcessMessage(store, message, turn).1| <= 1 + if turn.deleteFails then 1 else 0
  {
    hide HandleMessage;
    RemovedVerdict(store, message, turn);
  }

  lemma RemovedVerdict(store: Store, message: Envelope, turn: Turn)
    requires store.sub.None?
    ensures var h := HandleMessage(store, message, turn);
            h.store == store && h.deleted
  {
    hide DoProcessInstallation;
    RemovedDoesNothing(store, message.payload, turn.world);
  }

  predicate DropsLastAt(s: State, event: Event) {
    event.Delivered? && s.queue != [] && DropsLast(s, event.turn)
  }

  lemma NextStuckIff(s: State, event: Event)
    requires NotStuck(s)
    ensures !NotStuck(Next(s, event)) <==> DropsLastAt(s, event)
  {
    hide Step, StartSync, DropsLast;
    if event.Delivered? && s.queue != [] {
      StepStuckIff(s, event.turn);
    }
  }

  ghost predicate NeverDropsLast(s: State, events: seq<Event>) {
    forall k | 0 <= k < |events| :: !DropsLastAt(After(s, events[..k]), events[k])
  }

  ghost predicate AlwaysHasMessage(s: State, events: seq<Event>) {
    forall k | 0 <= k <= |events| :: NotStuck(After(s, events[..k]))
  }

  // Main result, all histories: over starts, removals and deliveries in any order, a sync that has not stopped always
  // has a message queued, if and only if no delivery drops the last message of a sync that has not stopped. The
  // processed message counts as queued until its successor is.
  lemma {:induction false} NeverStuck(s: State, events: seq<Event>)
    requires NotStuck(s)
    ensures AlwaysHasMessage(s, events) <==> NeverDropsLast(s, events)
    decreases |events|
  {
    hide Next, NotStuck, DropsLastAt, After;
    if events == [] {
      assert After(s, events[..0]) == s by {
        NothingHappened(s);
      }
    } else {
      var front, last := events[..|events| - 1], events[|events| - 1];
      NeverStuck(s, front);
      assert forall k | 0 <= k <= |front| :: front[..k] == events[..k];
      assert events[..|events|] == events && events[..|front|] == front;
      LastEvent(s, events);
      if NotStuck(After(s, front)) {
        NextStuckIff(After(s, front), last);
      }
      if AlwaysHasMessage(s, events) {
        assert NotStuck(After(s, events[..|front|])) && NotStuck(After(s, events[..|events|]));
      }
      if NeverDropsLast(s, events) {
        assert !DropsLastAt(After(s, events[..|front|]), events[|front|]);
        assert NotStuck(After(s, front[..|front|]));
      }
    }
  }

  lemma NothingHappened(s: State)
    ensures After(s, []) == s
  {
  }

  lemma LastEvent(s: State, events: seq<Event>)
    requires events != []
    ensures After(s, events) == Next(After(s, events[..|events| - 1]), events[|events| - 1])
  {
  }

  // ---- COMPLETE is earned -------------------------------------------------------------------------------------------

  /** Discovery is over and every allowed task of every row is complete or failed. */
  ghost predicate NothingLeft(sub: Subscription, rows: seq<Row>, tasks: seq<TaskType>) {
    && sub.repositoryStatus == Some(Complete)
    && forall row, t :: row in rows && t in tasks ==> t in row.status && row.status[t] in {Complete, Failed}
  }

  lemma CompletedStore(store: Store, payload: Payload, world: World)
    requires store.sub.Some? && NextTasksFor(store.sub.value, store.rows, payload, world).mainTask.None?
    ensures var (after, result) := DoProcessInstallation(store, payload, world);
            && result == Done(None) && after.rows == store.rows
            && after.sub.Some? && after.sub.value.backfillSince == payload.commitsFromDate
  {
    hide NextTasksFor;
  }

  // Main result: a processed message marks the sync COMPLETE if and only if nothing is left in the state it read,
  // whatever the rate limit says and whatever the tasks answer.
  lemma CompleteIsEarned(store: Store, payload: Payload, world: World)
    requires store.sub.Some?
    ensures DoProcessInstallation(store, payload, world).0.sub.Some?
    ensures DoProcessInstallation(store, payload, world).0.sub.value.syncStatus == COMPLETE <==>
            NothingLeft(store.sub.value, store.rows,
                AllowedTasks(store.sub.value, world.securityFlag, payload.targetTasks))
    ensures var (after, result) := DoProcessInstallation(store, payload, world);
            after.sub.value.syncStatus == COMPLETE ==>
              result == Done(None) && after.rows == store.rows
                  && after.sub.value.backfillSince == payload.commitsFromDate
  {
    hide DoProcessInstallation, AllowedTasks, NothingLeft, MainTask;
    var tasks := AllowedTasks(store.sub.value, world.securityFlag, payload.targetTasks);
    ProcessedStatus(store, payload, world);
    NoMainTaskIff(store.sub.value, store.rows, tasks);
    if MainTask(store.sub.value, store.rows, tasks).None? {
      CompletedStore(store, payload, world);
    }
  }

  lemma NoMainTaskIff(sub: Subscription, rows: seq<Row>, tasks: seq<TaskType>)
    ensures MainTask(sub, rows, tasks).None? <==> NothingLeft(sub, rows, tasks)
  {
    if sub.repositoryStatus == Some(Complete) {
      MainTaskIsFirst(sub, rows, tasks);
      hide MainTask, HasPending;
      if MainTask(sub, rows, tasks).Some? {
        var i, k :| IsFirstPending(rows, tasks, i, k);
        assert rows[i] in rows && tasks[k] in tasks;
      } else {
        forall row, t | row in rows && t in tasks
          ensures t in row.status && row.status[t] in {Complete, Failed}
        {
          NothingPending(tasks, row, t);
        }
      }
    }
  }

  lemma NothingPending(tasks: seq<TaskType>, row: Row, t: TaskType)
    requires !HasPending(tasks, row) && t in tasks
    ensures t in row.status && row.status[t] in {Complete, Failed}
  {
    assert !IsPending(row, t);
  }
}
