/**
 * What one backfill message does to the stored state (src/sync/installation.ts, src/sqs/backfill-error-handler.ts,
 * src/sync/sync-utils.ts), as functions on the store.
 */
module BackfillStore {
  import opened Wrappers
  import opened SyncTypes
  import opened Scheduler

  /** The subscription record, absent once the organisation is removed, and its rows, newest id first. */
  datatype Store = Store(sub: Option<Subscription>, rows: seq<Row>)

  // ---- Column writes -----------------------------------------------------------------------------------------------

  datatype Write =
    | SetStatus(task: TaskType, status: TaskStatus)
    | SetCursor(task: TaskType, cursor: string)
    | SetFrom(task: TaskType, date: int)
    | SetFailedCode(code: string)

  /** `pick(values, ["repositoryStatus", "repositoryCursor"])` goes to the subscription ... */
  function WriteSub(sub: Subscription, values: seq<Write>): Subscription
    decreases |values|
  {
    if values == [] then sub
    else
      match values[0] {
        case SetStatus(Repository, s) => WriteSub(sub.(repositoryStatus := Some(s)), values[1..])
        case SetCursor(Repository, c) => WriteSub(sub.(repositoryCursor := Some(c)), values[1..])
        case _ => WriteSub(sub, values[1..])
      }
  }

  function WriteColumn(row: Row, w: Write): Row {
    match w {
      case SetStatus(t, s) => if t == Repository then row else row.(status := row.status[t := s])
      case SetCursor(t, c) => if t == Repository then row else row.(cursor := row.cursor[t := c])
      case SetFrom(t, d) => row.(from := row.from[t := d])
      case SetFailedCode(code) => row.(failedCode := Some(code))
    }
  }

  /** ... and `omit(values, ...)` to the row of the repository. */
  function WriteRow(row: Row, values: seq<Write>): Row
    decreases |values|
  {
    if values == [] then row else WriteRow(WriteColumn(row, values[0]), values[1..])
  }

  function WriteRows(rows: seq<Row>, repoId: int, values: seq<Write>): seq<Row> {
    if rows == [] then []
    else
      [if rows[0].repoId == repoId then WriteRow(rows[0], values) else rows[0]] + WriteRows(rows[1..], repoId, values)
  }

  function UpdateRepo(store: Store, repoId: int, values: seq<Write>): Store
    requires store.sub.Some?
  {
    Store(Some(WriteSub(store.sub.value, values)), WriteRows(store.rows, repoId, values))
  }

  function FindByRepoId(rows: seq<Row>, repoId: int): Option<Row> {
    if rows == [] then None
    else if rows[0].repoId == repoId then Some(rows[0])
    else FindByRepoId(rows[1..], repoId)
  }

  // ---- Finishing a task --------------------------------------------------------------------------------------------

  predicate TracksFromDate(t: TaskType) {
    t != Branch && t != Repository
  }

  /** The new from-date column, when this completion reaches further back than any before. */
  function FromDateWrites(rows: seq<Row>, payload: Payload, task: Task): seq<Write> {
    if !TracksFromDate(task.task) || payload.commitsFromDate.None? then []
    else
      var repoSync := FindByRepoId(rows, task.repositoryId);
      var newFromDate := payload.commitsFromDate.value;
      if repoSync.None? then []
      else if task.task !in repoSync.value.from || newFromDate < repoSync.value.from[task.task] then
        [SetFrom(task.task, newFromDate)]
      else []
  }

  function TaskWrites(rows: seq<Row>, payload: Payload, edges: seq<string>, task: Task): seq<Write> {
    if edges == [] then [SetStatus(task.task, Complete)] + FromDateWrites(rows, payload, task)
    else [SetStatus(task.task, Pending), SetCursor(task.task, edges[|edges| - 1])]
  }

  /** `edges` are the cursors of the fetched edges; the message to send next, if any, comes with the new store. */
  function UpdateTaskStatusAndContinue(store: Store, payload: Payload, edges: seq<string>, task: Task)
    : (Store, Option<Payload>)
  {
    if store.sub.None? then (store, None)
    else (UpdateRepo(store, task.repositoryId, TaskWrites(store.rows, payload, edges, task)), Some(payload))
  }

  function MarkCurrentTaskAsFailedAndContinue(store: Store, payload: Payload, task: Task, isPermissionError: bool,
                                              failedCode: string): (Store, Option<Payload>)
  {
    if store.sub.None? then (store, None)
    else
      var failed := UpdateRepo(store, task.repositoryId, [SetStatus(task.task, Failed), SetFailedCode(failedCode)]);
      var warned :=
        if !isPermissionError then failed
        else
          var coded := UpdateRepo(failed, task.repositoryId, [SetFailedCode("PERMISSIONS_ERROR")]);
          coded.(sub := Some(coded.sub.value.(syncWarning := Some(task.task))));
      if task.task == Repository then (warned.(sub := Some(warned.sub.value.(syncStatus := FAILED))), None)
      else (warned, Some(payload))
  }

  // ---- Running the tasks of one message ----------------------------------------------------------------------------

  datatype ErrorKind = InvalidPermissions | RateLimiting | NotFound | OtherError

  /** An error of a task: its class, and the code `getFailedCode` derives from it. */
  datatype Cause = Cause(kind: ErrorKind, failedCode: string)

  datatype Outcome = Fetched(edges: seq<string>) | Threw(cause: Cause)

  /** How a task ended; a discovery task also inserts rows, before anything that may still fail. */
  datatype Job = Job(task: Task, discovered: seq<int>, outcome: Outcome)

  function NextId(rows: seq<Row>): int {
    if rows == [] then 1 else rows[0].id + 1
  }

  /** `bulkCreate` with `updateOnDuplicate`: a known repository keeps its row as it is. */
  function Discover(rows: seq<Row>, repoIds: seq<int>): seq<Row>
    decreases |repoIds|
  {
    if repoIds == [] then rows
    else if FindByRepoId(rows, repoIds[0]).Some? then Discover(rows, repoIds[1..])
    else Discover([Row(NextId(rows), repoIds[0], map[], map[], map[], None)] + rows, repoIds[1..])
  }

  function RunJob(store: Store, payload: Payload, job: Job): Store {
    var discovered :=
      if job.task.task == Repository && store.sub.Some? then store.(rows := Discover(store.rows, job.discovered))
          else store;
    match job.outcome {
      case Threw(_) => discovered
      case Fetched(edges) => UpdateTaskStatusAndContinue(discovered, payload, edges, job.task).0
    }
  }

  /** The jobs in the order in which they happen to settle. */
  function RunJobs(store: Store, payload: Payload, jobs: seq<Job>): Store
    decreases |jobs|
  {
    if jobs == [] then store else RunJobs(RunJob(store, payload, jobs[0]), payload, jobs[1..])
  }

  /** Everything outside the sync that a message meets. */
  datatype World = World(securityFlag: bool, quota: Option<Quota>, shuffle: Shuffle,
                         respond: Task -> Job, settle: seq<Job> -> seq<Job>)

  ghost predicate ValidWorld(world: World) {
    && Permutes(world.shuffle)
    && (forall task: Task :: world.respond(task).task == task)
    && (forall jobs: seq<Job> :: multiset(world.settle(jobs)) == multiset(jobs))
  }

  function Respond(world: World, tasks: seq<Task>): (jobs: seq<Job>)
    ensures |jobs| == |tasks| && forall i | 0 <= i < |tasks| :: jobs[i] == world.respond(tasks[i])
  {
    if tasks == [] then [] else [world.respond(tasks[0])] + Respond(world, tasks[1..])
  }

  function NextTasksFor(sub: Subscription, rows: seq<Row>, payload: Payload, world: World): NextTasks {
    Schedule(sub, rows, AllowedTasks(sub, world.securityFlag, payload.targetTasks),
             EstimateNumberOfSubtasks(world.quota), world.shuffle)
  }

  /** The end of `doProcessInstallation`: a message to send, nothing, or the main task's error. */
  datatype Processed = Done(next: Option<Payload>) | TaskError(task: Task, cause: Cause)

  function MarkSyncAsCompleteAndStop(sub: Subscription, payload: Payload): Subscription {
    sub.(syncStatus := COMPLETE, backfillSince := payload.commitsFromDate)
  }

  function DoProcessInstallation(store: Store, payload: Payload, world: World): (Store, Processed) {
    if store.sub.None? then (store, Done(None))
    else
      var next := NextTasksFor(store.sub.value, store.rows, payload, world);
      if next.mainTask.None? then
        (store.(sub := Some(MarkSyncAsCompleteAndStop(store.sub.value, payload))), Done(None))
      else
        var active := store.(sub := Some(store.sub.value.(syncStatus := ACTIVE)));
        var jobs := Respond(world, [next.mainTask.value] + next.otherTasks);
        var store' := RunJobs(active, payload, world.settle(jobs));
        match jobs[0].outcome {
          case Fetched(_) => (store', Done(Some(payload)))
          case Threw(cause) => (store', TaskError(next.mainTask.value, cause))
        }
  }

  // ---- The error side ----------------------------------------------------------------------------------------------

  /** `deleted` says whether the queue drops the failed message; otherwise it is retried. */
  datatype Handled = Handled(store: Store, next: Option<Payload>, deleted: bool)

  function HandleTaskError(store: Store, payload: Payload, task: Task, cause: Cause, lastAttempt: bool): Handled {
    match cause.kind {
      case InvalidPermissions =>
        var (s, next) := MarkCurrentTaskAsFailedAndContinue(store, payload, task, true, cause.failedCode);
        Handled(s, next, true)
      case RateLimiting =>
        Handled(store, Some(payload), true)
      case NotFound =>
        var (s, next) := UpdateTaskStatusAndContinue(store, payload, [], task);
        Handled(s, next, true)
      case OtherError =>
        if lastAttempt then
          var (s, next) := MarkCurrentTaskAsFailedAndContinue(store, payload, task, false, cause.failedCode);
          Handled(s, next, true)
        else Handled(store, None, false)
    }
  }

  // ---- Starting a sync ---------------------------------------------------------------------------------------------

  function ResetRow(row: Row, isFull: bool, targets: seq<TaskType>): Row {
    row.(status := map t | t in row.status && t !in targets :: row.status[t],
         cursor := if isFull then map t | t in row.cursor && t !in targets :: row.cursor[t] else row.cursor,
         failedCode := None)
  }

  function ResetRows(rows: seq<Row>, isFull: bool, targets: seq<TaskType>): seq<Row> {
    if rows == [] then [] else [ResetRow(rows[0], isFull, targets)] + ResetRows(rows[1..], isFull, targets)
  }

  /** The store a sync starts from; the message that starts it is sent afterwards. */
  function StartSync(store: Store, isFull: bool, targets: seq<TaskType>): Store
    requires store.sub.Some?
  {
    var sub := store.sub.value.(syncStatus := PENDING, syncWarning := None);
    if targets != [] then
      var reset :=
        if Repository !in targets then sub
        else sub.(repositoryStatus := None, repositoryCursor := if isFull then None else sub.repositoryCursor);
      Store(Some(reset), ResetRows(store.rows, isFull, targets))
    else if isFull then
      Store(Some(sub.(repositoryStatus := None, repositoryCursor := None)), [])
    else Store(Some(sub), store.rows)
  }

  // A targeted start makes exactly the targeted tasks pending again; a partial one resumes them where they stopped.
  lemma ResetRowIsExact(row: Row, isFull: bool, targets: seq<TaskType>, t: TaskType)
    ensures var r := ResetRow(row, isFull, targets);
            && (if t in targets then IsPending(r, t) else IsPending(r, t) == IsPending(row, t))
            && CursorOf(r, t) == (if isFull && t in targets then None else CursorOf(row, t))
            && r.id == row.id && r.repoId == row.repoId && r.from == row.from
  {
  }

  // ---- Effects of the writes ---------------------------------------------------------------------------------------

  predicate WritesTask(w: Write, t: TaskType) {
    !w.SetFailedCode? && w.task == t
  }

  // Columns of other tasks, and the identity of the row, are left alone.
  lemma WriteColumnFrame(row: Row, w: Write, t: TaskType)
    requires !WritesTask(w, t)
    ensures var r := WriteColumn(row, w);
            && r.id == row.id && r.repoId == row.repoId
            && IsPending(r, t) == IsPending(row, t) && CursorOf(r, t) == CursorOf(row, t)
            && (t in r.from <==> t in row.from) && (t in row.from ==> r.from[t] == row.from[t])
  {
  }

  lemma {:induction false} WriteRowFrame(row: Row, values: seq<Write>, t: TaskType)
    requires forall w :: w in values ==> !WritesTask(w, t)
    ensures var r := WriteRow(row, values);
            && r.id == row.id && r.repoId == row.repoId
            && IsPending(r, t) == IsPending(row, t) && CursorOf(r, t) == CursorOf(row, t)
            && StatusOf(r, t) == StatusOf(row, t) && StoredCursor(r, t) == StoredCursor(row, t)
            && (t in r.from <==> t in row.from) && (t in row.from ==> r.from[t] == row.from[t])
    decreases |values|
  {
    hide WriteColumn, IsPending, CursorOf, StatusOf, StoredCursor;
    if values != [] {
      assert values[0] in values;
      WriteColumnFrame(row, values[0], t);
      WriteColumnExact(row, values[0], t);
      WriteRowFrame(WriteColumn(row, values[0]), values[1..], t);
    }
  }

  lemma {:induction false} WriteRowIdentity(row: Row, values: seq<Write>)
    ensures WriteRow(row, values).id == row.id && WriteRow(row, values).repoId == row.repoId
    decreases |values|
  {
    if values != [] {
      WriteRowIdentity(WriteColumn(row, values[0]), values[1..]);
    }
  }

  lemma {:induction false} WriteRowsAt(rows: seq<Row>, repoId: int, values: seq<Write>)
    ensures |WriteRows(rows, repoId, values)| == |rows|
    ensures forall i | 0 <= i < |rows| ::
              WriteRows(rows, repoId, values)[i] == if rows[i].repoId == repoId then WriteRow(rows[i], values)
                  else rows[i]
    ensures ValidRows(rows) ==> ValidRows(WriteRows(rows, repoId, values))
  {
    WriteRowsElements(rows, repoId, values);
    forall i | 0 <= i < |rows|
      ensures WriteRows(rows, repoId, values)[i].id == rows[i].id
      ensures WriteRows(rows, repoId, values)[i].repoId == rows[i].repoId
    {
      WriteRowIdentity(rows[i], values);
    }
  }

  lemma {:induction false} WriteRowsElements(rows: seq<Row>, repoId: int, values: seq<Write>)
    ensures |WriteRows(rows, repoId, values)| == |rows|
    ensures forall i | 0 <= i < |rows| ::
              WriteRows(rows, repoId, values)[i] == if rows[i].repoId == repoId then WriteRow(rows[i], values)
                  else rows[i]
  {
    if rows != [] {
      WriteRowsElements(rows[1..], repoId, values);
      forall i | 1 <= i < |rows|
        ensures WriteRows(rows, repoId, values)[i] == WriteRows(rows[1..], repoId, values)[i - 1]
      {
      }
    }
  }

  lemma {:induction false} FindByRepoIdIff(rows: seq<Row>, repoId: int)
    ensures FindByRepoId(rows, repoId).Some? <==> exists i :: 0 <= i < |rows| && rows[i].repoId == repoId
    ensures FindByRepoId(rows, repoId).Some? ==>
              FindByRepoId(rows, repoId).value in rows && FindByRepoId(rows, repoId).value.repoId == repoId
  {
    if rows != [] {
      FindByRepoIdIff(rows[1..], repoId);
      if FindByRepoId(rows, repoId).Some? {
        if rows[0].repoId != repoId {
          var i :| 0 <= i < |rows[1..]| && rows[1..][i].repoId == repoId;
          assert rows[i + 1] == rows[1..][i];
        }
      } else {
        forall i | 0 <= i < |rows|
          ensures rows[i].repoId != repoId
        {
          assert i == 0 || rows[i] == rows[1..][i - 1];
        }
      }
    }
  }

  lemma {:induction false} DiscoverKeepsRowsValid(rows: seq<Row>, repoIds: seq<int>)
    requires ValidRows(rows)
    ensures ValidRows(Discover(rows, repoIds))
    decreases |repoIds|
  {
    if repoIds != [] {
      FindByRepoIdIff(rows, repoIds[0]);
      if FindByRepoId(rows, repoIds[0]).Some? {
        DiscoverKeepsRowsValid(rows, repoIds[1..]);
      } else {
        var grown := [Row(NextId(rows), repoIds[0], map[], map[], map[], None)] + rows;
        forall i, j | 0 <= i < j < |grown|
          ensures grown[i].id > grown[j].id && grown[i].repoId != grown[j].repoId
        {
          assert grown[j] == rows[j - 1];
          assert i == 0 || grown[i] == rows[i - 1];
        }
        DiscoverKeepsRowsValid(grown, repoIds[1..]);
      }
    }
  }

  // ---- Side tasks never interfere ----------------------------------------------------------------------------------

  // Writes to columns of different tasks commute.
  lemma ColumnsCommute(row: Row, a: Write, b: Write)
    requires !a.SetFailedCode? && !b.SetFailedCode? && a.task != b.task
    ensures WriteColumn(WriteColumn(row, a), b) == WriteColumn(WriteColumn(row, b), a)
  {
    match (a, b) {
      case (SetStatus(t, x), SetStatus(u, y)) => assert row.status[t := x][u := y] == row.status[u := y][t := x];
      case (SetCursor(t, x), SetCursor(u, y)) => assert row.cursor[t := x][u := y] == row.cursor[u := y][t := x];
      case (SetFrom(t, x), SetFrom(u, y)) => assert row.from[t := x][u := y] == row.from[u := y][t := x];
      case _ =>
    }
  }

  lemma {:induction false} ColumnCommutesWithAll(row: Row, a: Write, bs: seq<Write>)
    requires !a.SetFailedCode? && forall b :: b in bs ==> !b.SetFailedCode? && b.task != a.task
    ensures WriteRow(WriteColumn(row, a), bs) == WriteColumn(WriteRow(row, bs), a)
    decreases |bs|
  {
    if bs != [] {
      assert bs[0] in bs;
      ColumnsCommute(row, a, bs[0]);
      ColumnCommutesWithAll(WriteColumn(row, bs[0]), a, bs[1..]);
    }
  }

  lemma {:induction false} RowWritesCommute(row: Row, as_: seq<Write>, bs: seq<Write>)
    requires forall a, b :: a in as_ && b in bs ==> !a.SetFailedCode? && !b.SetFailedCode? && a.task != b.task
    ensures WriteRow(WriteRow(row, as_), bs) == WriteRow(WriteRow(row, bs), as_)
    decreases |as_|
  {
    if as_ != [] {
      assert as_[0] in as_;
      if bs != [] {
        assert bs[0] in bs;
        ColumnCommutesWithAll(row, as_[0], bs);
      }
      RowWritesCommute(WriteColumn(row, as_[0]), as_[1..], bs);
    }
  }

  lemma TaskWritesOwnColumns(rows: seq<Row>, payload: Payload, edges: seq<string>, task: Task)
    ensures forall w :: w in TaskWrites(rows, payload, edges, task) ==> !w.SetFailedCode? && w.task == task.task
  {
  }

  lemma {:induction false} SubUntouched(sub: Subscription, values: seq<Write>)
    requires forall w :: w in values ==> !w.SetFailedCode? && w.task != Repository
    ensures WriteSub(sub, values) == sub
    decreases |values|
  {
    if values != [] {
      assert values[0] in values;
      SubUntouched(sub, values[1..]);
    }
  }

  /** The status the writes leave for a task, where they set one. */
  function LastStatus(values: seq<Write>, t: TaskType): Option<TaskStatus> {
    if values == [] then None
    else
      var later := LastStatus(values[1..], t);
      if later.Some? then later
      else if values[0].SetStatus? && values[0].task == t then Some(values[0].status) else None
  }

  function LastCursor(values: seq<Write>, t: TaskType): Option<string> {
    if values == [] then None
    else
      var later := LastCursor(values[1..], t);
      if later.Some? then later
      else if values[0].SetCursor? && values[0].task == t then Some(values[0].cursor) else None
  }

  function Either<T>(first: Option<T>, second: Option<T>): Option<T> {
    if first.Some? then first else second
  }

  // Of the subscription the writes reach the two discovery columns and nothing else.
  lemma {:induction false} WriteSubExact(sub: Subscription, values: seq<Write>)
    ensures WriteSub(sub, values) ==
            sub.(repositoryStatus := Either(LastStatus(values, Repository), sub.repositoryStatus),
                 repositoryCursor := Either(LastCursor(values, Repository), sub.repositoryCursor))
    decreases |values|
  {
    if values != [] {
      match values[0] {
        case SetStatus(Repository, s) => WriteSubExact(sub.(repositoryStatus := Some(s)), values[1..]);
        case SetCursor(Repository, c) => WriteSubExact(sub.(repositoryCursor := Some(c)), values[1..]);
        case _ => WriteSubExact(sub, values[1..]);
      }
    }
  }

  function StatusOf(row: Row, t: TaskType): Option<TaskStatus> {
    if t in row.status then Some(row.status[t]) else None
  }

  function StoredCursor(row: Row, t: TaskType): Option<string> {
    if t in row.cursor then Some(row.cursor[t]) else None
  }

  lemma WriteColumnExact(row: Row, w: Write, t: TaskType)
    ensures var after := WriteColumn(row, w);
            && StatusOf(after, t) ==
               (if t != Repository && w.SetStatus? && w.task == t then Some(w.status) else StatusOf(row, t))
            && StoredCursor(after, t) ==
               (if t != Repository && w.SetCursor? && w.task == t then Some(w.cursor) else StoredCursor(row, t))
  {
  }

  // Of a row they reach the columns of all other tasks.
  lemma {:induction false} WriteRowExact(row: Row, values: seq<Write>, t: TaskType)
    ensures var after := WriteRow(row, values);
            if t == Repository then StatusOf(after, t) == StatusOf(row, t)
                && StoredCursor(after, t) == StoredCursor(row, t)
            else && StatusOf(after, t) == Either(LastStatus(values, t), StatusOf(row, t))
                 && StoredCursor(after, t) == Either(LastCursor(values, t), StoredCursor(row, t))
    decreases |values|
  {
    hide WriteColumn, StatusOf, StoredCursor;
    if values != [] {
      WriteColumnExact(row, values[0], t);
      WriteRowExact(WriteColumn(row, values[0]), values[1..], t);
    }
  }

  lemma {:induction false} FindAfterWrite(rows: seq<Row>, repoId: int, values: seq<Write>, other: int)
    ensures FindByRepoId(WriteRows(rows, repoId, values), other)
            == (var found := FindByRepoId(rows, other);
                if found.Some? && repoId == other then Some(WriteRow(found.value, values)) else found)
  {
    if rows != [] {
      WriteRowIdentity(rows[0], values);
      FindAfterWrite(rows[1..], repoId, values, other);
      assert WriteRows(rows, repoId, values)[1..] == WriteRows(rows[1..], repoId, values);
    }
  }

  // What a task writes depends on its own columns only.
  lemma TaskWritesStable(rows: seq<Row>, payload: Payload, edges: seq<string>, task: Task, repoId: int,
          values: seq<Write>)
    requires task.repositoryId != repoId || forall w :: w in values ==> !WritesTask(w, task.task)
    ensures TaskWrites(WriteRows(rows, repoId, values), payload, edges, task) == TaskWrites(rows, payload, edges, task)
  {
    FindAfterWrite(rows, repoId, values, task.repositoryId);
    var found := FindByRepoId(rows, task.repositoryId);
    if found.Some? && task.repositoryId == repoId {
      WriteRowFrame(found.value, values, task.task);
    }
  }

  lemma {:induction false} WriteRowsCommute(rows: seq<Row>, r1: int, v1: seq<Write>, r2: int, v2: seq<Write>)
    requires || r1 != r2
             || forall a, b :: a in v1 && b in v2 ==> !a.SetFailedCode? && !b.SetFailedCode? && a.task != b.task
    ensures WriteRows(WriteRows(rows, r1, v1), r2, v2) == WriteRows(WriteRows(rows, r2, v2), r1, v1)
  {
    if rows != [] {
      WriteRowIdentity(rows[0], v1);
      WriteRowIdentity(rows[0], v2);
      if r1 == r2 {
        RowWritesCommute(rows[0], v1, v2);
      }
      WriteRowsCommute(rows[1..], r1, v1, r2, v2);
      assert WriteRows(rows, r1, v1)[1..] == WriteRows(rows[1..], r1, v1);
      assert WriteRows(rows, r2, v2)[1..] == WriteRows(rows[1..], r2, v2);
    }
  }

  lemma RunJobOnRows(store: Store, payload: Payload, job: Job)
    requires job.task.task != Repository && store.sub.Some?
    ensures RunJob(store, payload, job) ==
            match job.outcome {
              case Threw(_) => store
              case Fetched(edges) =>
                store.(rows := WriteRows(store.rows, job.task.repositoryId,
                    TaskWrites(store.rows, payload, edges, job.task)))
            }
  {
    if job.outcome.Fetched? {
      var values := TaskWrites(store.rows, payload, job.outcome.edges, job.task);
      TaskWritesOwnColumns(store.rows, payload, job.outcome.edges, job.task);
      SubUntouched(store.sub.value, values);
    }
  }

  lemma JobsCommute(store: Store, payload: Payload, x: Job, y: Job)
    requires x.task.task != Repository && y.task.task != Repository && Apart(x.task, y.task)
    ensures RunJob(RunJob(store, payload, x), payload, y) == RunJob(RunJob(store, payload, y), payload, x)
  {
    hide TaskWrites, WriteRows, RunJob, WriteRow;
    if store.sub.Some? {
      RunJobOnRows(store, payload, x);
      RunJobOnRows(store, payload, y);
      RunJobOnRows(RunJob(store, payload, x), payload, y);
      RunJobOnRows(RunJob(store, payload, y), payload, x);
      if x.outcome.Fetched? && y.outcome.Fetched? {
        var vx := TaskWrites(store.rows, payload, x.outcome.edges, x.task);
        var vy := TaskWrites(store.rows, payload, y.outcome.edges, y.task);
        TaskWritesOwnColumns(store.rows, payload, x.outcome.edges, x.task);
        TaskWritesOwnColumns(store.rows, payload, y.outcome.edges, y.task);
        TaskWritesStable(store.rows, payload, y.outcome.edges, y.task, x.task.repositoryId, vx);
        TaskWritesStable(store.rows, payload, x.outcome.edges, x.task, y.task.repositoryId, vy);
        WriteRowsCommute(store.rows, x.task.repositoryId, vx, y.task.repositoryId, vy);
      }
    } else {
      NoSubNoEffect(store, payload, x);
      NoSubNoEffect(store, payload, y);
    }
  }

  lemma NoSubNoEffect(store: Store, payload: Payload, job: Job)
    requires store.sub.None?
    ensures RunJob(store, payload, job) == store
  {
  }

  ghost predicate JobsApart(jobs: seq<Job>) {
    && (forall i | 0 <= i < |jobs| :: jobs[i].task.task != Repository)
    && (forall i, j | 0 <= i < |jobs| && 0 <= j < |jobs| && i != j :: Apart(jobs[i].task, jobs[j].task))
  }

  function Without<T>(s: seq<T>, i: nat): seq<T>
    requires i < |s|
  {
    s[..i] + s[i + 1..]
  }

  // Any job may be settled first.
  lemma {:induction false} SettleFirst(store: Store, payload: Payload, jobs: seq<Job>, i: nat)
    requires i < |jobs| && JobsApart(jobs)
    ensures RunJobs(store, payload, jobs) == RunJobs(RunJob(store, payload, jobs[i]), payload, Without(jobs, i))
    decreases i
  {
    hide RunJob;
    if i == 0 {
      assert Without(jobs, 0) == jobs[1..];
    } else {
      var x, y := jobs[0], jobs[i];
      SettleFirst(RunJob(store, payload, x), payload, jobs[1..], i - 1);
      assert jobs[1..][i - 1] == y;
      JobsCommute(store, payload, x, y);
      assert Without(jobs, i)[0] == x;
      assert Without(jobs, i)[1..] == Without(jobs[1..], i - 1);
    }
  }

  // Main result: the tasks of one message may settle in any order; the store ends up the same.
  lemma {:induction false} SettlingOrderIrrelevant(store: Store, payload: Payload, jobs: seq<Job>, settled: seq<Job>)
    requires JobsApart(jobs) && multiset(settled) == multiset(jobs)
    ensures RunJobs(store, payload, settled) == RunJobs(store, payload, jobs)
    decreases |jobs|
  {
    hide RunJob, RunJobs, JobsApart;
    assert |settled| == |multiset(settled)| == |jobs|;
    if jobs != [] {
      var x := settled[0];
      var i := WithoutOne(jobs, settled);
      ApartWithout(jobs, i);
      SettleFirst(store, payload, jobs, i);
      SettlingOrderIrrelevant(RunJob(store, payload, x), payload, Without(jobs, i), settled[1..]);
      RunJobsFirst(store, payload, settled);
      RunJobsFirst(store, payload, [x] + Without(jobs, i));
    } else {
      assert jobs == settled;
    }
  }

  lemma RunJobsFirst(store: Store, payload: Payload, jobs: seq<Job>)
    requires jobs != []
    ensures RunJobs(store, payload, jobs) == RunJobs(RunJob(store, payload, jobs[0]), payload, jobs[1..])
  {
  }

  lemma ApartWithout(jobs: seq<Job>, i: nat)
    requires i < |jobs| && JobsApart(jobs)
    ensures JobsApart(Without(jobs, i))
  {
    var rest := Without(jobs, i);
    forall j | 0 <= j < |rest|
      ensures rest[j].task.task != Repository
    {
      assert rest[j] == jobs[if j < i then j else j + 1];
    }
    forall j, k | 0 <= j < |rest| && 0 <= k < |rest| && j != k
      ensures Apart(rest[j].task, rest[k].task)
    {
      assert rest[j] == jobs[if j < i then j else j + 1];
      assert rest[k] == jobs[if k < i then k else k + 1];
    }
  }

  lemma WithoutOne(jobs: seq<Job>, settled: seq<Job>) returns (i: nat)
    requires settled != [] && multiset(settled) == multiset(jobs)
    ensures i < |jobs| && jobs[i] == settled[0]
    ensures multiset(settled[1..]) == multiset(Without(jobs, i))
  {
    var x := settled[0];
    assert settled == [x] + settled[1..];
    assert x in multiset(jobs);
    i :| 0 <= i < |jobs| && jobs[i] == x;
    assert jobs == jobs[..i] + [x] + jobs[i + 1..];
    calc {
      multiset(settled[1..]);
      multiset(settled) - multiset{x};
      multiset(jobs) - multiset{x};
      multiset(jobs[..i]) + multiset(jobs[i + 1..]);
      multiset(Without(jobs, i));
    }
  }
}
