/**
 * The choice of the next tasks (src/sync/scheduler.ts, `getTargetTasks` of src/sync/installation.ts): one deterministic
 * main task and a random handful of side tasks.
 */
module Scheduler {
  import opened Wrappers
  import opened SyncTypes

  const RATE_LIMIT_QUOTA_PER_TASK_RESERVE := 500
  const SUBTASKS_POOL_COEF := 10
  const MAX_SUBTASKS := 100

  /** What the rate-limit endpoint answers; None when the call fails. */
  datatype Quota = Quota(coreRemaining: int, graphqlRemaining: int)

  datatype NextTasks = NextTasks(mainTask: Option<Task>, otherTasks: seq<Task>)

  // ---- Which tasks a message may run -------------------------------------------------------------------------------

  function Keep(tasks: seq<TaskType>, wanted: seq<TaskType>): (kept: seq<TaskType>)
    ensures forall t :: t in kept <==> t in tasks && t in wanted
  {
    if tasks == [] then []
    else (if tasks[0] in wanted then [tasks[0]] else []) + Keep(tasks[1..], wanted)
  }

  function GetTargetTasks(targetTasks: seq<TaskType>): seq<TaskType> {
    if targetTasks != [] then Keep(ALL_TASKS, targetTasks) else ALL_TASKS
  }

  function WithoutSecurity(tasks: seq<TaskType>): (kept: seq<TaskType>)
    ensures forall t :: t in kept <==>
              t in tasks && t != DependabotAlert && t != SecretScanningAlert && t != CodeScanningAlert
  {
    if tasks == [] then []
    else
      var t := tasks[0];
      (if t == DependabotAlert || t == SecretScanningAlert || t == CodeScanningAlert then [] else [t])
      + WithoutSecurity(tasks[1..])
  }

  function AllowedTasks(sub: Subscription, securityFlag: bool, targetTasks: seq<TaskType>): seq<TaskType> {
    var tasks := GetTargetTasks(targetTasks);
    if !securityFlag || !sub.isSecurityPermissionsAccepted then WithoutSecurity(tasks) else tasks
  }

  ghost predicate NoDuplicates<T>(s: seq<T>) {
    forall i, j | 0 <= i < j < |s| :: s[i] != s[j]
  }

  lemma FirstIsNew(tasks: seq<TaskType>)
    requires tasks != [] && NoDuplicates(tasks)
    ensures tasks[0] !in tasks[1..]
  {
  }

  lemma {:induction false} KeepNoDuplicates(tasks: seq<TaskType>, wanted: seq<TaskType>)
    requires NoDuplicates(tasks)
    ensures NoDuplicates(Keep(tasks, wanted))
  {
    if tasks != [] {
      KeepNoDuplicates(tasks[1..], wanted);
      FirstIsNew(tasks);
    }
  }

  lemma {:induction false} WithoutSecurityNoDuplicates(tasks: seq<TaskType>)
    requires NoDuplicates(tasks)
    ensures NoDuplicates(WithoutSecurity(tasks))
  {
    if tasks != [] {
      WithoutSecurityNoDuplicates(tasks[1..]);
      FirstIsNew(tasks);
    }
  }

  lemma AllowedTasksDistinct(sub: Subscription, securityFlag: bool, targetTasks: seq<TaskType>)
    ensures NoDuplicates(AllowedTasks(sub, securityFlag, targetTasks))
    ensures forall t :: t in AllowedTasks(sub, securityFlag, targetTasks) ==> t != Repository
  {
    assert NoDuplicates(ALL_TASKS);
    if targetTasks != [] {
      KeepNoDuplicates(ALL_TASKS, targetTasks);
    }
    WithoutSecurityNoDuplicates(GetTargetTasks(targetTasks));
    AllTasksListed(Repository);
  }

  // Security alerts are synced only with the flag and the accepted permissions; everything else only if it is targeted,
  // or nothing is.
  lemma AllowedTasksExact(sub: Subscription, securityFlag: bool, targetTasks: seq<TaskType>, t: TaskType)
    ensures t in AllowedTasks(sub, securityFlag, targetTasks) <==>
              && t != Repository
              && (targetTasks == [] || t in targetTasks)
              && (t in {DependabotAlert, SecretScanningAlert, CodeScanningAlert} ==>
                    securityFlag && sub.isSecurityPermissionsAccepted)
  {
    AllTasksListed(t);
  }

  // ---- Rate limit --------------------------------------------------------------------------------------------------

  // The side tasks and the main task together never need more than the quota that is left.
  function EstimateNumberOfSubtasks(quota: Option<Quota>): (n: nat)
    ensures n <= MAX_SUBTASKS
    ensures n > 0 ==> quota.Some?
                      && (n + 1) * RATE_LIMIT_QUOTA_PER_TASK_RESERVE <= quota.value.coreRemaining
                      && (n + 1) * RATE_LIMIT_QUOTA_PER_TASK_RESERVE <= quota.value.graphqlRemaining
  {
    if quota.None? then 0
    else
      var Quota(core, graphql) := quota.value;
      var availQuota := if core < graphql then core else graphql;
      var reserved := availQuota - RATE_LIMIT_QUOTA_PER_TASK_RESERVE;
      var availQuotaForSubtasks := if reserved > 0 then reserved else 0;
      var allowedSubtasks := availQuotaForSubtasks / RATE_LIMIT_QUOTA_PER_TASK_RESERVE;
      if allowedSubtasks < MAX_SUBTASKS then allowedSubtasks else MAX_SUBTASKS
  }

  // Below the cap the quota is used up: one more side task would not fit.
  lemma QuotaIsUsed(quota: Quota)
    requires EstimateNumberOfSubtasks(Some(quota)) < MAX_SUBTASKS
    ensures var n := EstimateNumberOfSubtasks(Some(quota));
            || quota.coreRemaining < (n + 2) * RATE_LIMIT_QUOTA_PER_TASK_RESERVE
            || quota.graphqlRemaining < (n + 2) * RATE_LIMIT_QUOTA_PER_TASK_RESERVE
  {
  }

  // ---- Pending tasks of the rows -----------------------------------------------------------------------------------

  function TaskOf(row: Row, t: TaskType): Task {
    Task(t, row.repoId, CursorOf(row, t))
  }

  /** The tasks of one row that still have work, in the order of `tasks`. */
  function PendingTasks(tasks: seq<TaskType>, row: Row): seq<Task> {
    if tasks == [] then []
    else
      PendingTasks(tasks[..|tasks| - 1], row)
      + if IsPending(row, tasks[|tasks| - 1]) then [TaskOf(row, tasks[|tasks| - 1])] else []
  }

  method MapSyncStateToTasks(tasks: seq<TaskType>, syncState: Row) returns (mappedTasks: seq<Task>)
    ensures mappedTasks == PendingTasks(tasks, syncState)
  {
    mappedTasks := [];
    for i := 0 to |tasks|
      invariant mappedTasks == PendingTasks(tasks[..i], syncState)
    {
      assert tasks[..i + 1][..i] == tasks[..i];
      if IsPending(syncState, tasks[i]) {
        mappedTasks := mappedTasks + [TaskOf(syncState, tasks[i])];
      }
    }
    assert tasks[..|tasks|] == tasks;
  }

  /** The WHERE condition: some task of the list is pending in the row. */
  predicate HasPending(tasks: seq<TaskType>, row: Row) {
    exists t :: t in tasks && IsPending(row, t)
  }

  lemma {:induction false} PendingTasksExact(tasks: seq<TaskType>, row: Row)
    ensures forall x :: x in PendingTasks(tasks, row) <==>
              x == TaskOf(row, x.task) && x.task in tasks && IsPending(row, x.task)
    ensures PendingTasks(tasks, row) != [] <==> HasPending(tasks, row)
  {
    if tasks != [] {
      var front, last := tasks[..|tasks| - 1], tasks[|tasks| - 1];
      PendingTasksExact(front, row);
      assert forall t :: t in tasks <==> t in front || t == last;
    }
    if PendingTasks(tasks, row) != [] {
      assert PendingTasks(tasks, row)[0] in PendingTasks(tasks, row);
    }
    if HasPending(tasks, row) {
      var t :| t in tasks && IsPending(row, t);
      assert TaskOf(row, t) in PendingTasks(tasks, row);
    }
  }

  function PendingRows(rows: seq<Row>, tasks: seq<TaskType>): (pending: seq<Row>)
    ensures forall row :: row in pending <==> row in rows && HasPending(tasks, row)
  {
    if rows == [] then []
    else (if HasPending(tasks, rows[0]) then [rows[0]] else []) + PendingRows(rows[1..], tasks)
  }

  function Take<T>(s: seq<T>, limit: nat): seq<T> {
    if |s| <= limit then s else s[..limit]
  }

  function FetchPendingRepoSyncStates(rows: seq<Row>, tasks: seq<TaskType>, limit: nat): seq<Row> {
    Take(PendingRows(rows, tasks), limit)
  }

  /** All pending tasks of the rows, newest row first. */
  function AllPending(rows: seq<Row>, tasks: seq<TaskType>): seq<Task> {
    if rows == [] then [] else PendingTasks(tasks, rows[0]) + AllPending(rows[1..], tasks)
  }

  lemma {:induction false} AllPendingExact(rows: seq<Row>, tasks: seq<TaskType>, x: Task)
    ensures x in AllPending(rows, tasks) <==>
            exists row :: row in rows && x == TaskOf(row, x.task) && x.task in tasks && IsPending(row, x.task)
  {
    if rows != [] {
      PendingTasksExact(tasks, rows[0]);
      AllPendingExact(rows[1..], tasks, x);
      assert forall row :: row in rows <==> row == rows[0] || row in rows[1..];
    }
  }

  lemma {:induction false} PendingTasksDistinct(tasks: seq<TaskType>, row: Row)
    requires NoDuplicates(tasks)
    ensures forall i, j | 0 <= i < j < |PendingTasks(tasks, row)| ::
              PendingTasks(tasks, row)[i].task != PendingTasks(tasks, row)[j].task
  {
    if tasks != [] {
      var front, last := tasks[..|tasks| - 1], tasks[|tasks| - 1];
      PendingTasksDistinct(front, row);
      PendingTasksExact(front, row);
      forall x | x in PendingTasks(front, row)
        ensures x.task != last
      {
        assert x.task in front;
      }
    }
  }

  /** Two tasks work on different columns. */
  predicate Apart(x: Task, y: Task) {
    x.repositoryId != y.repositoryId || x.task != y.task
  }

  ghost predicate PairwiseApart(s: seq<Task>) {
    forall i, j | 0 <= i < j < |s| :: Apart(s[i], s[j])
  }

  lemma {:induction false} AllPendingApart(rows: seq<Row>, tasks: seq<TaskType>)
    requires ValidRows(rows) && NoDuplicates(tasks)
    ensures PairwiseApart(AllPending(rows, tasks))
  {
    if rows != [] {
      AllPendingApart(rows[1..], tasks);
      PendingTasksDistinct(tasks, rows[0]);
      PendingTasksExact(tasks, rows[0]);
      forall x, y | x in PendingTasks(tasks, rows[0]) && y in AllPending(rows[1..], tasks)
        ensures Apart(x, y)
      {
        AllPendingExact(rows[1..], tasks, y);
      }
    }
  }

  // ---- The pool of side tasks --------------------------------------------------------------------------------------

  /** Row after row, until more than `limit` tasks are gathered. */
  function Gather(rows: seq<Row>, tasks: seq<TaskType>, limit: nat, acc: seq<Task>): seq<Task>
    decreases |rows|
  {
    if rows == [] then acc
    else
      var next := acc + PendingTasks(tasks, rows[0]);
      if |next| > limit then next else Gather(rows[1..], tasks, limit, next)
  }

  /** The main task counts as one of the gathered tasks, so the pool proper holds one task less. */
  function PoolLimit(nSubTasks: nat): nat {
    nSubTasks * SUBTASKS_POOL_COEF + 1
  }

  /** The tasks the side tasks are drawn from: everything gathered after the main task. */
  function Pool(rows: seq<Row>, tasks: seq<TaskType>, nSubTasks: nat): seq<Task> {
    var gathered := Gather(rows, tasks, PoolLimit(nSubTasks), []);
    if gathered == [] then [] else gathered[1..]
  }

  // Gathering yields a prefix of the pending tasks, and only a full gathering is a proper prefix.
  lemma {:induction false} GatherGuarantee(rows: seq<Row>, tasks: seq<TaskType>, limit: nat, acc: seq<Task>)
    ensures Gather(rows, tasks, limit, acc) <= acc + AllPending(rows, tasks)
    ensures |Gather(rows, tasks, limit, acc)| > limit
        || Gather(rows, tasks, limit, acc) == acc + AllPending(rows, tasks)
    decreases |rows|
  {
    if rows == [] {
      assert acc + [] == acc;
    } else {
      var next := acc + PendingTasks(tasks, rows[0]);
      assert acc + AllPending(rows, tasks) == next + AllPending(rows[1..], tasks);
      GatherGuarantee(rows[1..], tasks, limit, next);
    }
  }

  // A row limit that exceeds what is still to gather cuts nothing off, because every fetched row adds a task.
  lemma {:induction false} RowLimitSuffices(rows: seq<Row>, tasks: seq<TaskType>, limit: nat, acc: seq<Task>,
          rowLimit: nat)
    requires forall row :: row in rows ==> HasPending(tasks, row)
    requires |acc| + rowLimit > limit
    requires rowLimit > 0 || |acc| > limit
    requires rowLimit == 0 ==> rows == []
    ensures Gather(Take(rows, rowLimit), tasks, limit, acc) == Gather(rows, tasks, limit, acc)
    decreases |rows|
  {
    if rows != [] && |rows| > rowLimit {
      var next := acc + PendingTasks(tasks, rows[0]);
      PendingTasksExact(tasks, rows[0]);
      assert rows[0] in rows;
      assert Take(rows, rowLimit)[0] == rows[0];
      assert Take(rows, rowLimit)[1..] == Take(rows[1..], rowLimit - 1);
      if |next| <= limit {
        RowLimitSuffices(rows[1..], tasks, limit, next, rowLimit - 1);
      }
    }
  }

  // Main result: the limit in the query never decides which tasks make up the pool.
  lemma QueryLimitIsLargeEnough(rows: seq<Row>, tasks: seq<TaskType>, nSubTasks: nat)
    ensures var states := FetchPendingRepoSyncStates(rows, tasks, (nSubTasks + 1) * SUBTASKS_POOL_COEF);
            && Gather(states, tasks, PoolLimit(nSubTasks), [])
               == Gather(PendingRows(rows, tasks), tasks, PoolLimit(nSubTasks), [])
            && Pool(states, tasks, nSubTasks) == Pool(PendingRows(rows, tasks), tasks, nSubTasks)
  {
    hide PendingRows;
    RowLimitSuffices(PendingRows(rows, tasks), tasks, PoolLimit(nSubTasks), [], (nSubTasks + 1) * SUBTASKS_POOL_COEF);
  }

  // Dropping the rows without pending tasks drops no pending task.
  lemma {:induction false} PendingRowsKeepTasks(rows: seq<Row>, tasks: seq<TaskType>)
    ensures AllPending(PendingRows(rows, tasks), tasks) == AllPending(rows, tasks)
  {
    if rows != [] {
      PendingRowsKeepTasks(rows[1..], tasks);
      PendingTasksExact(tasks, rows[0]);
      var rest := PendingRows(rows[1..], tasks);
      if HasPending(tasks, rows[0]) {
        assert PendingRows(rows, tasks)[1..] == rest;
      } else {
        assert PendingRows(rows, tasks) == rest;
        assert [] + AllPending(rows[1..], tasks) == AllPending(rows[1..], tasks);
      }
    }
  }

  lemma AllPendingNonEmpty(rows: seq<Row>, tasks: seq<TaskType>)
    ensures AllPending(rows, tasks) == [] <==> PendingRows(rows, tasks) == []
  {
    PendingRowsKeepTasks(rows, tasks);
    var pending := PendingRows(rows, tasks);
    if pending != [] {
      assert pending[0] in pending;
      PendingTasksExact(tasks, pending[0]);
    }
  }

  // Main result: the pool holds more than ten tasks for every side task, or all pending tasks but the main one.
  lemma PoolIsLargeOrComplete(rows: seq<Row>, tasks: seq<TaskType>, nSubTasks: nat)
    requires AllPending(rows, tasks) != []
    ensures var pool, pending := Pool(PendingRows(rows, tasks), tasks, nSubTasks), AllPending(rows, tasks);
            && pool <= pending[1..]
            && (|pool| > nSubTasks * SUBTASKS_POOL_COEF || pool == pending[1..])
    ensures Gather(PendingRows(rows, tasks), tasks, PoolLimit(nSubTasks), [])
            == [AllPending(rows, tasks)[0]] + Pool(PendingRows(rows, tasks), tasks, nSubTasks)
  {
    hide PendingRows, Gather, Pool, AllPending;
    PendingRowsKeepTasks(rows, tasks);
    var pending := AllPending(rows, tasks);
    assert [] + pending == pending;
    GatherGuarantee(PendingRows(rows, tasks), tasks, PoolLimit(nSubTasks), []);
    var gathered := Gather(PendingRows(rows, tasks), tasks, PoolLimit(nSubTasks), []);
    PrefixRest(gathered, pending);
    PoolIsRest(PendingRows(rows, tasks), tasks, nSubTasks, gathered);
  }

  lemma PrefixRest(prefix: seq<Task>, s: seq<Task>)
    requires prefix != [] && prefix <= s
    ensures prefix[1..] <= s[1..] && prefix == [s[0]] + prefix[1..]
    ensures prefix == s ==> prefix[1..] == s[1..]
  {
  }

  // ---- Choosing ----------------------------------------------------------------------------------------------------

  /** `sort(() => Math.random() - 0.5)`: some permutation. */
  type Shuffle = seq<Task> -> seq<Task>

  ghost predicate Permutes(shuffle: Shuffle) {
    forall s: seq<Task> :: multiset(shuffle(s)) == multiset(s)
  }

  function DiscoveryTask(sub: Subscription): Task {
    Task(Repository, 0, NonEmptyText(sub.repositoryCursor))
  }

  /** The main task: a function of the store and the message alone. */
  function MainTask(sub: Subscription, rows: seq<Row>, tasks: seq<TaskType>): Option<Task> {
    if sub.repositoryStatus != Some(Complete) then Some(DiscoveryTask(sub))
    else
      var pending := AllPending(rows, tasks);
      if pending == [] then None else Some(pending[0])
  }

  /**
   * What a caller of `getNextTasks` may rely on. `pool` is everything gathered after the main task; the side tasks are
   * `nSubTasks` of its tasks, each at most once.
   */
  ghost predicate IsSchedule(sub: Subscription, rows: seq<Row>, tasks: seq<TaskType>, nSubTasks: nat, next: NextTasks) {
    && next.mainTask == MainTask(sub, rows, tasks)
    && (if sub.repositoryStatus != Some(Complete) || next.mainTask.None? then next.otherTasks == []
        else
          var pool := Pool(PendingRows(rows, tasks), tasks, nSubTasks);
          DrawnFrom(next.otherTasks, pool, nSubTasks))
  }

  /** The tasks chosen for a given shuffle. */
  function Schedule(sub: Subscription, rows: seq<Row>, tasks: seq<TaskType>, nSubTasks: nat,
          shuffle: Shuffle): NextTasks {
    var mainTask := MainTask(sub, rows, tasks);
    if sub.repositoryStatus != Some(Complete) || mainTask.None? then NextTasks(mainTask, [])
    else NextTasks(mainTask, Take(shuffle(Pool(PendingRows(rows, tasks), tasks, nSubTasks)), nSubTasks))
  }

  // Whatever the shuffle, the outcome is as described by `IsSchedule`.
  lemma ScheduleIsValid(sub: Subscription, rows: seq<Row>, tasks: seq<TaskType>, nSubTasks: nat, shuffle: Shuffle)
    requires Permutes(shuffle)
    ensures IsSchedule(sub, rows, tasks, nSubTasks, Schedule(sub, rows, tasks, nSubTasks, shuffle))
  {
    hide PendingRows, AllPending, Pool;
    var pool := Pool(PendingRows(rows, tasks), tasks, nSubTasks);
    TakeOfShuffle(shuffle(pool), pool, nSubTasks);
  }

  /** `n` tasks of the pool, or all of it, each at most as often as it occurs there. */
  ghost predicate DrawnFrom(drawn: seq<Task>, pool: seq<Task>, n: nat) {
    && multiset(drawn) <= multiset(pool)
    && |drawn| == if n < |pool| then n else |pool|
  }

  lemma TakeOfShuffle(shuffled: seq<Task>, pool: seq<Task>, n: nat)
    requires multiset(shuffled) == multiset(pool)
    ensures DrawnFrom(Take(shuffled, n), pool, n)
  {
    assert |shuffled| == |multiset(shuffled)| == |pool|;
    if n < |shuffled| {
      assert shuffled == shuffled[..n] + shuffled[n..];
    }
  }

  lemma GatherNext(states: seq<Row>, tasks: seq<TaskType>, limit: nat, acc: seq<Task>, i: nat)
    requires i < |states|
    ensures var next := acc + PendingTasks(tasks, states[i]);
            Gather(states[i..], tasks, limit, acc)
            == if |next| > limit then next else Gather(states[i + 1..], tasks, limit, next)
  {
    assert states[i..][0] == states[i] && states[i..][1..] == states[i + 1..];
  }

  lemma GatherDone(states: seq<Row>, tasks: seq<TaskType>, limit: nat, acc: seq<Task>)
    ensures Gather(states[|states|..], tasks, limit, acc) == acc
    ensures states[0..] == states
  {
  }

  lemma PoolIsRest(rows: seq<Row>, tasks: seq<TaskType>, nSubTasks: nat, gathered: seq<Task>)
    requires gathered != [] && gathered == Gather(rows, tasks, PoolLimit(nSubTasks), [])
    ensures Pool(rows, tasks, nSubTasks) == gathered[1..]
  {
  }

  method CalculateNextTasksWithSubtasks(states: seq<Row>, tasks: seq<TaskType>, nSubTasks: nat, shuffle: Shuffle)
    returns (next: NextTasks)
    requires forall row :: row in states ==> HasPending(tasks, row)
    ensures if states == [] then next == NextTasks(None, [])
            else && next.mainTask.Some?
                 && Gather(states, tasks, PoolLimit(nSubTasks), [])
                    == [next.mainTask.value] + Pool(states, tasks, nSubTasks)
                 && next.otherTasks == Take(shuffle(Pool(states, tasks, nSubTasks)), nSubTasks)
  {
    hide HasPending, PendingTasks, DrawnFrom, Gather, Pool;
    if states == [] {
      return NextTasks(None, []);
    }
    var mainTask: Option<Task> := None;
    var otherTasks: seq<Task> := [];
    ghost var gathered: seq<Task> := [];
    var i := 0;
    while i < |states|
      invariant 0 <= i <= |states|
      invariant gathered == (if mainTask.Some? then [mainTask.value] else []) + otherTasks
      invariant mainTask.None? <==> i == 0
      invariant mainTask.None? ==> otherTasks == []
      invariant |gathered| <= PoolLimit(nSubTasks)
      invariant Gather(states, tasks, PoolLimit(nSubTasks), [])
          == Gather(states[i..], tasks, PoolLimit(nSubTasks), gathered)
    {
      var pendingTasks := MapSyncStateToTasks(tasks, states[i]);
      assert pendingTasks != [] by {
        assert states[i] in states;
        PendingTasksExact(tasks, states[i]);
      }
      GatherNext(states, tasks, PoolLimit(nSubTasks), gathered, i);
      if mainTask.None? {
        mainTask := Some(pendingTasks[0]);
        otherTasks := otherTasks + pendingTasks[1..];
      } else {
        otherTasks := otherTasks + pendingTasks;
      }
      gathered := gathered + pendingTasks;
      i := i + 1;
      if |otherTasks| > nSubTasks * SUBTASKS_POOL_COEF {
        break;
      }
    }
    GatherDone(states, tasks, PoolLimit(nSubTasks), gathered);
    PoolIsRest(states, tasks, nSubTasks, gathered);
    assert gathered[1..] == otherTasks;
    var shuffled := shuffle(otherTasks);
    next := NextTasks(mainTask, Take(shuffled, nSubTasks));
  }

  method GetNextTasks(sub: Subscription, rows: seq<Row>, targetTasks: seq<TaskType>, securityFlag: bool,
                      quota: Option<Quota>, shuffle: Shuffle)
    returns (next: NextTasks)
    requires Permutes(shuffle)
    ensures next == Schedule(sub, rows, AllowedTasks(sub, securityFlag, targetTasks), EstimateNumberOfSubtasks(quota),
        shuffle)
    ensures IsSchedule(sub, rows, AllowedTasks(sub, securityFlag, targetTasks), EstimateNumberOfSubtasks(quota), next)
  {
    hide Gather, HasPending, AllPending, PendingRows, Permutes, EstimateNumberOfSubtasks, GetTargetTasks,
         FetchPendingRepoSyncStates, PendingTasks, Pool, DrawnFrom;
    if sub.repositoryStatus != Some(Complete) {
      return NextTasks(Some(DiscoveryTask(sub)), []);
    }
    var tasks := GetTargetTasks(targetTasks);
    if !securityFlag || !sub.isSecurityPermissionsAccepted {
      tasks := WithoutSecurity(tasks);
    }
    var nSubTasks := EstimateNumberOfSubtasks(quota);
    ScheduleIsValid(sub, rows, tasks, nSubTasks, shuffle);
    AllPendingNonEmpty(rows, tasks);
    if nSubTasks > 0 {
      var repoSyncStates := FetchPendingRepoSyncStates(rows, tasks, (nSubTasks + 1) * SUBTASKS_POOL_COEF);
      FetchedRows(rows, tasks, (nSubTasks + 1) * SUBTASKS_POOL_COEF);
      next := CalculateNextTasksWithSubtasks(repoSyncStates, tasks, nSubTasks, shuffle);
      QueryLimitIsLargeEnough(rows, tasks, nSubTasks);
      if repoSyncStates != [] {
        PoolIsLargeOrComplete(rows, tasks, nSubTasks);
        var gathered := Gather(PendingRows(rows, tasks), tasks, PoolLimit(nSubTasks), []);
        assert gathered[0] == next.mainTask.value;
      }
      return;
    }
    var pendingRepoSyncState := FetchPendingRepoSyncStates(rows, tasks, 1);
    FetchedRows(rows, tasks, 1);
    if |pendingRepoSyncState| == 0 {
      return NextTasks(None, []);
    }
    var mapped := MapSyncStateToTasks(tasks, pendingRepoSyncState[0]);
    FirstOfFirstRow(rows, tasks);
    TakeNone(shuffle(Pool(PendingRows(rows, tasks), tasks, 0)));
    next := NextTasks(Some(mapped[0]), []);
  }

  lemma TakeNone<T>(s: seq<T>)
    ensures Take(s, 0) == []
  {
  }

  lemma FetchedRows(rows: seq<Row>, tasks: seq<TaskType>, limit: nat)
    requires limit > 0
    ensures var states := FetchPendingRepoSyncStates(rows, tasks, limit);
            && (forall row :: row in states ==> HasPending(tasks, row))
            && (states == [] <==> PendingRows(rows, tasks) == [])
            && (states != [] ==> states[0] == PendingRows(rows, tasks)[0])
  {
  }

  // The one-row query leads to the same main task.
  lemma FirstOfFirstRow(rows: seq<Row>, tasks: seq<TaskType>)
    requires PendingRows(rows, tasks) != []
    ensures var mapped := PendingTasks(tasks, PendingRows(rows, tasks)[0]);
            mapped != [] && AllPending(rows, tasks) != [] && mapped[0] == AllPending(rows, tasks)[0]
  {
    PendingRowsKeepTasks(rows, tasks);
    var first := PendingRows(rows, tasks)[0];
    assert first in PendingRows(rows, tasks);
    PendingTasksExact(tasks, first);
  }

  // ---- Properties of every schedule --------------------------------------------------------------------------------

  // The main task of a discovered subscription is the first pending allowed task of the newest row that has one.
  lemma {:induction false} MainTaskIsFirst(sub: Subscription, rows: seq<Row>, tasks: seq<TaskType>)
    requires sub.repositoryStatus == Some(Complete)
    ensures var m := MainTask(sub, rows, tasks);
            if m.None? then forall row :: row in rows ==> !HasPending(tasks, row)
            else exists i, k :: IsFirstPending(rows, tasks, i, k) && m.value == TaskOf(rows[i], tasks[k])
  {
    hide HasPending;
    if rows != [] {
      PendingTasksExact(tasks, rows[0]);
      if HasPending(tasks, rows[0]) {
        var k := FirstPending(tasks, rows[0]);
        assert IsFirstPending(rows, tasks, 0, k);
      } else {
        MainTaskIsFirst(sub, rows[1..], tasks);
        assert AllPending(rows, tasks) == AllPending(rows[1..], tasks);
        var m := MainTask(sub, rows, tasks);
        if m.Some? {
          var i, k :| IsFirstPending(rows[1..], tasks, i, k) && m.value == TaskOf(rows[1..][i], tasks[k]);
          FirstPendingShifts(rows, tasks, i, k);
        }
      }
    }
  }

  /** Task `k` of row `i` is pending, no earlier task of the row is, and no newer row has a pending task. */
  ghost predicate IsFirstPending(rows: seq<Row>, tasks: seq<TaskType>, i: int, k: int) {
    && 0 <= i < |rows| && 0 <= k < |tasks| && IsPending(rows[i], tasks[k])
    && (forall j | 0 <= j < i :: !HasPending(tasks, rows[j]))
    && (forall l | 0 <= l < k :: !IsPending(rows[i], tasks[l]))
  }

  lemma FirstPendingShifts(rows: seq<Row>, tasks: seq<TaskType>, i: int, k: int)
    requires rows != [] && !HasPending(tasks, rows[0]) && IsFirstPending(rows[1..], tasks, i, k)
    ensures IsFirstPending(rows, tasks, i + 1, k)
  {
    forall j | 0 <= j < i + 1
      ensures !HasPending(tasks, rows[j])
    {
      assert j == 0 || rows[j] == rows[1..][j - 1];
    }
  }

  lemma {:induction false} FirstPending(tasks: seq<TaskType>, row: Row) returns (k: nat)
    requires HasPending(tasks, row)
    ensures k < |tasks| && IsPending(row, tasks[k])
    ensures forall l | 0 <= l < k :: !IsPending(row, tasks[l])
    ensures PendingTasks(tasks, row) != [] && PendingTasks(tasks, row)[0] == TaskOf(row, tasks[k])
  {
    var front, last := tasks[..|tasks| - 1], tasks[|tasks| - 1];
    PendingTasksExact(front, row);
    if HasPending(front, row) {
      k := FirstPending(front, row);
    } else {
      k := |tasks| - 1;
      forall l | 0 <= l < k
        ensures !IsPending(row, tasks[l])
      {
        assert tasks[l] in front;
      }
    }
  }

  // Main result: main and side tasks touch pairwise different columns, are all pending, and are at most 101.
  lemma ScheduledTasksApart(sub: Subscription, rows: seq<Row>, targetTasks: seq<TaskType>, securityFlag: bool,
                            quota: Option<Quota>, next: NextTasks)
    requires ValidRows(rows)
    requires IsSchedule(sub, rows, AllowedTasks(sub, securityFlag, targetTasks), EstimateNumberOfSubtasks(quota), next)
    requires next.mainTask.Some?
    ensures PairwiseApart([next.mainTask.value] + next.otherTasks)
    ensures |[next.mainTask.value] + next.otherTasks| <= 101
    ensures sub.repositoryStatus == Some(Complete) ==>
              forall x :: x in [next.mainTask.value] + next.otherTasks ==>
                x in AllPending(rows, AllowedTasks(sub, securityFlag, targetTasks))
  {
    var tasks := AllowedTasks(sub, securityFlag, targetTasks);
    if sub.repositoryStatus == Some(Complete) {
      AllowedTasksDistinct(sub, securityFlag, targetTasks);
      DrawnTasksApart(rows, tasks, EstimateNumberOfSubtasks(quota), next.otherTasks);
    }
  }

  // Whatever is chosen is pending.
  lemma DrawnTasksPending(rows: seq<Row>, tasks: seq<TaskType>, nSubTasks: nat, drawn: seq<Task>)
    requires AllPending(rows, tasks) != []
    requires DrawnFrom(drawn, Pool(PendingRows(rows, tasks), tasks, nSubTasks), nSubTasks)
    ensures forall x | x in drawn :: x in AllPending(rows, tasks)[1..]
  {
    hide PendingRows, AllPending, Pool;
    var pending := AllPending(rows, tasks);
    var pool := Pool(PendingRows(rows, tasks), tasks, nSubTasks);
    PoolIsLargeOrComplete(rows, tasks, nSubTasks);
    assert pool == pending[1..][..|pool|];
    forall x | x in drawn
      ensures x in pending[1..]
    {
      assert x in multiset(drawn);
      assert x in pool;
    }
  }

  lemma DrawnTasksApart(rows: seq<Row>, tasks: seq<TaskType>, nSubTasks: nat, drawn: seq<Task>)
    requires ValidRows(rows) && NoDuplicates(tasks) && AllPending(rows, tasks) != []
    requires DrawnFrom(drawn, Pool(PendingRows(rows, tasks), tasks, nSubTasks), nSubTasks)
    ensures var chosen := [AllPending(rows, tasks)[0]] + drawn;
            PairwiseApart(chosen) && forall x :: x in chosen ==> x in AllPending(rows, tasks)
  {
    hide PendingRows, AllPending, Pool, ValidRows;
    var pending := AllPending(rows, tasks);
    var pool := Pool(PendingRows(rows, tasks), tasks, nSubTasks);
    AllPendingApart(rows, tasks);
    PoolIsLargeOrComplete(rows, tasks, nSubTasks);
    assert pool == pending[1..][..|pool|];
    SubMultisetApart(drawn, pool);
    DrawnTasksPending(rows, tasks, nSubTasks, drawn);
    forall x | x in drawn
      ensures x in pending && Apart(pending[0], x)
    {
      var i :| 0 <= i < |pending[1..]| && pending[1..][i] == x;
      assert pending[i + 1] == x;
    }
  }

  lemma SubMultisetApart(s: seq<Task>, pool: seq<Task>)
    requires PairwiseApart(pool) && multiset(s) <= multiset(pool)
    ensures PairwiseApart(s)
  {
    forall i, j | 0 <= i < j < |s|
      ensures Apart(s[i], s[j])
    {
      assert s[i] in multiset(s) && s[j] in multiset(s);
      assert s[i] in pool && s[j] in pool;
      if s[i] == s[j] {
        assert s == s[..j] + s[j..];
        assert s[i] in s[..j] && s[j] in s[j..];
        OnceInPool(pool, s[i]);
      }
    }
  }

  lemma {:induction false} OnceInPool(pool: seq<Task>, x: Task)
    requires PairwiseApart(pool)
    ensures multiset(pool)[x] <= 1
  {
    if pool != [] {
      assert pool == [pool[0]] + pool[1..];
      OnceInPool(pool[1..], x);
      assert multiset(pool[1..])[x] > 0 ==> x in pool[1..];
    }
  }
}
