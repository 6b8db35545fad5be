/**
 * What the steps of a backfill leave in the subscription and the rows (src/sync/installation.ts, src/sync/discovery.ts,
 * src/sync/sync-utils.ts), column by column.
 */
module BackfillEffects {
  import opened Wrappers
  import opened SyncTypes
  import opened BackfillStore
  import opened BackfillTermination
  import FromDates

  /** The columns of task `t` are the same in both rows, and so is the identity. */
  predicate SameColumns(a: Row, b: Row, t: TaskType) {
    && a.id == b.id && a.repoId == b.repoId
    && StatusOf(a, t) == StatusOf(b, t) && StoredCursor(a, t) == StoredCursor(b, t)
    && (t in a.from <==> t in b.from) && (t in a.from ==> a.from[t] == b.from[t])
  }

  /** Only the row of the repository changed, and there only the columns of `task`. */
  ghost predicate OnlyTaskChanged(before: seq<Row>, after: seq<Row>, task: Task) {
    && |after| == |before|
    && (forall i | 0 <= i < |before| :: before[i].repoId != task.repositoryId ==> after[i] == before[i])
    && (forall i, t | 0 <= i < |before| && t != task.task :: SameColumns(after[i], before[i], t))
  }

  lemma WritesOfTask(rows: seq<Row>, values: seq<Write>, task: Task)
    requires OwnColumns(values, task)
    ensures OnlyTaskChanged(rows, WriteRows(rows, task.repositoryId, values), task)
  {
    hide WriteRow, IsPending, CursorOf, StatusOf, StoredCursor;
    WriteRowsElements(rows, task.repositoryId, values);
    forall i, t | 0 <= i < |rows| && t != task.task
      ensures SameColumns(WriteRows(rows, task.repositoryId, values)[i], rows[i], t)
    {
      if rows[i].repoId == task.repositoryId {
        WriteRowFrame(rows[i], values, t);
      }
    }
  }

  /** What a fetched page leaves in a row of its repository; a completion may also record its from-date. */
  predicate PageRecorded(before: Row, after: Row, edges: seq<string>, t: TaskType) {
    && after.failedCode == before.failedCode
    && if edges == [] then StatusOf(after, t) == Some(Complete) && StoredCursor(after, t) == StoredCursor(before, t)
       else && StatusOf(after, t) == Some(Pending) && StoredCursor(after, t) == Some(edges[|edges| - 1])
            && after.from == before.from
  }

  lemma PageOnRow(rows: seq<Row>, payload: Payload, edges: seq<string>, task: Task, row: Row)
    requires task.task != Repository
    ensures PageRecorded(row, WriteRow(row, TaskWrites(rows, payload, edges, task)), edges, task.task)
  {
    hide WriteRow;
    if edges != [] {
      WriteTwo(row, SetStatus(task.task, Pending), SetCursor(task.task, edges[|edges| - 1]));
    } else if FromDateWrites(rows, payload, task) == [] {
      assert TaskWrites(rows, payload, edges, task) == [SetStatus(task.task, Complete)];
      WriteOne(row, SetStatus(task.task, Complete));
    } else {
      var since := payload.commitsFromDate.value;
      assert TaskWrites(rows, payload, edges, task) == [SetStatus(task.task, Complete), SetFrom(task.task, since)];
      WriteTwo(row, SetStatus(task.task, Complete), SetFrom(task.task, since));
    }
  }

  // A fetched page is recorded in the row of its repository: no edges finish the task and keep its cursor, otherwise
  // the last edge's cursor is kept; no other column changes, in whatever way.
  lemma FetchedPageRecorded(store: Store, payload: Payload, edges: seq<string>, task: Task)
    requires store.sub.Some? && task.task != Repository
    ensures var (after, next) := UpdateTaskStatusAndContinue(store, payload, edges, task);
            && next == Some(payload) && after.sub == store.sub
            && OnlyTaskChanged(store.rows, after.rows, task)
            && forall i | 0 <= i < |store.rows| && store.rows[i].repoId == task.repositoryId ::
                 PageRecorded(store.rows[i], after.rows[i], edges, task.task)
  {
    hide TaskWrites, WriteRow, OnlyTaskChanged, PageRecorded;
    var values := TaskWrites(store.rows, payload, edges, task);
    TaskWritesOwnColumns(store.rows, payload, edges, task);
    SubUntouched(store.sub.value, values);
    WritesOfTask(store.rows, values, task);
    WriteRowsElements(store.rows, task.repositoryId, values);
    forall i | 0 <= i < |store.rows|
      ensures PageRecorded(store.rows[i], WriteRow(store.rows[i], values), edges, task.task)
    {
      PageOnRow(store.rows, payload, edges, task, store.rows[i]);
    }
  }

  /** The task failed with a code; its cursor and all dates are kept. */
  predicate FailureMarked(before: Row, after: Row, t: TaskType, code: string) {
    && StatusOf(after, t) == Some(Failed) && StoredCursor(after, t) == StoredCursor(before, t)
    && after.from == before.from && after.failedCode == Some(code)
  }

  // A failed task is marked with its code in the row of its repository; a permission error also warns on the
  // subscription. The sync goes on with the other tasks.
  lemma FailureRecorded(store: Store, payload: Payload, task: Task, isPermissionError: bool, code: string)
    requires store.sub.Some? && task.task != Repository
    ensures var (after, next) := MarkCurrentTaskAsFailedAndContinue(store, payload, task, isPermissionError, code);
            && next == Some(payload)
            && after.sub == Some(if isPermissionError then store.sub.value.(syncWarning := Some(task.task))
                 else store.sub.value)
            && OnlyTaskChanged(store.rows, after.rows, task)
            && forall i | 0 <= i < |store.rows| && store.rows[i].repoId == task.repositoryId ::
                 FailureMarked(store.rows[i], after.rows[i], task.task,
                               if isPermissionError then "PERMISSIONS_ERROR" else code)
  {
    hide WriteRow, OnlyTaskChanged, FailureMarked;
    var values := FailureWrites(task, isPermissionError, code);
    FailureRows(store, payload, task, isPermissionError, code);
    WritesOfTask(store.rows, values, task);
    WriteRowsElements(store.rows, task.repositoryId, values);
    forall i | 0 <= i < |store.rows|
      ensures FailureMarked(store.rows[i], WriteRow(store.rows[i], values), task.task,
                            if isPermissionError then "PERMISSIONS_ERROR" else code)
    {
      FailureOnRow(store.rows[i], task, isPermissionError, code);
    }
  }

  lemma FailureRows(store: Store, payload: Payload, task: Task, isPermissionError: bool, code: string)
    requires store.sub.Some? && task.task != Repository
    ensures var after := MarkCurrentTaskAsFailedAndContinue(store, payload, task, isPermissionError, code).0;
            && after.sub == Some(if isPermissionError then store.sub.value.(syncWarning := Some(task.task))
                 else store.sub.value)
            && after.rows == WriteRows(store.rows, task.repositoryId, FailureWrites(task, isPermissionError, code))
  {
    hide WriteRows, WriteSub;
    var first := [SetStatus(task.task, Failed), SetFailedCode(code)];
    NoColumnOfSub(store.sub.value, task, code);
    NoColumnOfSub(store.sub.value, task, "PERMISSIONS_ERROR");
    WriteRowsConcat(store.rows, task.repositoryId, first, [SetFailedCode("PERMISSIONS_ERROR")]);
    assert first + [] == first;
  }

  lemma FailureOnRow(row: Row, task: Task, isPermissionError: bool, code: string)
    requires task.task != Repository
    ensures FailureMarked(row, WriteRow(row, FailureWrites(task, isPermissionError, code)), task.task,
                          if isPermissionError then "PERMISSIONS_ERROR" else code)
  {
    var first := [SetStatus(task.task, Failed), SetFailedCode(code)];
    assert first + [] == first;
    WriteTwo(row, SetStatus(task.task, Failed), SetFailedCode(code));
    WriteRowConcat(row, first, [SetFailedCode("PERMISSIONS_ERROR")]);
    WriteOne(WriteRow(row, first), SetFailedCode("PERMISSIONS_ERROR"));
  }

  // A failed discovery stops the sync.
  lemma FailedDiscoveryRecorded(store: Store, payload: Payload, task: Task, isPermissionError: bool, code: string)
    requires store.sub.Some? && task.task == Repository
    ensures var (after, next) := MarkCurrentTaskAsFailedAndContinue(store, payload, task, isPermissionError, code);
            && next.None? && after.sub.Some?
            && after.sub.value.syncStatus == FAILED && after.sub.value.repositoryStatus == Some(Failed)
            && after.sub.value.repositoryCursor == store.sub.value.repositoryCursor
            && (isPermissionError ==> after.sub.value.syncWarning == Some(Repository))
  {
    hide WriteRows;
    FailedDiscoverySub(store.sub.value, code);
    FailedDiscoverySub(store.sub.value.(repositoryStatus := Some(Failed)), "PERMISSIONS_ERROR");
  }

  /** A row for a repository that had none, with nothing done yet. */
  ghost predicate Added(rows: seq<Row>, row: Row, repoIds: seq<int>) {
    && row.repoId in repoIds && FindByRepoId(rows, row.repoId).None?
    && forall t :: IsPending(row, t) && CursorOf(row, t).None?
  }

  ghost predicate DistinctRepos(rows: seq<Row>) {
    forall i, j | 0 <= i < j < |rows| :: rows[i].repoId != rows[j].repoId
  }

  lemma {:induction false} DiscoverAdds(rows: seq<Row>, repoIds: seq<int>) returns (added: seq<Row>)
    ensures Discover(rows, repoIds) == added + rows
    ensures forall row | row in added :: Added(rows, row, repoIds)
    ensures DistinctRepos(added)
    decreases |repoIds|
  {
    if repoIds == [] {
      added := [];
    } else if FindByRepoId(rows, repoIds[0]).Some? {
      added := DiscoverAdds(rows, repoIds[1..]);
    } else {
      var first := Row(NextId(rows), repoIds[0], map[], map[], map[], None);
      var later := DiscoverAdds([first] + rows, repoIds[1..]);
      added := later + [first];
      assert later + ([first] + rows) == added + rows;
      assert ([first] + rows)[1..] == rows;
      forall row | row in added
        ensures Added(rows, row, repoIds)
      {
        assert row == first || Added([first] + rows, row, repoIds[1..]);
      }
      LastIsNew(later, first, rows, repoIds[1..]);
    }
  }

  lemma LastIsNew(later: seq<Row>, first: Row, rows: seq<Row>, repoIds: seq<int>)
    requires DistinctRepos(later) && forall row | row in later :: Added([first] + rows, row, repoIds)
    ensures DistinctRepos(later + [first])
  {
    forall i | 0 <= i < |later|
      ensures later[i].repoId != first.repoId
    {
      assert later[i] in later;
      assert FindByRepoId([first] + rows, later[i].repoId).None?;
    }
  }

  lemma {:induction false} DiscoverFinds(rows: seq<Row>, repoIds: seq<int>, id: int)
    requires id in repoIds
    ensures FindByRepoId(Discover(rows, repoIds), id).Some?
    decreases |repoIds|
  {
    var first := Row(NextId(rows), repoIds[0], map[], map[], map[], None);
    var grown := if FindByRepoId(rows, repoIds[0]).Some? then rows else [first] + rows;
    if id == repoIds[0] {
      FromDates.DiscoverKeepsFound(grown, repoIds[1..], id);
    } else {
      DiscoverFinds(grown, repoIds[1..], id);
    }
  }

  // Discovery adds exactly one row for every repository that had none, with all its tasks pending, and leaves the
  // others alone.
  lemma DiscoverIsExact(rows: seq<Row>, repoIds: seq<int>)
    ensures exists added :: Discover(rows, repoIds) == added + rows && DistinctRepos(added)
                            && forall row | row in added :: Added(rows, row, repoIds)
    ensures forall id | id in repoIds :: FindByRepoId(Discover(rows, repoIds), id).Some?
  {
    hide Discover, FindByRepoId, Added, DistinctRepos;
    var added := DiscoverAdds(rows, repoIds);
    forall id | id in repoIds
      ensures FindByRepoId(Discover(rows, repoIds), id).Some?
    {
      DiscoverFinds(rows, repoIds, id);
    }
  }

  // The state a sync starts from. With targets, exactly they are pending in every row; a full start clears their
  // cursors.
  lemma StartedRows(store: Store, isFull: bool, targets: seq<TaskType>)
    requires store.sub.Some?
    ensures var after := StartSync(store, isFull, targets).rows;
            if targets == [] then after == if isFull then [] else store.rows
            else |after| == |store.rows| && forall i, t | 0 <= i < |after| ::
                RowStarted(store.rows[i], after[i], isFull, targets, t)
  {
    hide IsPending, CursorOf, ResetRow;
    if targets != [] {
      ResetRowsElements(store.rows, isFull, targets);
      assert StartSync(store, isFull, targets).rows == ResetRows(store.rows, isFull, targets);
      forall i, t | 0 <= i < |store.rows|
        ensures RowStarted(store.rows[i], ResetRow(store.rows[i], isFull, targets), isFull, targets, t)
      {
        ResetRowIsExact(store.rows[i], isFull, targets, t);
      }
    }
  }

  predicate RowStarted(before: Row, after: Row, isFull: bool, targets: seq<TaskType>, t: TaskType) {
    && IsPending(after, t) == (t in targets || IsPending(before, t))
    && CursorOf(after, t) == if isFull && t in targets then None else CursorOf(before, t)
  }

  // Discovery starts anew if it is a target, or if everything is; otherwise it goes on where it was.
  lemma StartedDiscovery(store: Store, isFull: bool, targets: seq<TaskType>)
    requires store.sub.Some?
    ensures var before, after := store.sub.value, StartSync(store, isFull, targets).sub;
            var again := if targets == [] then isFull else Repository in targets;
            && after.Some? && after.value.syncStatus == PENDING && after.value.syncWarning.None?
            && after.value.repositoryStatus == (if again then None else before.repositoryStatus)
            && after.value.repositoryCursor == if again && isFull then None else before.repositoryCursor
  {
    hide ResetRows;
  }
}
