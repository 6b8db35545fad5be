/** The rows and messages of a backfill (src/sync/sync.types.ts, src/models). */
module SyncTypes {
  import opened Wrappers

  datatype TaskType =
    | Repository | Pull | Branch | Commit | Build | Deployment
    | DependabotAlert | SecretScanningAlert | CodeScanningAlert

  datatype TaskStatus = Pending | Complete | Failed

  datatype SyncStatus = PENDING | ACTIVE | COMPLETE | FAILED

  /** A RepoSyncState row: one status, cursor and from-date column per task; an absent key is a null column. */
  datatype Row = Row(id: int, repoId: int,
                     status: map<TaskType, TaskStatus>,
                     cursor: map<TaskType, string>,
                     from: map<TaskType, int>,
                     failedCode: Option<string>)

  datatype Subscription = Subscription(syncStatus: SyncStatus,
                                       repositoryStatus: Option<TaskStatus>,
                                       repositoryCursor: Option<string>,
                                       isSecurityPermissionsAccepted: bool,
                                       backfillSince: Option<int>,
                                       syncWarning: Option<TaskType>)

  datatype Task = Task(task: TaskType, repositoryId: int, cursor: Option<string>)

  /** The part of a backfill message that the sync looks at. */
  datatype Payload = Payload(targetTasks: seq<TaskType>, commitsFromDate: Option<int>)

  const ALL_TASKS: seq<TaskType> :=
    [Pull, Branch, Commit, Build, Deployment, DependabotAlert, SecretScanningAlert, CodeScanningAlert]

  // Every task but discovery, each once.
  lemma AllTasksListed(t: TaskType)
    ensures t in ALL_TASKS <==> t != Repository
  {
    assert ALL_TASKS[0] == Pull && ALL_TASKS[1] == Branch && ALL_TASKS[2] == Commit && ALL_TASKS[3] == Build;
    assert ALL_TASKS[4] == Deployment && ALL_TASKS[5] == DependabotAlert && ALL_TASKS[6] == SecretScanningAlert;
    assert ALL_TASKS[7] == CodeScanningAlert;
  }

  /** `x || undefined`: an empty string counts as no cursor. */
  function NonEmptyText(x: Option<string>): Option<string> {
    if x.Some? && x.value == "" then None else x
  }

  predicate IsPending(row: Row, t: TaskType) {
    t !in row.status || row.status[t] == Pending
  }

  function CursorOf(row: Row, t: TaskType): Option<string> {
    NonEmptyText(if t in row.cursor then Some(row.cursor[t]) else None)
  }

  /** Rows of one subscription, newest row id first; a repository has one row. */
  ghost predicate ValidRows(rows: seq<Row>) {
    && (forall i, j | 0 <= i < j < |rows| :: rows[i].id > rows[j].id)
    && (forall i, j | 0 <= i < j < |rows| :: rows[i].repoId != rows[j].repoId)
  }
}
