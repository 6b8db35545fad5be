/**
 * How far back a task has been synced (the `...From` columns written in src/sync/installation.ts): over whole runs the
 * column is the earliest from-date any completion of the task was asked for.
 */
module FromDates {
  import opened Wrappers
  import opened SyncTypes
  import opened Scheduler
  import opened BackfillStore
  import opened BackfillRuns
  import opened Deduplicator

  /** A task of a repository was completed for a message that asked for everything since `since`. */
  datatype Completion = Completion(repoId: int, task: TaskType, since: int)

  function FromOf(rows: seq<Row>, repoId: int, t: TaskType): Option<int> {
    var row := FindByRepoId(rows, repoId);
    if row.None? || t !in row.value.from then None else Some(row.value.from[t])
  }

  /** The earliest of a recorded date and the dates of the completions of one task. */
  function Earliest(recorded: Option<int>, completions: seq<Completion>, repoId: int, t: TaskType): Option<int> {
    if completions == [] then recorded
    else
      var before := Earliest(recorded, completions[..|completions| - 1], repoId, t);
      var last := completions[|completions| - 1];
      if last.repoId != repoId || last.task != t || (before.Some? && before.value <= last.since) then before
      else Some(last.since)
  }

  function CompletionsOf(payload: Payload, task: Task): seq<Completion> {
    if !TracksFromDate(task.task) || payload.commitsFromDate.None? then []
    else [Completion(task.repositoryId, task.task, payload.commitsFromDate.value)]
  }

  function JobCompletions(payload: Payload, jobs: seq<Job>): seq<Completion> {
    if jobs == [] then []
    else
      (if jobs[0].outcome == Fetched([]) then CompletionsOf(payload, jobs[0].task) else [])
      + JobCompletions(payload, jobs[1..])
  }

  function MessageCompletions(store: Store, message: Envelope, turn: Turn): seq<Completion> {
    if turn.rateLimitExceeded || turn.blocked || turn.dedup != E_OK || store.sub.None? then []
    else
      var payload := message.payload;
      var next := NextTasksFor(store.sub.value, store.rows, payload, turn.world);
      if next.mainTask.None? then []
      else
        var jobs := Respond(turn.world, [next.mainTask.value] + next.otherTasks);
        JobCompletions(payload, turn.world.settle(jobs))
        + (if jobs[0].outcome.Threw? && jobs[0].outcome.cause.kind == NotFound
           then CompletionsOf(payload, next.mainTask.value) else [])
  }

  // The earliest date is a lower bound of everything it was taken from, and one of them.
  lemma {:induction false} EarliestIsMinimum(recorded: Option<int>, completions: seq<Completion>, repoId: int,
          t: TaskType)
    ensures var e := Earliest(recorded, completions, repoId, t);
            && (e.None? <==> recorded.None? && forall c :: c in completions ==> c.repoId != repoId || c.task != t)
            && (e.Some? ==>
                  && (recorded.Some? ==> e.value <= recorded.value)
                  && (forall c :: c in completions && c.repoId == repoId && c.task == t ==> e.value <= c.since)
                  && (e == recorded || Completion(repoId, t, e.value) in completions))
  {
    if completions != [] {
      var front, last := completions[..|completions| - 1], completions[|completions| - 1];
      EarliestIsMinimum(recorded, front, repoId, t);
      assert forall c :: c in completions <==> c in front || c == last;
    }
  }

  lemma {:induction false} EarliestConcat(recorded: Option<int>, a: seq<Completion>, b: seq<Completion>, repoId: int,
          t: TaskType)
    ensures Earliest(recorded, a + b, repoId, t) == Earliest(Earliest(recorded, a, repoId, t), b, repoId, t)
  {
    if b == [] {
      assert a + b == a;
    } else {
      EarliestConcat(recorded, a, b[..|b| - 1], repoId, t);
      assert (a + b)[..|a + b| - 1] == a + b[..|b| - 1];
    }
  }

  // ---- Effects on one column ----------------------------------------------------------------------------------------

  lemma {:induction false} NoFromWritten(row: Row, values: seq<Write>, t: TaskType)
    requires forall w :: w in values ==> !w.SetFrom? || w.task != t
    ensures var after := WriteRow(row, values);
            (t in after.from <==> t in row.from) && (t in row.from ==> after.from[t] == row.from[t])
    decreases |values|
  {
    if values != [] {
      assert values[0] in values;
      NoFromWritten(WriteColumn(row, values[0]), values[1..], t);
    }
  }

  lemma FromAfterOtherWrite(rows: seq<Row>, written: int, values: seq<Write>, repoId: int, t: TaskType)
    requires written != repoId || forall w :: w in values ==> !w.SetFrom? || w.task != t
    ensures FromOf(WriteRows(rows, written, values), repoId, t) == FromOf(rows, repoId, t)
    ensures FindByRepoId(WriteRows(rows, written, values), repoId).Some? <==> FindByRepoId(rows, repoId).Some?
  {
    FindAfterWrite(rows, written, values, repoId);
    var found := FindByRepoId(rows, repoId);
    if found.Some? && written == repoId {
      NoFromWritten(found.value, values, t);
    }
  }

  lemma {:induction false} DiscoverKeepsFound(rows: seq<Row>, ids: seq<int>, repoId: int)
    requires FindByRepoId(rows, repoId).Some?
    ensures FindByRepoId(Discover(rows, ids), repoId) == FindByRepoId(rows, repoId)
    decreases |ids|
  {
    if ids != [] {
      if FindByRepoId(rows, ids[0]).Some? {
        DiscoverKeepsFound(rows, ids[1..], repoId);
      } else {
        var grown := [Row(NextId(rows), ids[0], map[], map[], map[], None)] + rows;
        assert grown[1..] == rows;
        DiscoverKeepsFound(grown, ids[1..], repoId);
      }
    }
  }

  // Completing a task records the date exactly when it reaches further back.
  lemma CompletionWrite(rows: seq<Row>, payload: Payload, task: Task, repoId: int, t: TaskType)
    requires FindByRepoId(rows, repoId).Some?
    ensures var after := WriteRows(rows, task.repositoryId, TaskWrites(rows, payload, [], task));
            && FindByRepoId(after, repoId).Some?
            && FromOf(after, repoId, t) == Earliest(FromOf(rows, repoId, t), CompletionsOf(payload, task), repoId, t)
  {
    var values := TaskWrites(rows, payload, [], task);
    var completions := CompletionsOf(payload, task);
    if completions == [] || task.repositoryId != repoId || task.task != t {
      FromAfterOtherWrite(rows, task.repositoryId, values, repoId, t);
      if completions != [] {
        assert completions[..0] == [];
      }
    } else {
      assert completions[..0] == [];
      FindAfterWrite(rows, repoId, values, repoId);
      var row := FindByRepoId(rows, repoId).value;
      FromColumn(row, payload.commitsFromDate.value, t);
      assert values == [SetStatus(t, Complete)]
          || values == [SetStatus(t, Complete), SetFrom(t, payload.commitsFromDate.value)];
    }
  }

  lemma FromColumn(row: Row, since: int, t: TaskType)
    ensures WriteRow(row, [SetStatus(t, Complete)]).from == row.from
    ensures WriteRow(row, [SetStatus(t, Complete), SetFrom(t, since)]).from == row.from[t := since]
  {
    var done := WriteColumn(row, SetStatus(t, Complete));
    assert [SetStatus(t, Complete)][1..] == [];
    assert [SetStatus(t, Complete), SetFrom(t, since)][1..] == [SetFrom(t, since)];
    assert [SetFrom(t, since)][1..] == [];
    assert WriteRow(done, []) == done;
    assert WriteRow(done, [SetFrom(t, since)]) == WriteRow(WriteColumn(done, SetFrom(t, since)), []);
  }

  lemma JobFrom(store: Store, payload: Payload, job: Job, repoId: int, t: TaskType)
    requires store.sub.Some? && FindByRepoId(store.rows, repoId).Some?
    ensures var after := RunJob(store, payload, job);
            && after.sub.Some? && FindByRepoId(after.rows, repoId).Some?
            && FromOf(after.rows, repoId, t) ==
               if job.outcome == Fetched([]) then
                 Earliest(FromOf(store.rows, repoId, t), CompletionsOf(payload, job.task), repoId, t)
               else FromOf(store.rows, repoId, t)
  {
    hide TaskWrites, Earliest, CompletionsOf, WriteSub;
    var grown := if job.task.task == Repository then Discover(store.rows, job.discovered) else store.rows;
    DiscoverKeepsFound(store.rows, job.discovered, repoId);
    if job.outcome.Fetched? {
      if job.outcome.edges == [] {
        CompletionWrite(grown, payload, job.task, repoId, t);
      } else {
        PageWritesNoFrom(grown, payload, job.outcome.edges, job.task);
        FromAfterOtherWrite(grown, job.task.repositoryId, TaskWrites(grown, payload, job.outcome.edges, job.task),
            repoId, t);
      }
    }
  }

  lemma PageWritesNoFrom(rows: seq<Row>, payload: Payload, edges: seq<string>, task: Task)
    requires edges != []
    ensures forall w :: w in TaskWrites(rows, payload, edges, task) ==> !w.SetFrom?
  {
  }

  lemma {:induction false} JobsFrom(store: Store, payload: Payload, jobs: seq<Job>, repoId: int, t: TaskType)
    requires store.sub.Some? && FindByRepoId(store.rows, repoId).Some?
    ensures var after := RunJobs(store, payload, jobs);
            && after.sub.Some? && FindByRepoId(after.rows, repoId).Some?
            && FromOf(after.rows, repoId, t) ==
               Earliest(FromOf(store.rows, repoId, t), JobCompletions(payload, jobs), repoId, t)
    decreases |jobs|
  {
    hide RunJob, FromOf, CompletionsOf, FindByRepoId;
    if jobs != [] {
      var first := if jobs[0].outcome == Fetched([]) then CompletionsOf(payload, jobs[0].task) else [];
      JobFrom(store, payload, jobs[0], repoId, t);
      JobsFrom(RunJob(store, payload, jobs[0]), payload, jobs[1..], repoId, t);
      EarliestConcat(FromOf(store.rows, repoId, t), first, JobCompletions(payload, jobs[1..]), repoId, t);
    }
  }

  lemma FailureFrom(store: Store, payload: Payload, task: Task, isPermissionError: bool, code: string,
                    repoId: int, t: TaskType)
    requires store.sub.Some?
    ensures var after := MarkCurrentTaskAsFailedAndContinue(store, payload, task, isPermissionError, code).0;
            && after.sub.Some?
            && FromOf(after.rows, repoId, t) == FromOf(store.rows, repoId, t)
            && (FindByRepoId(after.rows, repoId).Some? <==> FindByRepoId(store.rows, repoId).Some?)
  {
    hide WriteRows, WriteSub, FromOf, FindByRepoId;
    var values := [SetStatus(task.task, Failed), SetFailedCode(code)];
    FromAfterOtherWrite(store.rows, task.repositoryId, values, repoId, t);
    FromAfterOtherWrite(WriteRows(store.rows, task.repositoryId, values), task.repositoryId,
                        [SetFailedCode("PERMISSIONS_ERROR")], repoId, t);
  }

  lemma HandledFrom(store: Store, payload: Payload, task: Task, cause: Cause, lastAttempt: bool, repoId: int,
          t: TaskType)
    requires store.sub.Some? && FindByRepoId(store.rows, repoId).Some?
    ensures var after := HandleTaskError(store, payload, task, cause, lastAttempt).store;
            && after.sub.Some? && FindByRepoId(after.rows, repoId).Some?
            && FromOf(after.rows, repoId, t) ==
               if cause.kind == NotFound then
                 Earliest(FromOf(store.rows, repoId, t), CompletionsOf(payload, task), repoId, t)
               else FromOf(store.rows, repoId, t)
  {
    hide MarkCurrentTaskAsFailedAndContinue, TaskWrites, Earliest, CompletionsOf, FromOf, FindByRepoId, WriteSub;
    FailureFrom(store, payload, task, true, cause.failedCode, repoId, t);
    FailureFrom(store, payload, task, false, cause.failedCode, repoId, t);
    CompletionWrite(store.rows, payload, task, repoId, t);
  }

  lemma MessageFrom(store: Store, message: Envelope, turn: Turn, repoId: int, t: TaskType)
    requires store.sub.Some? && FindByRepoId(store.rows, repoId).Some? && ValidWorld(turn.world)
    ensures var after := ProcessMessage(store, message, turn).0;
            && after.sub.Some? && FindByRepoId(after.rows, repoId).Some?
            && FromOf(after.rows, repoId, t) ==
               Earliest(FromOf(store.rows, repoId, t), MessageCompletions(store, message, turn), repoId, t)
  {
    hide HandleTaskError, RunJobs, JobCompletions, Earliest, CompletionsOf, FromOf, FindByRepoId, NextTasksFor,
         ValidWorld, Respond;
    EarliestOfNone(FromOf(store.rows, repoId, t), repoId, t);
    if !turn.rateLimitExceeded && !turn.blocked && turn.dedup == E_OK {
      var payload := message.payload;
      var next := NextTasksFor(store.sub.value, store.rows, payload, turn.world);
      if next.mainTask.Some? {
        var active := store.(sub := Some(store.sub.value.(syncStatus := ACTIVE)));
        var jobs := Respond(turn.world, [next.mainTask.value] + next.otherTasks);
        var settled := turn.world.settle(jobs);
        JobsFrom(active, payload, settled, repoId, t);
        var after := RunJobs(active, payload, settled);
        var completed := JobCompletions(payload, settled);
        assert completed + [] == completed;
        if jobs[0].outcome.Threw? {
          var cause := jobs[0].outcome.cause;
          HandledFrom(after, payload, next.mainTask.value, cause, message.receiveCount + 1 >= MAX_ATTEMPTS, repoId, t);
          EarliestConcat(FromOf(store.rows, repoId, t), completed, CompletionsOf(payload, next.mainTask.value), repoId,
              t);
        }
      }
    }
  }

  lemma EarliestOfNone(recorded: Option<int>, repoId: int, t: TaskType)
    ensures Earliest(recorded, [], repoId, t) == recorded
  {
  }

  // ---- Histories with starts ----------------------------------------------------------------------------------------

  /** Everything but the end of the rows: a removal, or a full start without targets. */
  predicate KeepsRows(event: Event) {
    !event.Removed? && !(event.Started? && event.isFull && event.targets == [])
  }

  function EventCompletions(s: State, event: Event): seq<Completion> {
    if event.Delivered? && s.queue != [] then MessageCompletions(s.store, s.queue[Picked(s, event.turn)], event.turn)
        else []
  }

  function HistoryCompletions(s: State, events: seq<Event>): seq<Completion> {
    if events == [] then []
    else
      var front := events[..|events| - 1];
      HistoryCompletions(s, front) + EventCompletions(After(s, front), events[|events| - 1])
  }

  lemma {:induction false} FindAfterReset(rows: seq<Row>, isFull: bool, targets: seq<TaskType>, repoId: int)
    ensures FindByRepoId(ResetRows(rows, isFull, targets), repoId)
            == var found := FindByRepoId(rows, repoId);
               if found.Some? then Some(ResetRow(found.value, isFull, targets)) else None
  {
    if rows != [] {
      FindAfterReset(rows[1..], isFull, targets, repoId);
      assert ResetRows(rows, isFull, targets)[1..] == ResetRows(rows[1..], isFull, targets);
    }
  }

  lemma EventFrom(s: State, event: Event, repoId: int, t: TaskType)
    requires s.store.sub.Some? && FindByRepoId(s.store.rows, repoId).Some?
    requires KeepsRows(event) && (event.Delivered? ==> ValidWorld(event.turn.world))
    ensures var after := Next(s, event).store;
            && after.sub.Some? && FindByRepoId(after.rows, repoId).Some?
            && FromOf(after.rows, repoId, t) == Earliest(FromOf(s.store.rows, repoId, t), EventCompletions(s, event),
                 repoId, t)
  {
    hide ProcessMessage, MessageCompletions, Earliest, ValidWorld, FindByRepoId, ResetRows;
    EarliestOfNone(FromOf(s.store.rows, repoId, t), repoId, t);
    match event
    case Delivered(turn) =>
      if s.queue != [] {
        MessageFrom(s.store, s.queue[Picked(s, turn)], turn, repoId, t);
      }
    case Started(isFull, targets, _) => FindAfterReset(s.store.rows, isFull, targets, repoId);
    case Removed =>
  }

  // Main result: over all histories of deliveries, with retries and side tasks in any order, and of partial and
  // targeted starts, the recorded date of a task is the earliest of its earlier value and the dates of all its
  // completions.
  lemma {:induction false} FromDateOverHistory(s: State, events: seq<Event>, repoId: int, t: TaskType)
    requires s.store.sub.Some? && FindByRepoId(s.store.rows, repoId).Some?
    requires forall e | e in events :: KeepsRows(e) && (e.Delivered? ==> ValidWorld(e.turn.world))
    ensures var after := After(s, events).store;
            && after.sub.Some? && FindByRepoId(after.rows, repoId).Some?
            && FromOf(after.rows, repoId, t) ==
               Earliest(FromOf(s.store.rows, repoId, t), HistoryCompletions(s, events), repoId, t)
    decreases |events|
  {
    hide Next, EventCompletions, FromOf, Earliest, ValidWorld, FindByRepoId, KeepsRows;
    EarliestOfNone(FromOf(s.store.rows, repoId, t), repoId, t);
    if events != [] {
      var front, last := events[..|events| - 1], events[|events| - 1];
      assert last in events;
      FromDateOverHistory(s, front, repoId, t);
      EventFrom(After(s, front), last, repoId, t);
      EarliestConcat(FromOf(s.store.rows, repoId, t), HistoryCompletions(s, front),
          EventCompletions(After(s, front), last),
                     repoId, t);
    }
  }

  // ---- Branches -----------------------------------------------------------------------------------------------------

  ghost predicate OnlyTracked(completions: seq<Completion>) {
    forall c :: c in completions ==> TracksFromDate(c.task)
  }

  lemma {:induction false} JobsTracked(payload: Payload, jobs: seq<Job>)
    ensures OnlyTracked(JobCompletions(payload, jobs))
  {
    if jobs != [] {
      JobsTracked(payload, jobs[1..]);
    }
  }

  lemma MessageTracked(store: Store, message: Envelope, turn: Turn)
    ensures OnlyTracked(MessageCompletions(store, message, turn))
  {
    hide NextTasksFor, JobCompletions, Respond;
    if store.sub.Some? {
      var next := NextTasksFor(store.sub.value, store.rows, message.payload, turn.world);
      if next.mainTask.Some? {
        var jobs := Respond(turn.world, [next.mainTask.value] + next.otherTasks);
        JobsTracked(message.payload, turn.world.settle(jobs));
      }
    }
  }

  lemma {:induction false} HistoryTracked(s: State, events: seq<Event>)
    ensures OnlyTracked(HistoryCompletions(s, events))
    decreases |events|
  {
    hide MessageCompletions, Next;
    if events != [] {
      var front, last := events[..|events| - 1], events[|events| - 1];
      HistoryTracked(s, front);
      var before := After(s, front);
      if last.Delivered? && before.queue != [] {
        MessageTracked(before.store, before.queue[Picked(before, last.turn)], last.turn);
      }
    }
  }

  lemma {:induction false} EarliestUntouched(recorded: Option<int>, completions: seq<Completion>, repoId: int,
          t: TaskType)
    requires OnlyTracked(completions) && !TracksFromDate(t)
    ensures Earliest(recorded, completions, repoId, t) == recorded
  {
    if completions != [] {
      assert completions[|completions| - 1] in completions;
      EarliestUntouched(recorded, completions[..|completions| - 1], repoId, t);
    }
  }

  // Branches always sync all of their history: over every such history their date, like that of discovery, stays what
  // it was.
  lemma BranchesRecordNoDate(s: State, events: seq<Event>, repoId: int, t: TaskType)
    requires t == Branch || t == Repository
    requires s.store.sub.Some? && FindByRepoId(s.store.rows, repoId).Some?
    requires forall e | e in events :: KeepsRows(e) && (e.Delivered? ==> ValidWorld(e.turn.world))
    ensures FromOf(After(s, events).store.rows, repoId, t) == FromOf(s.store.rows, repoId, t)
  {
    hide After, FromOf, FindByRepoId, HistoryCompletions, ValidWorld, KeepsRows;
    FromDateOverHistory(s, events, repoId, t);
    HistoryTracked(s, events);
    EarliestUntouched(FromOf(s.store.rows, repoId, t), HistoryCompletions(s, events), repoId, t);
  }
}
