/**
 * Several workers on one subscription: the handling of a message cut into the steps between which another worker may
 * write (src/sync/installation.ts, src/sqs/backfill-error-handler.ts, src/sqs/sqs.ts). A message may be handled more
 * than once: it becomes visible again when its time is up, while the handler that has it goes on.
 */
module BackfillInterleavings {
  import opened Wrappers
  import opened SyncTypes
  import opened BackfillStore
  import opened BackfillRuns
  import Deduplicator

  /** How far a handler has come. */
  datatype Stage =
    | Reading    // nothing decided
    | Busy       // the subscription was set to ACTIVE, the tasks run or their error is being handled
    | Settled    // nothing is left but to delete the message

  /** A handler of a message; nobody waits any more for a detached one, whose time limit has passed. */
  datatype Handler = Handler(message: nat, stage: Stage, detached: bool)

  /**
   * `status` is absent once the subscription is removed. A queued message is visible or not. `starting` counts the
   * starts between their write and their send.
   */
  datatype Fleet = Fleet(status: Option<SyncStatus>, messages: map<nat, bool>, handlers: map<nat, Handler>,
                         nextId: nat, starting: nat)
  {
    ghost predicate Valid() {
      && (forall m :: m in messages ==> m < nextId)
      && (forall h :: h in handlers ==> h < nextId && handlers[h].message < nextId)
    }

    predicate Running() {
      status.Some? && !Stopped(status.value)
    }

    predicate At(h: nat, stage: Stage) {
      h in handlers && handlers[h].stage == stage
    }

    predicate Attached(h: nat) {
      h in handlers && !handlers[h].detached
    }

    function Move(h: nat, stage: Stage): Fleet
      requires h in handlers
    {
      this.(handlers := handlers[h := handlers[h].(stage := stage)])
    }

    function Write(newStatus: SyncStatus): Fleet {
      if status.Some? then this.(status := Some(newStatus)) else this
    }

    function Send(): Fleet {
      this.(messages := messages[nextId := true], nextId := nextId + 1)
    }

    function Show(m: nat): Fleet {
      if m in messages then this.(messages := messages[m := true]) else this
    }

    function Vanish(h: nat): Fleet {
      this.(handlers := handlers - {h})
    }

    /** The message is queued, and no handler is about to delete it. */
    ghost predicate Pending(m: nat) {
      m in messages && forall h :: Deletes(h, m) ==> false
    }

    predicate Deletes(h: nat, m: nat) {
      h in handlers && handlers[h] == Handler(m, Settled, false)
    }
  }

  datatype Step =
    | Receive(m: nat)                     // a worker starts to handle a visible message
    | Expire(m: nat)                      // the message is visible again
    | TimeOut(h: nat)                     // the limit of the handler has passed; it goes on
    | PutOff(h: nat)                      // rate limit or duplicate: a copy is sent
    | Drop(h: nat)                        // blocked installation or discarded duplicate: nothing is sent
    | Decide(h: nat, nothingLeft: bool)
    | Continue(h: nat)                    // the successor is sent
    | Retry(h: nat)                       // an error of an earlier attempt: the message is left for another
    | Stop(h: nat)                        // discovery failed
    | Delete(h: nat)
    | Crash(h: nat)                       // a worker dies, cannot delete its message, or fails after its time limit
    | BeginStart
    | EndStart
    | AbandonStart
    | Remove

  predicate Enabled(f: Fleet, step: Step) {
    match step
    case Receive(m) => m in f.messages && f.messages[m]
    case Expire(m) => m in f.messages && !f.messages[m]
    case TimeOut(h) => f.Attached(h)
    case PutOff(h) => f.At(h, Reading)
    case Drop(h) => f.At(h, Reading)
    case Decide(h, _) => f.At(h, Reading)
    case Continue(h) => f.At(h, Busy)
    case Retry(h) => f.At(h, Busy) && f.Attached(h)
    case Stop(h) => f.At(h, Busy) && f.Attached(h)
    case Delete(h) => f.At(h, Settled) && f.Attached(h)
    case Crash(h) => h in f.handlers
    case BeginStart => f.status.Some?
    case EndStart => f.starting > 0
    case AbandonStart => f.starting > 0
    case Remove => true
  }

  /** What was read before a decision may be out of date, so a decision is free in its answer. */
  function Apply(f: Fleet, step: Step): Fleet
    requires Enabled(f, step)
  {
    match step
    case Receive(m) =>
      f.(messages := f.messages[m := false], handlers := f.handlers[f.nextId := Handler(m, Reading, false)],
         nextId := f.nextId + 1)
    case Expire(m) => f.Show(m)
    case TimeOut(h) => f.(handlers := f.handlers[h := f.handlers[h].(detached := true)])
    case PutOff(h) => f.Send().Move(h, Settled)
    case Drop(h) => f.Move(h, Settled)
    case Decide(h, nothingLeft) =>
      if f.status.None? then f.Move(h, Settled)
      else if nothingLeft then f.Write(COMPLETE).Move(h, Settled)
      else f.Write(ACTIVE).Move(h, Busy)
    case Continue(h) => if f.status.None? then f.Move(h, Settled) else f.Send().Move(h, Settled)
    case Retry(h) => f.Show(f.handlers[h].message).Vanish(h)
    case Stop(h) => f.Write(FAILED).Move(h, Settled)
    case Delete(h) => f.(messages := f.messages - {f.handlers[h].message}).Vanish(h)
    case Crash(h) => f.Vanish(h)
    case BeginStart => f.Write(PENDING).(starting := f.starting + 1)
    case EndStart => f.Send().(starting := f.starting - 1)
    case AbandonStart => f.(starting := f.starting - 1)
    case Remove => f.(status := None)
  }

  predicate Possible(f: Fleet, steps: seq<Step>)
    decreases |steps|
  {
    steps == [] || (Enabled(f, steps[0]) && Possible(Apply(f, steps[0]), steps[1..]))
  }

  function AfterAll(f: Fleet, steps: seq<Step>): Fleet
    requires Possible(f, steps)
    decreases |steps|
  {
    if steps == [] then f else AfterAll(Apply(f, steps[0]), steps[1..])
  }

  // ---- No sync gets stuck -------------------------------------------------------------------------------------------

  ghost predicate SomethingPending(f: Fleet) {
    exists m :: f.Pending(m)
  }

  /** A sync that has not stopped has a queued message that nobody is about to delete, or a start about to send one. */
  ghost predicate KeptGoing(f: Fleet) {
    f.Valid() && (f.Running() ==> SomethingPending(f) || f.starting > 0)
  }

  /** The only pending message, if any, is the one of this attached handler. */
  ghost predicate HasLastMessage(f: Fleet, h: nat)
    requires h in f.handlers
  {
    forall m :: f.Pending(m) ==> f.Attached(h) && m == f.handlers[h].message
  }

  /**
   * The three ways to strand a sync: dropping its last message; setting it to ACTIVE again when it had stopped and
   * every message was settled; and dying in the middle of a start.
   */
  ghost predicate Strands(f: Fleet, step: Step)
    requires Enabled(f, step)
  {
    match step
    case Drop(h) => f.Running() && f.starting == 0 && HasLastMessage(f, h)
    case Decide(_, nothingLeft) =>
      !nothingLeft && f.status.Some? && Stopped(f.status.value) && f.starting == 0 && !SomethingPending(f)
    case AbandonStart => f.Running() && f.starting == 1 && !SomethingPending(f)
    case _ => false
  }

  // A new message is pending.
  lemma SentIsPending(f: Fleet, h: nat)
    requires f.Valid() && h in f.handlers
    ensures f.Send().Move(h, Settled).Pending(f.nextId) && f.Send().Pending(f.nextId)
  {
  }

  // A handler that gets no further than Busy, or vanishes, settles nothing.
  lemma PendingStays(f: Fleet, g: Fleet, m: nat)
    requires f.Pending(m) && m in g.messages
    requires forall h :: g.Deletes(h, m) ==> f.Deletes(h, m)
    ensures g.Pending(m)
  {
  }

  // Main result, one step: it leaves a sync that has not stopped without a message if and only if it is one of the
  // three.
  lemma StepStrandsIff(f: Fleet, step: Step)
    requires KeptGoing(f) && Enabled(f, step)
    ensures Apply(f, step).Valid()
    ensures !KeptGoing(Apply(f, step)) <==> Strands(f, step)
  {
    match step
    case PutOff(h) => SentIsPending(f, h);
    case Continue(h) => SentIsPending(f, h);
    case EndStart => SentByStart(f);
    case Drop(h) => DropStrandsIff(f, h);
    case Decide(h, nothingLeft) => DecideStrandsIff(f, h, nothingLeft);
    case AbandonStart => SamePending(f, Apply(f, step));
    case Stop(_) =>
    case _ => OtherStepsKeepPending(f, step);
  }

  lemma SentByStart(f: Fleet)
    requires f.Valid()
    ensures f.Send().(starting := 0).Pending(f.nextId)
    ensures forall n: nat :: f.Send().(starting := n).Pending(f.nextId)
  {
  }

  lemma SamePending(f: Fleet, g: Fleet)
    requires g.messages == f.messages && g.handlers == f.handlers
    ensures SomethingPending(g) <==> SomethingPending(f)
  {
    forall m
      ensures g.Pending(m) <==> f.Pending(m)
    {
      assert forall h :: g.Deletes(h, m) <==> f.Deletes(h, m);
    }
  }

  lemma DropStrandsIff(f: Fleet, h: nat)
    requires KeptGoing(f) && f.At(h, Reading)
    ensures SomethingPending(f.Move(h, Settled)) <==>
              exists m :: f.Pending(m) && !(f.Attached(h) && m == f.handlers[h].message)
  {
    var g := f.Move(h, Settled);
    forall m
      ensures g.Pending(m) <==> f.Pending(m) && !(f.Attached(h) && m == f.handlers[h].message)
    {
      if f.Attached(h) && m == f.handlers[h].message {
        assert g.Deletes(h, m);
      } else if f.Pending(m) {
        PendingStays(f, g, m);
      } else if g.Pending(m) {
        forall other
          ensures !f.Deletes(other, m)
        {
          assert other != h ==> (f.Deletes(other, m) <==> g.Deletes(other, m));
        }
      }
    }
  }

  lemma DecideStrandsIff(f: Fleet, h: nat, nothingLeft: bool)
    requires KeptGoing(f) && f.At(h, Reading)
    ensures SomethingPending(f.Write(ACTIVE).Move(h, Busy)) <==> SomethingPending(f)
  {
    var g := f.Write(ACTIVE).Move(h, Busy);
    forall m
      ensures g.Pending(m) <==> f.Pending(m)
    {
      assert forall other :: g.Deletes(other, m) <==> f.Deletes(other, m);
    }
  }

  lemma OtherStepsKeepPending(f: Fleet, step: Step)
    requires KeptGoing(f) && Enabled(f, step)
    requires step.Receive? || step.Expire? || step.TimeOut? || step.Retry? || step.Delete? || step.Crash?
        || step.BeginStart?
             || step.Remove?
    ensures Apply(f, step).Valid() && (SomethingPending(f) ==> SomethingPending(Apply(f, step)))
  {
    var g := Apply(f, step);
    if m :| f.Pending(m) {
      if step.Delete? {
        assert f.Deletes(step.h, f.handlers[step.h].message);
      }
      PendingStays(f, g, m);
    }
  }

  ghost predicate AlwaysGoing(f: Fleet, steps: seq<Step>)
    requires Possible(f, steps)
    decreases |steps|
  {
    KeptGoing(f) && (steps == [] || AlwaysGoing(Apply(f, steps[0]), steps[1..]))
  }

  ghost predicate NeverStrands(f: Fleet, steps: seq<Step>)
    requires Possible(f, steps)
    decreases |steps|
  {
    steps == [] || (!Strands(f, steps[0]) && NeverStrands(Apply(f, steps[0]), steps[1..]))
  }

  // Main result: in every interleaving of any number of workers, with crashes, time limits, redelivery, starts and
  // removals, a sync that has not stopped always has a queued message that nobody is about to delete, or a start about
  // to send one, if and only if no step strands it.
  lemma {:induction false} NeverStuckInAnyInterleaving(f: Fleet, steps: seq<Step>)
    requires KeptGoing(f) && Possible(f, steps)
    ensures AlwaysGoing(f, steps) <==> NeverStrands(f, steps)
    decreases |steps|
  {
    hide Apply, Enabled, KeptGoing, Strands;
    if steps != [] {
      StepStrandsIff(f, steps[0]);
      if KeptGoing(Apply(f, steps[0])) {
        NeverStuckInAnyInterleaving(Apply(f, steps[0]), steps[1..]);
      }
    }
  }

  // ---- What the time limits are for ---------------------------------------------------------------------------------

  /**
   * The visibility of a message outlasts the time limit of its handler, by two seconds, so a message is visible again
   * only when nobody waits for a handler of it.
   */
  ghost predicate Outlasts(f: Fleet, step: Step) {
    step.Expire? ==> forall h :: f.Attached(h) ==> f.handlers[h].message != step.m
  }

  /** And a handler comes to its decision within its limit. */
  ghost predicate Timely(f: Fleet, step: Step) {
    Outlasts(f, step) && (step.Decide? ==> f.Attached(step.h))
  }

  /** A message has one attached handler at most, and none while it is visible or when it is gone. */
  ghost predicate OneHandler(f: Fleet) {
    && (forall h :: f.Attached(h) ==> f.handlers[h].message in f.messages && !f.messages[f.handlers[h].message])
    && (forall h, other :: f.Attached(h) && f.Attached(other) && f.handlers[h].message == f.handlers[other].message ==>
          h == other)
  }

  lemma OneHandlerStays(f: Fleet, step: Step)
    requires f.Valid() && OneHandler(f) && Enabled(f, step) && Outlasts(f, step)
    ensures OneHandler(Apply(f, step))
  {
    var g := Apply(f, step);
    forall h | g.Attached(h)
      ensures g.handlers[h].message in g.messages && !g.messages[g.handlers[h].message]
    {
      assert f.Attached(h) || (step.Receive? && h == f.nextId);
    }
    forall h, other | g.Attached(h) && g.Attached(other) && g.handlers[h].message == g.handlers[other].message
      ensures h == other
    {
      assert f.Attached(h) || (step.Receive? && h == f.nextId);
      assert f.Attached(other) || (step.Receive? && other == f.nextId);
    }
  }

  // A handler that decides in time has a pending message: its own.
  lemma OwnMessageIsPending(f: Fleet, h: nat)
    requires OneHandler(f) && f.Attached(h) && !f.At(h, Settled)
    ensures f.Pending(f.handlers[h].message)
  {
    forall other
      ensures !f.Deletes(other, f.handlers[h].message)
    {
      if f.Deletes(other, f.handlers[h].message) {
        assert f.Attached(other);
      }
    }
  }

  /** The code itself gives up: it drops the last message, or dies in the middle of a start. */
  ghost predicate GivesUp(f: Fleet, step: Step)
    requires Enabled(f, step)
  {
    (step.Drop? || step.AbandonStart?) && Strands(f, step)
  }

  ghost predicate TimelyAndFaithful(f: Fleet, steps: seq<Step>)
    requires Possible(f, steps)
    decreases |steps|
  {
    steps == []
    || (Timely(f, steps[0]) && !GivesUp(f, steps[0]) && TimelyAndFaithful(Apply(f, steps[0]), steps[1..]))
  }

  // Main result: as long as the visibility of a message outlasts its handler's time limit and decisions are made in
  // time, no interleaving strands a sync, unless it drops the last message or dies in the middle of a start. The lock
  // is not needed for this.
  lemma {:induction false} TimelyFleetKeepsGoing(f: Fleet, steps: seq<Step>)
    requires KeptGoing(f) && OneHandler(f) && Possible(f, steps) && TimelyAndFaithful(f, steps)
    ensures AlwaysGoing(f, steps)
    decreases |steps|
  {
    if steps != [] {
      var step := steps[0];
      if step.Decide? {
        OwnMessageIsPending(f, step.h);
      }
      assert !Strands(f, step);
      hide Apply, Enabled, KeptGoing, Strands, GivesUp, Timely, OneHandler;
      assert f.Valid() by {
        KeptGoingIsValid(f);
      }
      StepStrandsIff(f, step);
      OneHandlerStays(f, step);
      TimelyFleetKeepsGoing(Apply(f, step), steps[1..]);
    }
  }

  lemma KeptGoingIsValid(f: Fleet)
    requires KeptGoing(f)
    ensures f.Valid()
  {
  }

  // ---- The lock alone is not enough ---------------------------------------------------------------------------------

  /** What the lock guarantees: at most one handler runs its tasks. */
  predicate OneBusy(f: Fleet) {
    forall h, other | h in f.handlers && other in f.handlers :: f.At(h, Busy) && f.At(other, Busy) ==> h == other
  }

  predicate OneAtATime(f: Fleet, steps: seq<Step>)
    requires Possible(f, steps)
    decreases |steps|
  {
    OneBusy(f) && (steps == [] || OneAtATime(Apply(f, steps[0]), steps[1..]))
  }

  /** Some run from here strands the sync although its tasks never run twice at a time. */
  ghost predicate StrandedUnderLock(f: Fleet) {
    exists steps :: Possible(f, steps) && OneAtATime(f, steps) && !KeptGoing(AfterAll(f, steps))
  }

  lemma StrandedEarlier(f: Fleet, step: Step, g: Fleet)
    requires OneBusy(f) && Enabled(f, step) && Apply(f, step) == g && StrandedUnderLock(g)
    ensures StrandedUnderLock(f)
  {
    hide Apply, Enabled, KeptGoing, OneBusy;
    var rest :| Possible(g, rest) && OneAtATime(g, rest) && !KeptGoing(AfterAll(g, rest));
    var steps := [step] + rest;
    assert steps[1..] == rest;
    assert Possible(f, steps) && OneAtATime(f, steps) && AfterAll(f, steps) == AfterAll(g, rest);
  }

  // A first handler outlives its time limit before it decides. A second one meets a failing discovery, stops the sync
  // and deletes the message; then the first one sets the sync to ACTIVE again, with nothing queued should it die.
  lemma LockIsNotEnough(m: nat)
    ensures var f := Fleet(Some(ACTIVE), map[m := true], map[], m + 1, 0);
            KeptGoing(f) && OneHandler(f) && StrandedUnderLock(f)
  {
    var first, second := m + 1, m + 2;
    var f := Fleet(Some(ACTIVE), map[m := true], map[], m + 1, 0);
    var reading := Fleet(Some(ACTIVE), map[m := false], map[first := Handler(m, Reading, false)], m + 2, 0);
    var late := Fleet(Some(ACTIVE), map[m := false], map[first := Handler(m, Reading, true)], m + 2, 0);
    var shown := late.(messages := map[m := true]);
    var twice := Fleet(Some(ACTIVE), map[m := false],
                       map[first := Handler(m, Reading, true), second := Handler(m, Reading, false)], m + 3, 0);
    assert f.Pending(m);
    assert Apply(f, Receive(m)) == reading;
    assert Apply(reading, TimeOut(first)) == late;
    assert Apply(late, Expire(m)) == shown;
    assert Apply(shown, Receive(m)) == twice;
    StoppedAndRestarted(m);
    hide Apply, StrandedUnderLock;
    StrandedEarlier(shown, Receive(m), twice);
    StrandedEarlier(late, Expire(m), shown);
    StrandedEarlier(reading, TimeOut(first), late);
    StrandedEarlier(f, Receive(m), reading);
  }

  /** The first handler alone, after the second one has stopped the sync and deleted the message. */
  function LeftAlone(m: nat): Fleet {
    Fleet(Some(FAILED), map[], map[m + 1 := Handler(m, Reading, true)], m + 3, 0)
  }

  lemma Restarted(m: nat)
    ensures StrandedUnderLock(LeftAlone(m))
  {
    var again := Fleet(Some(ACTIVE), map[], map[m + 1 := Handler(m, Busy, true)], m + 3, 0);
    assert Apply(LeftAlone(m), Decide(m + 1, false)) == again;
    assert StrandedUnderLock(again) by {
      assert Possible(again, []) && OneAtATime(again, []) && !KeptGoing(AfterAll(again, []));
    }
    hide Apply, StrandedUnderLock;
    StrandedEarlier(LeftAlone(m), Decide(m + 1, false), again);
  }

  lemma StoppedAndRestarted(m: nat)
    ensures StrandedUnderLock(Fleet(Some(ACTIVE), map[m := false],
                                    map[m + 1 := Handler(m, Reading, true), m + 2 := Handler(m, Reading, false)],
                                    m + 3, 0))
  {
    hide StrandedUnderLock;
    var first, second := m + 1, m + 2;
    var twice := Fleet(Some(ACTIVE), map[m := false],
                       map[first := Handler(m, Reading, true), second := Handler(m, Reading, false)], m + 3, 0);
    var busy := twice.(handlers := map[first := Handler(m, Reading, true), second := Handler(m, Busy, false)]);
    var settled := twice.(status := Some(FAILED),
      handlers := map[first := Handler(m, Reading, true), second := Handler(m, Settled, false)]);
    assert Apply(twice, Decide(second, false)) == busy;
    assert Apply(busy, Stop(second)) == settled;
    assert Apply(settled, Delete(second)) == LeftAlone(m) by {
      assert settled.messages - {m} == map[];
      assert settled.handlers - {second} == map[first := Handler(m, Reading, true)];
    }
    hide Apply;
    Restarted(m);
    StrandedEarlier(settled, Delete(second), LeftAlone(m));
    StrandedEarlier(busy, Stop(second), settled);
    StrandedEarlier(twice, Decide(second, false), busy);
  }

  // ---- Messages do not multiply -------------------------------------------------------------------------------------

  function VisibleIn(messages: map<nat, bool>): set<nat> {
    set m | m in messages && messages[m]
  }

  predicate MaySend(handler: Handler) {
    handler.stage != Settled
  }

  function SendersIn(handlers: map<nat, Handler>): set<nat> {
    set h | h in handlers && MaySend(handlers[h])
  }

  /** What may still lead to a message: the visible messages, and the handlers that have sent nothing yet. */
  function Leads(f: Fleet): nat {
    |VisibleIn(f.messages)| + |SendersIn(f.handlers)|
  }

  lemma VisibleAfter(messages: map<nat, bool>, m: nat, visible: bool)
    ensures var before, after := VisibleIn(messages), VisibleIn(messages[m := visible]);
            && after == (if visible then before + {m} else before - {m})
            && |after| == |before| + (if visible && m !in before then 1 else if !visible && m in before then -1 else 0)
  {
    var before, after := VisibleIn(messages), VisibleIn(messages[m := visible]);
    assert after == if visible then before + {m} else before - {m};
    assert m in before ==> before + {m} == before;
    assert m !in before ==> before - {m} == before;
  }

  lemma VisibleAfterRemoval(messages: map<nat, bool>, m: nat)
    ensures |VisibleIn(messages - {m})| == |VisibleIn(messages)| - if m in VisibleIn(messages) then 1 else 0
  {
    assert VisibleIn(messages - {m}) == VisibleIn(messages) - {m};
    assert m !in VisibleIn(messages) ==> VisibleIn(messages) - {m} == VisibleIn(messages);
  }

  lemma SendersAfter(handlers: map<nat, Handler>, h: nat, handler: Handler)
    ensures var before := SendersIn(handlers);
            |SendersIn(handlers[h := handler])| ==
            |before| + (if MaySend(handler) && h !in before then 1
                        else if !MaySend(handler) && h in before then -1 else 0)
  {
    var before, after := SendersIn(handlers), SendersIn(handlers[h := handler]);
    assert after == if MaySend(handler) then before + {h} else before - {h};
    assert h in before ==> before + {h} == before;
    assert h !in before ==> before - {h} == before;
  }

  lemma SendersAfterRemoval(handlers: map<nat, Handler>, h: nat)
    ensures |SendersIn(handlers - {h})| == |SendersIn(handlers)| - if h in SendersIn(handlers) then 1 else 0
  {
    assert SendersIn(handlers - {h}) == SendersIn(handlers) - {h};
    assert h !in SendersIn(handlers) ==> SendersIn(handlers) - {h} == SendersIn(handlers);
  }

  lemma VisibleMeans(f: Fleet, m: nat)
    ensures m in VisibleIn(f.messages) <==> m in f.messages && f.messages[m]
  {
  }

  lemma SendersMeans(f: Fleet, h: nat)
    ensures h in SendersIn(f.handlers) <==> h in f.handlers && MaySend(f.handlers[h])
  {
  }

  /** The steps that add something: a message comes back while its handler may still be at work, and a start. */
  function Added(step: Step): nat {
    if step.Expire? || step.EndStart? then 1 else 0
  }

  lemma MoveLeads(f: Fleet, h: nat, stage: Stage)
    requires h in f.handlers && MaySend(f.handlers[h])
    ensures Leads(f.Move(h, stage)) == Leads(f) - if stage == Settled then 1 else 0
  {
    hide VisibleIn, SendersIn;
    SendersMeans(f, h);
    SendersAfter(f.handlers, h, f.handlers[h].(stage := stage));
  }

  lemma SendLeads(f: Fleet)
    requires f.Valid()
    ensures Leads(f.Send()) == Leads(f) + 1
  {
    hide VisibleIn, SendersIn;
    VisibleMeans(f, f.nextId);
    VisibleAfter(f.messages, f.nextId, true);
  }

  lemma VanishLeads(f: Fleet, h: nat)
    requires h in f.handlers
    ensures Leads(f.Vanish(h)) == Leads(f) - if MaySend(f.handlers[h]) then 1 else 0
  {
    hide VisibleIn, SendersIn;
    SendersMeans(f, h);
    SendersAfterRemoval(f.handlers, h);
  }

  lemma ShowLeads(f: Fleet, m: nat)
    ensures Leads(f.Show(m)) == Leads(f) + if m in f.messages && !f.messages[m] then 1 else 0
  {
    hide VisibleIn, SendersIn;
    VisibleMeans(f, m);
    if m in f.messages {
      VisibleAfter(f.messages, m, true);
    }
  }

  lemma ReceiveLeads(f: Fleet, m: nat)
    requires f.Valid() && Enabled(f, Receive(m))
    ensures Leads(Apply(f, Receive(m))) == Leads(f)
  {
    hide VisibleIn, SendersIn;
    VisibleMeans(f, m);
    VisibleAfter(f.messages, m, false);
    SendersMeans(f, f.nextId);
    SendersAfter(f.handlers, f.nextId, Handler(m, Reading, false));
  }

  lemma TimeOutLeads(f: Fleet, h: nat)
    requires f.Attached(h)
    ensures Leads(Apply(f, TimeOut(h))) == Leads(f)
  {
    hide VisibleIn, SendersIn;
    SendersMeans(f, h);
    SendersAfter(f.handlers, h, f.handlers[h].(detached := true));
  }

  lemma StepConserves(f: Fleet, step: Step)
    requires f.Valid() && Enabled(f, step)
    ensures Leads(Apply(f, step)) <= Leads(f) + Added(step)
    ensures Leads(Apply(f, step)) > Leads(f) <==> Added(step) > 0
  {
    hide Leads;
    match step
    case Receive(m) => ReceiveLeads(f, m);
    case Expire(m) => ShowLeads(f, m);
    case TimeOut(h) => TimeOutLeads(f, h);
    case PutOff(h) =>
      SendLeads(f);
      MoveLeads(f.Send(), h, Settled);
    case Drop(h) => MoveLeads(f, h, Settled);
    case Decide(h, nothingLeft) =>
      SameLeads(f, f.Write(COMPLETE));
      SameLeads(f, f.Write(ACTIVE));
      MoveLeads(f, h, Settled);
      MoveLeads(f.Write(COMPLETE), h, Settled);
      MoveLeads(f.Write(ACTIVE), h, Busy);
    case Continue(h) =>
      SendLeads(f);
      MoveLeads(f.Send(), h, Settled);
      MoveLeads(f, h, Settled);
    case Retry(h) =>
      ShowLeads(f, f.handlers[h].message);
      VanishLeads(f.Show(f.handlers[h].message), h);
    case Stop(h) =>
      SameLeads(f, f.Write(FAILED));
      MoveLeads(f.Write(FAILED), h, Settled);
    case Delete(h) => DeleteLeads(f, h);
    case Crash(h) => VanishLeads(f, h);
    case BeginStart => SameLeads(f, Apply(f, step));
    case EndStart =>
      SendLeads(f);
      SameLeads(f.Send(), Apply(f, step));
    case AbandonStart => SameLeads(f, Apply(f, step));
    case Remove => SameLeads(f, Apply(f, step));
  }

  lemma SameLeads(f: Fleet, g: Fleet)
    requires g.messages == f.messages && g.handlers == f.handlers
    ensures Leads(g) == Leads(f)
  {
  }

  lemma DeleteLeads(f: Fleet, h: nat)
    requires Enabled(f, Delete(h))
    ensures Leads(Apply(f, Delete(h))) == Leads(f) - if f.handlers[h].message in VisibleIn(f.messages) then 1 else 0
  {
    hide VisibleIn, SendersIn;
    SendersMeans(f, h);
    SendersAfterRemoval(f.handlers, h);
    VisibleAfterRemoval(f.messages, f.handlers[h].message);
  }

  function AddedByAll(steps: seq<Step>): nat {
    if steps == [] then 0 else Added(steps[0]) + AddedByAll(steps[1..])
  }

  // Messages and handlers together: there is never more that may lead to a message than at the beginning, and one more
  // for every start, and for every time a message came back.
  lemma {:induction false} MessagesDoNotMultiply(f: Fleet, steps: seq<Step>)
    requires f.Valid() && Possible(f, steps)
    ensures Leads(AfterAll(f, steps)) <= Leads(f) + AddedByAll(steps)
    decreases |steps|
  {
    hide Apply, Enabled, Added, Leads, Fleet.Valid;
    if steps != [] {
      StepConserves(f, steps[0]);
      StepKeepsValid(f, steps[0]);
      MessagesDoNotMultiply(Apply(f, steps[0]), steps[1..]);
    }
  }

  lemma StepKeepsValid(f: Fleet, step: Step)
    requires f.Valid() && Enabled(f, step)
    ensures Apply(f, step).Valid()
  {
  }

  // ---- What multiplies messages -------------------------------------------------------------------------------------

  ghost function PendingIn(f: Fleet): set<nat> {
    set m | m in f.messages && f.Pending(m)
  }

  predicate IsLate(handler: Handler) {
    handler.detached && MaySend(handler)
  }

  function LateIn(handlers: map<nat, Handler>): set<nat> {
    set h | h in handlers && IsLate(handlers[h])
  }

  /** The pending messages, and the handlers past their time limit that may still send: each can become a message. */
  ghost function Lines(f: Fleet): nat {
    |PendingIn(f)| + |LateIn(f.handlers)|
  }

  /**
   * A start sends its message; the limit of a handler passes while it goes on; a worker that has only to delete its
   * message, having sent the successor where there is one, dies or fails to delete it.
   */
  predicate Multiplies(f: Fleet, step: Step) {
    step.EndStart? || step.TimeOut? || (step.Crash? && f.Attached(step.h) && f.At(step.h, Settled))
  }

  lemma PendingMeans(f: Fleet, m: nat)
    ensures m in PendingIn(f) <==> f.Pending(m)
  {
  }

  lemma PendingSame(f: Fleet, g: Fleet)
    requires g.messages.Keys == f.messages.Keys
    requires forall h, m :: g.Deletes(h, m) <==> f.Deletes(h, m)
    ensures PendingIn(g) == PendingIn(f)
  {
    forall m
      ensures g.Pending(m) <==> f.Pending(m)
    {
    }
  }

  lemma OneMoreIn(s: set<nat>, t: set<nat>, x: nat)
    requires t - {x} == s - {x} && x in t && x !in s
    ensures |t| == |s| + 1
  {
    assert t == s + {x} by {
      forall y
        ensures y in t <==> y in s + {x}
      {
        assert y != x ==> (y in t - {x} <==> y in s - {x});
      }
    }
  }

  lemma LateAfter(handlers: map<nat, Handler>, h: nat, handler: Handler)
    ensures var before := LateIn(handlers);
            |LateIn(handlers[h := handler])| ==
            |before| + (if IsLate(handler) && h !in before then 1
                        else if !IsLate(handler) && h in before then -1 else 0)
  {
    var before, after := LateIn(handlers), LateIn(handlers[h := handler]);
    assert after == if IsLate(handler) then before + {h} else before - {h};
    assert h in before ==> before + {h} == before;
    assert h !in before ==> before - {h} == before;
  }

  lemma LateAfterRemoval(handlers: map<nat, Handler>, h: nat)
    ensures |LateIn(handlers - {h})| == |LateIn(handlers)| - if h in LateIn(handlers) then 1 else 0
  {
    assert LateIn(handlers - {h}) == LateIn(handlers) - {h};
    assert h !in LateIn(handlers) ==> LateIn(handlers) - {h} == LateIn(handlers);
  }

  lemma LateMeans(f: Fleet, h: nat)
    ensures h in LateIn(f.handlers) <==> h in f.handlers && IsLate(f.handlers[h])
  {
  }

  lemma SameLines(f: Fleet, g: Fleet)
    requires g.messages.Keys == f.messages.Keys && g.handlers == f.handlers
    ensures Lines(g) == Lines(f)
  {
    hide LateIn, PendingIn;
    PendingSame(f, g);
  }

  lemma SentPending(f: Fleet, m: nat)
    requires f.Valid()
    ensures f.Send().Pending(m) <==> f.Pending(m) || m == f.nextId
  {
    assert forall h :: f.Send().Deletes(h, m) <==> f.Deletes(h, m);
  }

  lemma SentLines(f: Fleet)
    requires f.Valid()
    ensures Lines(f.Send()) == Lines(f) + 1
  {
    hide LateIn, PendingIn, Fleet.Pending;
    var g := f.Send();
    forall m
      ensures m in PendingIn(g) <==> m in PendingIn(f) || m == f.nextId
    {
      SentPending(f, m);
      PendingMeans(f, m);
      PendingMeans(g, m);
    }
    assert f.nextId !in PendingIn(f) by {
      PendingIsQueued(f, f.nextId);
    }
    OneMoreIn(PendingIn(f), PendingIn(g), f.nextId);
  }

  lemma PendingIsQueued(f: Fleet, m: nat)
    ensures m in PendingIn(f) ==> m in f.messages
  {
  }

  // A handler that settles, or a settled one that vanishes or is given up, changes what is pending of its message only.
  lemma PendingButOne(f: Fleet, g: Fleet, h: nat)
    requires h in f.handlers && g.messages.Keys == f.messages.Keys
    requires forall other, m :: m != f.handlers[h].message ==> (g.Deletes(other, m) <==> f.Deletes(other, m))
    ensures PendingIn(g) - {f.handlers[h].message} == PendingIn(f) - {f.handlers[h].message}
  {
    forall m | m != f.handlers[h].message
      ensures g.Pending(m) <==> f.Pending(m)
    {
    }
  }

  lemma SettledLines(f: Fleet, h: nat)
    requires OneHandler(f) && h in f.handlers && MaySend(f.handlers[h])
    ensures Lines(f.Move(h, Settled)) == Lines(f) - 1
  {
    hide LateIn, PendingIn;
    var g, m := f.Move(h, Settled), f.handlers[h].message;
    LateMeans(f, h);
    LateAfter(f.handlers, h, f.handlers[h].(stage := Settled));
    if f.Attached(h) {
      OwnMessageIsPending(f, h);
      assert g.Deletes(h, m);
      PendingButOne(f, g, h);
      PendingMeans(f, m);
      PendingMeans(g, m);
      OneMoreIn(PendingIn(g), PendingIn(f), m);
    } else {
      PendingSame(f, g);
    }
  }

  lemma BusyLines(f: Fleet, h: nat)
    requires f.At(h, Reading)
    ensures Lines(f.Move(h, Busy)) == Lines(f)
  {
    hide LateIn, PendingIn;
    LateMeans(f, h);
    LateAfter(f.handlers, h, f.handlers[h].(stage := Busy));
    PendingSame(f, f.Move(h, Busy));
  }

  // The message of a settled handler is pending as soon as nobody waits for the handler any more.
  lemma ReleasedIsPending(f: Fleet, g: Fleet, h: nat)
    requires OneHandler(f) && f.Attached(h) && f.At(h, Settled) && g.messages.Keys == f.messages.Keys
    requires forall other :: g.Attached(other) ==> other != h && f.Attached(other)
                                                   && g.handlers[other] == f.handlers[other]
    requires forall other :: other != h ==> (other in g.handlers <==> other in f.handlers)
    requires forall other :: other != h && other in f.handlers ==> g.handlers[other] == f.handlers[other]
    ensures |PendingIn(g)| == |PendingIn(f)| + 1
  {
    hide PendingIn;
    var m := f.handlers[h].message;
    forall other
      ensures !g.Deletes(other, m)
    {
      assert g.Attached(other) ==> f.handlers[other].message != m;
    }
    assert f.Deletes(h, m);
    PendingButOne(f, g, h);
    PendingMeans(f, m);
    PendingMeans(g, m);
    OneMoreIn(PendingIn(f), PendingIn(g), m);
  }

  lemma TimeOutLines(f: Fleet, h: nat)
    requires OneHandler(f) && f.Attached(h)
    ensures Lines(Apply(f, TimeOut(h))) == Lines(f) + 1
  {
    hide LateIn, PendingIn;
    var g := Apply(f, TimeOut(h));
    LateMeans(f, h);
    LateAfter(f.handlers, h, f.handlers[h].(detached := true));
    if f.At(h, Settled) {
      ReleasedIsPending(f, g, h);
    } else {
      PendingSame(f, g);
    }
  }

  lemma VanishedLines(f: Fleet, h: nat)
    requires OneHandler(f) && h in f.handlers
    ensures var grows, shrinks := f.Attached(h) && f.At(h, Settled), IsLate(f.handlers[h]);
            Lines(f.Vanish(h)) == Lines(f) + if grows then 1 else if shrinks then -1 else 0
  {
    hide LateIn, PendingIn;
    var g := f.Vanish(h);
    LateMeans(f, h);
    LateAfterRemoval(f.handlers, h);
    if f.Attached(h) && f.At(h, Settled) {
      ReleasedIsPending(f, g, h);
    } else {
      PendingSame(f, g);
    }
  }

  lemma ReceivedLines(f: Fleet, m: nat)
    requires f.Valid() && Enabled(f, Receive(m))
    ensures Lines(Apply(f, Receive(m))) == Lines(f)
  {
    hide LateIn, PendingIn;
    LateMeans(f, f.nextId);
    LateAfter(f.handlers, f.nextId, Handler(m, Reading, false));
    PendingSame(f, Apply(f, Receive(m)));
  }

  lemma DeletedLines(f: Fleet, h: nat)
    requires OneHandler(f) && Enabled(f, Delete(h))
    ensures Lines(Apply(f, Delete(h))) == Lines(f)
  {
    hide LateIn;
    var g, m := Apply(f, Delete(h)), f.handlers[h].message;
    LateMeans(f, h);
    LateAfterRemoval(f.handlers, h);
    assert f.Deletes(h, m);
    forall n
      ensures g.Pending(n) <==> f.Pending(n)
    {
      if n != m {
        assert forall other :: g.Deletes(other, n) <==> f.Deletes(other, n);
      }
    }
    assert PendingIn(g) == PendingIn(f);
  }

  lemma RetriedLines(f: Fleet, h: nat)
    requires OneHandler(f) && Enabled(f, Retry(h))
    ensures Lines(Apply(f, Retry(h))) == Lines(f)
  {
    hide Lines;
    SameLines(f, f.Show(f.handlers[h].message));
    VanishedLines(f, h);
    SameLines(f.Vanish(h), Apply(f, Retry(h)));
  }

  lemma OneHandlerAnyway(f: Fleet, g: Fleet)
    requires OneHandler(f) && g.handlers == f.handlers
    requires forall m :: m in f.messages ==> m in g.messages && g.messages[m] == f.messages[m]
    ensures OneHandler(g)
  {
    assert forall h :: g.Attached(h) <==> f.Attached(h);
  }

  // Main result, one step: while messages stay hidden longer than their handlers are waited for, what can become a
  // message grows if and only if the step is one of the three, and then by one.
  lemma StepMultipliesIff(f: Fleet, step: Step)
    requires f.Valid() && OneHandler(f) && Enabled(f, step) && Outlasts(f, step)
    ensures Lines(Apply(f, step)) <= Lines(f) + if Multiplies(f, step) then 1 else 0
    ensures Lines(Apply(f, step)) > Lines(f) <==> Multiplies(f, step)
  {
    hide Lines, OneHandler, Fleet.Valid, Fleet.Move, Fleet.Vanish, Fleet.Send, Fleet.Show;
    match step
    case Receive(m) => ReceivedLines(f, m);
    case Expire(m) => ExpiredLines(f, m);
    case TimeOut(h) => TimeOutLines(f, h);
    case PutOff(h) => SentAndSettled(f, h);
    case Drop(h) => SettledLines(f, h);
    case Decide(h, nothingLeft) => DecidedLines(f, h, nothingLeft);
    case Continue(h) =>
      SentAndSettled(f, h);
      SettledLines(f, h);
    case Retry(h) => RetriedLines(f, h);
    case Stop(h) =>
      OneHandlerAnyway(f, f.Write(FAILED));
      SameLines(f, f.Write(FAILED));
      SettledLines(f.Write(FAILED), h);
    case Delete(h) => DeletedLines(f, h);
    case Crash(h) => VanishedLines(f, h);
    case BeginStart => SameLines(f, Apply(f, step));
    case EndStart =>
      SentLines(f);
      SameLines(f.Send(), Apply(f, step));
    case AbandonStart => SameLines(f, Apply(f, step));
    case Remove => SameLines(f, Apply(f, step));
  }

  lemma ExpiredLines(f: Fleet, m: nat)
    ensures Lines(f.Show(m)) == Lines(f)
  {
    hide Lines;
    SameLines(f, f.Show(m));
  }

  lemma SentAndSettled(f: Fleet, h: nat)
    requires f.Valid() && OneHandler(f) && h in f.handlers && MaySend(f.handlers[h])
    ensures h in f.Send().handlers && Lines(f.Send().Move(h, Settled)) == Lines(f)
  {
    hide Lines, OneHandler;
    SentLines(f);
    OneHandlerAnyway(f, f.Send());
    SettledLines(f.Send(), h);
  }

  lemma DecidedLines(f: Fleet, h: nat, nothingLeft: bool)
    requires OneHandler(f) && Enabled(f, Decide(h, nothingLeft))
    ensures Lines(Apply(f, Decide(h, nothingLeft))) <= Lines(f)
  {
    hide Lines, OneHandler;
    OneHandlerAnyway(f, f.Write(COMPLETE));
    SameLines(f, f.Write(COMPLETE));
    SameLines(f, f.Write(ACTIVE));
    SettledLines(f, h);
    SettledLines(f.Write(COMPLETE), h);
    BusyLines(f.Write(ACTIVE), h);
  }

  ghost predicate OutlastsAlong(f: Fleet, steps: seq<Step>)
    requires Possible(f, steps)
    decreases |steps|
  {
    steps == [] || (Outlasts(f, steps[0]) && OutlastsAlong(Apply(f, steps[0]), steps[1..]))
  }

  function MultipliedBy(f: Fleet, steps: seq<Step>): nat
    requires Possible(f, steps)
    decreases |steps|
  {
    if steps == [] then 0
    else (if Multiplies(f, steps[0]) then 1 else 0) + MultipliedBy(Apply(f, steps[0]), steps[1..])
  }

  ghost predicate LinesNeverGrow(f: Fleet, steps: seq<Step>)
    requires Possible(f, steps)
    decreases |steps|
  {
    steps == []
    || (Lines(Apply(f, steps[0])) <= Lines(f) && LinesNeverGrow(Apply(f, steps[0]), steps[1..]))
  }

  // Main result, whole runs: what can become a message never grows if and only if no step is one of the three, and
  // never by more than their number.
  lemma {:induction false} MultipliesExactly(f: Fleet, steps: seq<Step>)
    requires f.Valid() && OneHandler(f) && Possible(f, steps) && OutlastsAlong(f, steps)
    ensures Lines(AfterAll(f, steps)) <= Lines(f) + MultipliedBy(f, steps)
    ensures LinesNeverGrow(f, steps) <==> MultipliedBy(f, steps) == 0
    ensures AfterAll(f, steps).Valid() && OneHandler(AfterAll(f, steps))
    decreases |steps|
  {
    hide Apply, Enabled, Lines, Outlasts, OneHandler, Multiplies, Fleet.Valid;
    if steps != [] {
      StepMultipliesIff(f, steps[0]);
      StepKeepsValid(f, steps[0]);
      OneHandlerStays(f, steps[0]);
      MultipliesExactly(Apply(f, steps[0]), steps[1..]);
    }
  }

  // ---- The count is reached -----------------------------------------------------------------------------------------

  function HiddenIn(messages: map<nat, bool>): set<nat> {
    set m | m in messages && !messages[m]
  }

  /** A run without any of the three after which at least `n` messages are visible. */
  ghost predicate CanShow(f: Fleet, n: nat) {
    exists steps :: && Possible(f, steps) && OutlastsAlong(f, steps) && MultipliedBy(f, steps) == 0
                    && |VisibleIn(AfterAll(f, steps).messages)| >= n
  }

  lemma CanShowLater(f: Fleet, step: Step, n: nat)
    requires Enabled(f, step) && Outlasts(f, step) && !Multiplies(f, step) && CanShow(Apply(f, step), n)
    ensures CanShow(f, n)
  {
    hide Apply, Enabled, Outlasts, Multiplies, VisibleIn;
    var g := Apply(f, step);
    var rest :| && Possible(g, rest) && OutlastsAlong(g, rest) && MultipliedBy(g, rest) == 0
                && |VisibleIn(AfterAll(g, rest).messages)| >= n;
    var steps := [step] + rest;
    assert steps[1..] == rest;
    assert Possible(f, steps) && OutlastsAlong(f, steps) && MultipliedBy(f, steps) == 0;
    assert AfterAll(f, steps) == AfterAll(g, rest);
  }

  // With nobody late and nothing pending hidden, every line is a visible message.
  lemma NothingHidden(f: Fleet)
    requires LateIn(f.handlers) == {} && PendingIn(f) <= VisibleIn(f.messages)
    ensures CanShow(f, Lines(f))
  {
    hide VisibleIn, PendingIn, LateIn;
    Subset(PendingIn(f), VisibleIn(f.messages));
    assert Possible(f, []) && OutlastsAlong(f, []) && MultipliedBy(f, []) == 0 && AfterAll(f, []) == f;
  }

  lemma Subset(s: set<nat>, t: set<nat>)
    requires s <= t
    ensures |s| <= |t|
  {
    assert t == s + (t - s);
  }

  lemma HiddenAfter(messages: map<nat, bool>, m: nat)
    requires m in messages && !messages[m]
    ensures |HiddenIn(messages[m := true])| < |HiddenIn(messages)|
  {
    assert HiddenIn(messages[m := true]) == HiddenIn(messages) - {m};
  }

  lemma FewerHandlers(f: Fleet, h: nat)
    requires h in f.handlers
    ensures |f.Vanish(h).handlers| < |f.handlers|
  {
    assert f.Vanish(h).handlers.Keys == f.handlers.Keys - {h};
    assert |f.handlers.Keys| == |f.handlers| && |f.Vanish(h).handlers.Keys| == |f.Vanish(h).handlers|;
  }

  /** The step a late handler has left: it sends. */
  function Sending(f: Fleet, h: nat): Step {
    if f.At(h, Reading) then PutOff(h) else Continue(h)
  }

  lemma LateHandlerSent(f: Fleet, h: nat)
    requires f.Valid() && OneHandler(f) && f.status.Some? && h in LateIn(f.handlers)
    ensures var g := Apply(f, Sending(f, h));
            && g == f.Send().Move(h, Settled) && Lines(g) == Lines(f)
            && g.Valid() && OneHandler(g) && g.status == f.status
            && |LateIn(g.handlers)| < |LateIn(f.handlers)|
  {
    hide Lines, LateIn;
    LateMeans(f, h);
    SentAndSettled(f, h);
    OneHandlerStays(f, Sending(f, h));
    StepKeepsValid(f, Sending(f, h));
    LateAfter(f.handlers, h, f.handlers[h].(stage := Settled));
  }

  // The upper bound is exact: unless the subscription is gone, as many messages as there are lines can be visible at
  // once, without any of the three steps, and never more.
  lemma {:induction false} LinesAreReached(f: Fleet)
    requires f.Valid() && OneHandler(f) && f.status.Some?
    ensures CanShow(f, Lines(f))
    decreases |LateIn(f.handlers)|, |f.handlers|, |HiddenIn(f.messages)|
  {
    hide Lines, CanShow, OneHandler, Apply, VisibleIn, PendingIn, LateIn, Fleet.Valid;
    if h :| h in LateIn(f.handlers) {
      LateMeans(f, h);
      LateHandlerSent(f, h);
      LinesAreReached(Apply(f, Sending(f, h)));
      CanShowLater(f, Sending(f, h), Lines(f));
    } else if m :| m in PendingIn(f) && m !in VisibleIn(f.messages) {
      PendingMeans(f, m);
      VisibleMeans(f, m);
      if h :| f.Attached(h) && f.handlers[h].message == m {
        CrashedWithoutLoss(f, h);
        LinesAreReached(Apply(f, Crash(h)));
        CanShowLater(f, Crash(h), Lines(f));
      } else {
        ShownWithoutLoss(f, m);
        LinesAreReached(Apply(f, Expire(m)));
        CanShowLater(f, Expire(m), Lines(f));
      }
    } else {
      assert LateIn(f.handlers) == {};
      NothingHidden(f);
    }
  }

  lemma CrashedWithoutLoss(f: Fleet, h: nat)
    requires f.Valid() && OneHandler(f) && f.Attached(h) && f.Pending(f.handlers[h].message)
    ensures var g := Apply(f, Crash(h));
            && !Multiplies(f, Crash(h)) && Lines(g) == Lines(f) && g.Valid() && OneHandler(g) && g.status == f.status
            && |LateIn(g.handlers)| == |LateIn(f.handlers)| && |g.handlers| < |f.handlers|
  {
    hide Lines, LateIn;
    assert !f.Deletes(h, f.handlers[h].message);
    VanishedLines(f, h);
    OneHandlerStays(f, Crash(h));
    LateMeans(f, h);
    LateAfterRemoval(f.handlers, h);
    FewerHandlers(f, h);
  }

  lemma ShownWithoutLoss(f: Fleet, m: nat)
    requires f.Valid() && OneHandler(f) && m in f.messages && !f.messages[m]
    requires forall h :: f.Attached(h) ==> f.handlers[h].message != m
    ensures var g := Apply(f, Expire(m));
            && Lines(g) == Lines(f) && g.Valid() && OneHandler(g) && g.status == f.status
            && g.handlers == f.handlers && |HiddenIn(g.messages)| < |HiddenIn(f.messages)|
  {
    hide Lines, HiddenIn;
    ExpiredLines(f, m);
    OneHandlerStays(f, Expire(m));
    HiddenAfter(f.messages, m);
  }

  // Never more: a visible message is pending.
  lemma VisibleAtMostLines(f: Fleet, steps: seq<Step>)
    requires f.Valid() && OneHandler(f) && Possible(f, steps) && OutlastsAlong(f, steps)
    ensures |VisibleIn(AfterAll(f, steps).messages)| <= Lines(f) + MultipliedBy(f, steps)
  {
    hide Apply, Enabled, Possible, AfterAll, OutlastsAlong, MultipliedBy, Multiplies, Fleet.Valid;
    MultipliesExactly(f, steps);
    VisibleIsPending(AfterAll(f, steps));
  }

  lemma VisibleIsPending(f: Fleet)
    requires OneHandler(f)
    ensures |VisibleIn(f.messages)| <= Lines(f)
  {
    forall m | m in VisibleIn(f.messages)
      ensures f.Pending(m)
    {
      assert forall h :: f.Deletes(h, m) ==> f.Attached(h);
    }
    Subset(VisibleIn(f.messages), PendingIn(f));
  }

  lemma OneMore(f: Fleet, step: Step, rest: seq<Step>)
    requires Enabled(f, step) && Possible(Apply(f, step), rest)
    ensures Possible(f, [step] + rest) && AfterAll(f, [step] + rest) == AfterAll(Apply(f, step), rest)
    ensures AddedByAll([step] + rest) == Added(step) + AddedByAll(rest)
  {
    hide Apply, Enabled;
    assert ([step] + rest)[1..] == rest;
  }

  /** A handler is at work on a message that has become visible again. */
  function Late(m: nat): Fleet {
    Fleet(Some(ACTIVE), map[m := true], map[m + 1 := Handler(m, Busy, true)], m + 2, 0)
  }

  lemma BecomesLate(m: nat, rest: seq<Step>)
    requires Possible(Late(m), rest)
    ensures var f := Fleet(Some(ACTIVE), map[m := true], map[], m + 1, 0);
            exists steps :: Possible(f, steps) && AddedByAll(steps) == 1 + AddedByAll(rest)
                            && AfterAll(f, steps) == AfterAll(Late(m), rest)
  {
    var h := m + 1;
    var f := Fleet(Some(ACTIVE), map[m := true], map[], m + 1, 0);
    var reading := Fleet(Some(ACTIVE), map[m := false], map[h := Handler(m, Reading, false)], m + 2, 0);
    var busy := reading.(handlers := map[h := Handler(m, Busy, false)]);
    var timedOut := reading.(handlers := map[h := Handler(m, Busy, true)]);
    assert Apply(f, Receive(m)) == reading by {
      assert f.messages[m := false] == map[m := false];
    }
    assert Apply(reading, Decide(h, false)) == busy;
    assert Apply(busy, TimeOut(h)) == timedOut;
    assert Apply(timedOut, Expire(m)) == Late(m);
    hide Apply;
    OneMore(timedOut, Expire(m), rest);
    OneMore(busy, TimeOut(h), [Expire(m)] + rest);
    OneMore(reading, Decide(h, false), [TimeOut(h)] + ([Expire(m)] + rest));
    OneMore(f, Receive(m), [Decide(h, false)] + ([TimeOut(h)] + ([Expire(m)] + rest)));
  }

  /** The same handler, after a second worker has put the message off. */
  function PutOffByAnother(m: nat): Fleet {
    Fleet(Some(ACTIVE), map[m + 3 := true], map[m + 1 := Handler(m, Busy, true)], m + 4, 0)
  }

  lemma AnotherPutsOff(m: nat, rest: seq<Step>) returns (steps: seq<Step>)
    requires Possible(PutOffByAnother(m), rest)
    ensures Possible(Late(m), steps) && AddedByAll(steps) == AddedByAll(rest)
    ensures AfterAll(Late(m), steps) == AfterAll(PutOffByAnother(m), rest)
  {
    var first, second := m + 1, m + 2;
    var twice := Fleet(Some(ACTIVE), map[m := false],
                       map[first := Handler(m, Busy, true), second := Handler(m, Reading, false)], m + 3, 0);
    assert Apply(Late(m), Receive(m)) == twice;
    var copied := Apply(twice, PutOff(second));
    assert Apply(copied, Delete(second)) == PutOffByAnother(m) by {
      assert copied.messages - {m} == map[m + 3 := true];
      assert copied.handlers - {second} == map[first := Handler(m, Busy, true)];
    }
    hide Apply, Possible, AfterAll, AddedByAll;
    OneMore(copied, Delete(second), rest);
    OneMore(twice, PutOff(second), [Delete(second)] + rest);
    steps := [Receive(m)] + ([PutOff(second)] + ([Delete(second)] + rest));
    OneMore(Late(m), Receive(m), [PutOff(second)] + ([Delete(second)] + rest));
  }

  lemma FirstSends(m: nat)
    ensures var f, steps := PutOffByAnother(m), [Continue(m + 1)] + [];
            && Possible(f, steps) && AddedByAll(steps) == 0
            && VisibleIn(AfterAll(f, steps).messages) == {m + 3, m + 4}
  {
    var f := PutOffByAnother(m);
    OneMore(f, Continue(m + 1), []);
    assert Apply(f, Continue(m + 1)).messages == map[m + 3 := true, m + 4 := true];
  }

  // A second worker puts the message off, and then the first one sends its successor.
  lemma LateHandlerSends(m: nat) returns (steps: seq<Step>)
    ensures Possible(Late(m), steps) && AddedByAll(steps) == 0
    ensures VisibleIn(AfterAll(Late(m), steps).messages) == {m + 3, m + 4}
  {
    hide Possible, AfterAll, AddedByAll, VisibleIn;
    FirstSends(m);
    steps := AnotherPutsOff(m, [Continue(m + 1)] + []);
  }

  // The bound is met: when a handler outlives the visibility of its message, one message can become two, without a
  // start or a crash.
  lemma LateHandlerAddsOne(m: nat)
    ensures var f := Fleet(Some(ACTIVE), map[m := true], map[], m + 1, 0);
            exists steps :: Possible(f, steps) && AddedByAll(steps) == 1
                            && VisibleIn(AfterAll(f, steps).messages) == {m + 3, m + 4}
  {
    hide Possible, AfterAll, AddedByAll, VisibleIn;
    var steps := LateHandlerSends(m);
    BecomesLate(m, steps);
  }

  // A worker dies between sending the successor and deleting its message, or fails to delete it: one message becomes
  // two, although no limit passes and nobody is late.
  lemma CrashAfterSendAddsOne(m: nat)
    ensures var f := Fleet(Some(ACTIVE), map[m := true], map[], m + 1, 0);
            var steps := [Receive(m), Decide(m + 1, false)] + [Continue(m + 1), Crash(m + 1), Expire(m)];
            && Possible(f, steps) && AfterAll(f, steps).handlers == map[]
            && VisibleIn(AfterAll(f, steps).messages) == {m, m + 2}
  {
    var h := m + 1;
    var f := Fleet(Some(ACTIVE), map[m := true], map[], m + 1, 0);
    var reading := Fleet(Some(ACTIVE), map[m := false], map[h := Handler(m, Reading, false)], m + 2, 0);
    var busy := reading.(handlers := map[h := Handler(m, Busy, false)]);
    assert Apply(f, Receive(m)) == reading;
    assert Apply(reading, Decide(h, false)) == busy;
    hide Apply, Possible, AfterAll, VisibleIn;
    SentButNotDeleted(m);
    var rest := [Continue(h), Crash(h), Expire(m)];
    OneMore(reading, Decide(h, false), rest);
    OneMore(f, Receive(m), [Decide(h, false)] + rest);
    assert [Receive(m)] + ([Decide(h, false)] + rest) == [Receive(m), Decide(h, false)] + rest;
  }

  lemma SentButNotDeleted(m: nat)
    ensures var busy := Fleet(Some(ACTIVE), map[m := false], map[m + 1 := Handler(m, Busy, false)], m + 2, 0);
            var steps := [Continue(m + 1), Crash(m + 1), Expire(m)];
            && Possible(busy, steps) && AfterAll(busy, steps).handlers == map[]
            && VisibleIn(AfterAll(busy, steps).messages) == {m, m + 2}
  {
    var h := m + 1;
    var busy := Fleet(Some(ACTIVE), map[m := false], map[h := Handler(m, Busy, false)], m + 2, 0);
    var sent := Fleet(Some(ACTIVE), map[m := false, m + 2 := true], map[h := Handler(m, Settled, false)], m + 3, 0);
    var dead := sent.(handlers := map[]);
    assert Apply(busy, Continue(h)) == sent;
    assert Apply(sent, Crash(h)) == dead;
    assert Apply(dead, Expire(m)) == dead.(messages := map[m := true, m + 2 := true]);
    hide Apply;
    RunThree(busy, Continue(h), Crash(h), Expire(m));
  }

  // ---- A whole delivery is one of these runs ------------------------------------------------------------------------

  /** The end of a handled message: it is deleted, or stays and becomes visible again. */
  function Ending(h: nat, m: nat, fails: bool): seq<Step> {
    if fails then [Crash(h), Expire(m)] else [Delete(h)]
  }

  /** The steps of a delivery of `m` that no other worker interferes with, after it was received by handler `h`. */
  function Handling(h: nat, m: nat, store: Store, message: Envelope, turn: Turn): seq<Step> {
    var ending := Ending(h, m, turn.deleteFails);
    if turn.rateLimitExceeded then [PutOff(h)] + ending
    else if turn.Discards() then [Drop(h)] + ending
    else if turn.dedup != Deduplicator.E_OK then [PutOff(h)] + ending
    else
      var handled := HandleMessage(store, message, turn);
      if !handled.deleted then [Decide(h, false), Retry(h)]
      else if handled.next.Some? then [Decide(h, false)] + ([Continue(h)] + ending)
      else if DoProcessInstallation(store, message.payload, turn.world).1.Done? then [Decide(h, true)] + ending
      else [Decide(h, false)] + ([Stop(h)] + ending)
  }

  lemma RunTwo(f: Fleet, a: Step, b: Step)
    requires Enabled(f, a) && Enabled(Apply(f, a), b)
    ensures Possible(f, [a, b]) && AfterAll(f, [a, b]) == Apply(Apply(f, a), b)
  {
    hide Apply, Enabled;
    var g := Apply(f, a);
    assert [a, b][1..] == [b] && [b][1..] == [];
    assert Possible(Apply(g, b), []) && AfterAll(Apply(g, b), []) == Apply(g, b);
    assert Possible(g, [b]) && AfterAll(g, [b]) == Apply(g, b);
  }

  lemma RunThree(f: Fleet, a: Step, b: Step, c: Step)
    requires Enabled(f, a) && Enabled(Apply(f, a), b) && Enabled(Apply(Apply(f, a), b), c)
    ensures Possible(f, [a, b, c]) && AfterAll(f, [a, b, c]) == Apply(Apply(Apply(f, a), b), c)
  {
    hide Apply, Enabled;
    RunTwo(Apply(f, a), b, c);
    assert [a, b, c][1..] == [b, c];
  }

  /** A handler that was just started on a message nobody else handles. */
  ghost predicate Handles(f: Fleet, h: nat) {
    && f.Valid() && h in f.handlers && f.handlers[h].stage == Reading && !f.handlers[h].detached
    && f.handlers[h].message in f.messages && !f.messages[f.handlers[h].message]
  }

  /** A settled handler of a hidden message. */
  ghost predicate Finishes(f: Fleet, h: nat) {
    && f.Valid() && f.At(h, Settled) && f.Attached(h)
    && f.handlers[h].message in f.messages && !f.messages[f.handlers[h].message]
  }

  lemma EndingRun(f: Fleet, h: nat, fails: bool)
    requires Finishes(f, h)
    ensures var steps := Ending(h, f.handlers[h].message, fails);
            && Possible(f, steps) && AfterAll(f, steps).status == f.status
            && Leads(AfterAll(f, steps)) == Leads(f) + if fails then 1 else 0
  {
    hide Leads, Possible, AfterAll;
    var m := f.handlers[h].message;
    if fails {
      RunTwo(f, Crash(h), Expire(m));
      VanishLeads(f, h);
      ShowLeads(f.Vanish(h), m);
    } else {
      RunOne(f, Delete(h));
      DeleteLeads(f, h);
      VisibleMeans(f, m);
    }
  }

  lemma RunOne(f: Fleet, a: Step)
    requires Enabled(f, a)
    ensures Possible(f, [a]) && AfterAll(f, [a]) == Apply(f, a)
  {
    hide Apply, Enabled;
    assert [a][1..] == [];
    assert Possible(Apply(f, a), []) && AfterAll(Apply(f, a), []) == Apply(f, a);
  }

  // The handler settles, in a step that leaves the messages that were there as they are.
  lemma SettleAndEnd(f: Fleet, h: nat, step: Step, fails: bool)
    requires h in f.handlers && Enabled(f, step) && Finishes(Apply(f, step), h)
    requires Apply(f, step).handlers[h].message == f.handlers[h].message
    ensures var steps := [step] + Ending(h, f.handlers[h].message, fails);
            && Possible(f, steps) && AfterAll(f, steps).status == Apply(f, step).status
            && Leads(AfterAll(f, steps)) == Leads(Apply(f, step)) + if fails then 1 else 0
  {
    hide Apply, Enabled, Possible, AfterAll, Leads, Finishes;
    EndingRun(Apply(f, step), h, fails);
    OneMore(f, step, Ending(h, f.handlers[h].message, fails));
  }

  lemma PutOffRun(f: Fleet, h: nat, fails: bool)
    requires Handles(f, h)
    ensures var steps := [PutOff(h)] + Ending(h, f.handlers[h].message, fails);
            && Possible(f, steps) && AfterAll(f, steps).status == f.status
            && Leads(AfterAll(f, steps)) == Leads(f) + if fails then 1 else 0
  {
    hide Leads, Possible, AfterAll;
    SendLeads(f);
    MoveLeads(f.Send(), h, Settled);
    SettleAndEnd(f, h, PutOff(h), fails);
  }

  lemma DropRun(f: Fleet, h: nat, fails: bool)
    requires Handles(f, h)
    ensures var steps := [Drop(h)] + Ending(h, f.handlers[h].message, fails);
            && Possible(f, steps) && AfterAll(f, steps).status == f.status
            && Leads(AfterAll(f, steps)) == Leads(f) - 1 + if fails then 1 else 0
  {
    hide Leads, Possible, AfterAll;
    MoveLeads(f, h, Settled);
    SettleAndEnd(f, h, Drop(h), fails);
  }

  lemma CompletedRun(f: Fleet, h: nat, fails: bool)
    requires Handles(f, h) && f.status.Some?
    ensures var steps := [Decide(h, true)] + Ending(h, f.handlers[h].message, fails);
            && Possible(f, steps) && AfterAll(f, steps).status == Some(COMPLETE)
            && Leads(AfterAll(f, steps)) == Leads(f) - 1 + if fails then 1 else 0
  {
    hide Leads, Possible, AfterAll;
    SameLeads(f, f.Write(COMPLETE));
    MoveLeads(f.Write(COMPLETE), h, Settled);
    SettleAndEnd(f, h, Decide(h, true), fails);
  }

  lemma BusyLeads(f: Fleet, h: nat)
    requires Handles(f, h) && f.status.Some?
    ensures var g := Apply(f, Decide(h, false));
            && Leads(g) == Leads(f) && g.status == Some(ACTIVE) && g.Valid()
            && h in g.handlers && g.handlers[h] == f.handlers[h].(stage := Busy) && g.messages == f.messages
  {
    hide Leads;
    SameLeads(f, f.Write(ACTIVE));
    MoveLeads(f.Write(ACTIVE), h, Busy);
  }

  lemma ContinuedRun(f: Fleet, h: nat, fails: bool)
    requires Handles(f, h) && f.status.Some?
    ensures var steps := [Decide(h, false)] + ([Continue(h)] + Ending(h, f.handlers[h].message, fails));
            && Possible(f, steps) && AfterAll(f, steps).status == Some(ACTIVE)
            && Leads(AfterAll(f, steps)) == Leads(f) + if fails then 1 else 0
  {
    hide Leads, Possible, AfterAll;
    BusyLeads(f, h);
    var g := Apply(f, Decide(h, false));
    SendLeads(g);
    MoveLeads(g.Send(), h, Settled);
    SettleAndEnd(g, h, Continue(h), fails);
    OneMore(f, Decide(h, false), [Continue(h)] + Ending(h, f.handlers[h].message, fails));
  }

  lemma FailedRun(f: Fleet, h: nat, fails: bool)
    requires Handles(f, h) && f.status.Some?
    ensures var steps := [Decide(h, false)] + ([Stop(h)] + Ending(h, f.handlers[h].message, fails));
            && Possible(f, steps) && AfterAll(f, steps).status == Some(FAILED)
            && Leads(AfterAll(f, steps)) == Leads(f) - 1 + if fails then 1 else 0
  {
    hide Leads, Possible, AfterAll;
    BusyLeads(f, h);
    var g := Apply(f, Decide(h, false));
    SameLeads(g, g.Write(FAILED));
    MoveLeads(g.Write(FAILED), h, Settled);
    SettleAndEnd(g, h, Stop(h), fails);
    OneMore(f, Decide(h, false), [Stop(h)] + Ending(h, f.handlers[h].message, fails));
  }

  lemma RetriedRun(f: Fleet, h: nat)
    requires Handles(f, h) && f.status.Some?
    ensures var steps := [Decide(h, false), Retry(h)];
            && Possible(f, steps) && AfterAll(f, steps).status == Some(ACTIVE)
            && Leads(AfterAll(f, steps)) == Leads(f)
  {
    hide VisibleIn, SendersIn, Possible, AfterAll;
    BusyLeads(f, h);
    var g, m := Apply(f, Decide(h, false)), f.handlers[h].message;
    RunTwo(f, Decide(h, false), Retry(h));
    VisibleMeans(g, m);
    VisibleAfter(g.messages, m, true);
    VanishLeads(g.Show(m), h);
  }

  // The deliveries of the sequential runs are among the interleavings, with failing deletes and without: same status,
  // and as much that leads on.
  lemma DeliveryIsARun(f: Fleet, m: nat, store: Store, message: Envelope, turn: Turn)
    requires f.Valid() && Enabled(f, Receive(m))
    requires store.sub.Some? && f.status == Some(store.sub.value.syncStatus)
    ensures var g, steps := Apply(f, Receive(m)), Handling(f.nextId, m, store, message, turn);
            var (after, successors) := ProcessMessage(store, message, turn);
            && Possible(g, steps) && after.sub.Some?
            && AfterAll(g, steps).status == Some(after.sub.value.syncStatus)
            && Leads(AfterAll(g, steps)) == Leads(f) - 1 + |successors|
  {
    hide DoProcessInstallation, HandleTaskError, Possible, AfterAll, Leads, NextTasksFor, Ending;
    var g, h, fails := Apply(f, Receive(m)), f.nextId, turn.deleteFails;
    ReceiveLeads(f, m);
    assert Handles(g, h);
    PutOffRun(g, h, fails);
    DropRun(g, h, fails);
    CompletedRun(g, h, fails);
    ContinuedRun(g, h, fails);
    FailedRun(g, h, fails);
    RetriedRun(g, h);
    if !turn.rateLimitExceeded && !turn.Discards() && turn.dedup == Deduplicator.E_OK {
      ProcessedStatus(store, message.payload, turn.world);
      var (processed, result) := DoProcessInstallation(store, message.payload, turn.world);
      if result.TaskError? {
        var lastAttempt := message.receiveCount + 1 >= MAX_ATTEMPTS;
        HandledStatus(processed, message.payload, result.task, result.cause, lastAttempt);
      }
    }
  }
}
