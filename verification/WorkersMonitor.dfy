/**
 * The monitor of the worker processes (src/util/workers-health-monitor.ts, startMonitorOnMaster): registration,
 * readiness, removal of silent workers and the decision to shut down, compared with a reading of the whole history.
 */
module WorkersMonitor {
  import opened Wrappers

  datatype Config = Config(workerStartupTime: int, workerUnresponsiveThreshold: int, numberOfWorkersThreshold: int)

  /** The variables of the monitor; workers are named by their process identifiers. */
  datatype Monitor = Monitor(registered: set<int>, live: map<int, int>, readyAt: Option<int>)

  const IDLE := Monitor({}, map[], None)

  function Elements(pids: seq<int>): set<int> {
    set pid | pid in pids
  }

  predicate AreWorkersReady(m: Monitor, now: int) {
    m.readyAt.Some? && m.readyAt.value < now
  }

  function SetUpReadyAt(m: Monitor, config: Config, now: int): Monitor {
    if !AreWorkersReady(m, now) && m.readyAt.None? && |m.registered| > config.numberOfWorkersThreshold
    then m.(readyAt := Some(now + config.workerStartupTime))
    else m
  }

  /** The workers that have been silent for longer than the window. */
  function DeadWorkers(live: map<int, int>, config: Config, now: int): set<int> {
    set pid | pid in live && now - live[pid] > config.workerUnresponsiveThreshold
  }

  function RemoveDeadWorkers(m: Monitor, config: Config, now: int): Monitor {
    if AreWorkersReady(m, now) then m.(live := m.live - DeadWorkers(m.live, config, now)) else m
  }

  /** One poll. */
  function Polled(m: Monitor, config: Config, now: int, pids: seq<int>): Monitor {
    var registered := m.(registered := m.registered + Elements(pids));
    RemoveDeadWorkers(SetUpReadyAt(registered, config, now), config, now)
  }

  /** The shutdown signal is sent at the end of a poll that leaves the monitor like this. */
  predicate SendsShutdown(m: Monitor, config: Config, now: int) {
    AreWorkersReady(m, now) && |m.live| < config.numberOfWorkersThreshold
  }

  /** A message of a worker; nobody listens to one that is not registered. */
  function Heard(m: Monitor, pid: int, now: int): Monitor {
    if pid in m.registered then m.(live := m.live[pid := now]) else m
  }

  lemma HasElement(pids: set<int>)
    ensures pids == {} || exists pid :: pid in pids
  {
    if forall pid :: pid !in pids {
      assert pids == {};
    }
  }

  lemma DeadExceptRest(live: map<int, int>, config: Config, now: int, rest: set<int>, pid: int)
    requires pid in rest && pid in live
    ensures DeadWorkers(live, config, now) - (rest - {pid}) ==
            DeadWorkers(live, config, now) - rest
            + if now - live[pid] > config.workerUnresponsiveThreshold then {pid} else {}
  {
  }

  class MasterMonitor {
    const config: Config
    var registeredWorkers: set<int>
    var liveWorkers: map<int, int>
    var workersReadyAt: Option<int>

    constructor (config: Config)
      ensures this.config == config && Value() == IDLE
    {
      this.config := config;
      registeredWorkers, liveWorkers, workersReadyAt := {}, map[], None;
    }

    function Value(): Monitor
      reads this
    {
      Monitor(registeredWorkers, liveWorkers, workersReadyAt)
    }

    method OnMessage(pid: int, now: int)
      modifies this`liveWorkers
      ensures Value() == Heard(old(Value()), pid, now)
    {
      if pid in registeredWorkers {
        liveWorkers := liveWorkers[pid := now];
      }
    }

    method RegisterNewWorkers(pids: seq<int>)
      modifies this`registeredWorkers
      ensures registeredWorkers == old(registeredWorkers) + Elements(pids)
    {
      for i := 0 to |pids|
        invariant registeredWorkers == old(registeredWorkers) + Elements(pids[..i])
      {
        if pids[i] !in registeredWorkers {
          registeredWorkers := registeredWorkers + {pids[i]};
        }
        assert pids[..i + 1] == pids[..i] + [pids[i]];
      }
      assert pids[..|pids|] == pids;
    }

    method MaybeSetupWorkersReadyAt(now: int)
      modifies this`workersReadyAt
      ensures Value() == SetUpReadyAt(old(Value()), config, now)
    {
      if AreWorkersReady(Value(), now) {
        return;
      }
      if workersReadyAt.None? {
        if |registeredWorkers| > config.numberOfWorkersThreshold {
          workersReadyAt := Some(now + config.workerStartupTime);
        }
      }
    }

    method MaybeRemoveDeadWorkers(now: int)
      modifies this`liveWorkers
      ensures Value() == RemoveDeadWorkers(old(Value()), config, now)
    {
      if AreWorkersReady(Value(), now) {
        hide DeadWorkers;
        var keysToKill: set<int> := {};
        var rest := liveWorkers.Keys;
        while rest != {}
          invariant liveWorkers == old(liveWorkers) && rest <= liveWorkers.Keys
          invariant keysToKill == DeadWorkers(liveWorkers, config, now) - rest
          decreases |rest|
        {
          HasElement(rest);
          var pid :| pid in rest;
          DeadExceptRest(liveWorkers, config, now, rest, pid);
          if now - liveWorkers[pid] > config.workerUnresponsiveThreshold {
            keysToKill := keysToKill + {pid};
          }
          rest := rest - {pid};
        }
        assert rest == {};
        assert keysToKill == DeadWorkers(liveWorkers, config, now);
        liveWorkers := liveWorkers - keysToKill;
      }
    }

    method Poll(now: int, pids: seq<int>) returns (shutdown: bool)
      modifies this
      ensures Value() == Polled(old(Value()), config, now, pids)
      ensures shutdown == SendsShutdown(Value(), config, now)
    {
      RegisterNewWorkers(pids);
      MaybeSetupWorkersReadyAt(now);
      MaybeRemoveDeadWorkers(now);
      shutdown := AreWorkersReady(Value(), now) && |liveWorkers| < config.numberOfWorkersThreshold;
    }
  }

  // ---- Histories ----------------------------------------------------------------------------------------------------

  /** What happens to the monitor: a poll that finds these workers in the cluster, or a message of a worker. */
  datatype Event = Poll(at: int, pids: seq<int>) | Message(at: int, pid: int)

  type History = seq<Event>

  function Next(m: Monitor, config: Config, event: Event): Monitor {
    match event
    case Poll(at, pids) => Polled(m, config, at, pids)
    case Message(at, pid) => Heard(m, pid, at)
  }

  /** The monitor after the whole history. */
  function After(config: Config, history: History): Monitor {
    if history == [] then IDLE
    else Next(After(config, history[..|history| - 1]), config, history[|history| - 1])
  }

  predicate ClockIsMonotone(history: History) {
    forall i, j | 0 <= i < j < |history| :: history[i].at <= history[j].at
  }

  /** The workers that some poll found in the cluster. */
  function Registered(history: History): set<int> {
    set i, pid | 0 <= i < |history| && history[i].Poll? && pid in history[i].pids :: pid
  }

  /** At this poll more workers were registered than the threshold. */
  predicate SawEnoughWorkers(config: Config, history: History, k: nat) {
    k < |history| && history[k].Poll? && |Registered(history[..k + 1])| > config.numberOfWorkersThreshold
  }

  /** The start-up time has passed since a poll at which enough workers were registered. */
  predicate ReadinessHasPassed(config: Config, history: History, now: int) {
    exists k | 0 <= k < |history| :: SawEnoughWorkers(config, history, k)
        && history[k].at + config.workerStartupTime < now
  }

  predicate IsHeard(history: History, i: nat) {
    i < |history| && history[i].Message? && history[i].pid in Registered(history[..i])
  }

  /** The registered workers of which a message came within the window. */
  function HeardWithin(config: Config, history: History, now: int): set<int> {
    set i | 0 <= i < |history| && IsHeard(history, i) && now - history[i].at <= config.workerUnresponsiveThreshold
      :: history[i].pid
  }

  /** The live map knows the last message of every worker, unless that is out of the window already. */
  ghost predicate LiveIsAccurate(config: Config, history: History, live: map<int, int>, now: int) {
    && (forall pid | pid in live ::
          exists i: nat :: IsHeard(history, i) && history[i].pid == pid && history[i].at == live[pid])
    && (forall i: nat | IsHeard(history, i) ::
          || (history[i].pid in live && history[i].at <= live[history[i].pid])
          || now - history[i].at > config.workerUnresponsiveThreshold)
  }

  lemma {:induction false} RegisteredAfter(config: Config, history: History)
    ensures After(config, history).registered == Registered(history)
  {
    if history != [] {
      var front, last := history[..|history| - 1], history[|history| - 1];
      RegisteredAfter(config, front);
      assert history == front + [last];
      forall pid
        ensures pid in Registered(history) <==> pid in Registered(front) || (last.Poll? && pid in last.pids)
      {
        if pid in Registered(front) {
          var i :| 0 <= i < |front| && front[i].Poll? && pid in front[i].pids;
          assert history[i].Poll? && pid in history[i].pids;
        }
        if last.Poll? && pid in last.pids {
          assert history[|front|].Poll? && pid in history[|front|].pids;
        }
      }
    }
  }

  ghost predicate IsFirstWithEnough(config: Config, history: History, k: nat) {
    SawEnoughWorkers(config, history, k) && forall j: nat | j < k :: !SawEnoughWorkers(config, history, j)
  }

  // The time recorded is that of the first poll with enough workers.
  lemma {:induction false} ReadyAtAfter(config: Config, history: History)
    ensures match After(config, history).readyAt
            case None => forall k: nat :: !SawEnoughWorkers(config, history, k)
            case Some(at) => exists k: nat ::
              IsFirstWithEnough(config, history, k) && at == history[k].at + config.workerStartupTime
  {
    hide Registered, RemoveDeadWorkers;
    if history != [] {
      var n := |history| - 1;
      var front, last := history[..n], history[n];
      ReadyAtAfter(config, front);
      RegisteredAfter(config, history);
      assert history[..n + 1] == history;
      forall k: nat | k < n
        ensures SawEnoughWorkers(config, front, k) <==> SawEnoughWorkers(config, history, k)
      {
        assert front[..k + 1] == history[..k + 1];
      }
      ReadyAtNext(After(config, front), config, last);
      if After(config, front).readyAt.Some? {
        var k: nat :| IsFirstWithEnough(config, front, k)
                      && After(config, front).readyAt.value == front[k].at + config.workerStartupTime;
        assert IsFirstWithEnough(config, history, k);
      } else if SawEnoughWorkers(config, history, n) {
        assert IsFirstWithEnough(config, history, n);
      }
    }
  }

  lemma ReadyAtNext(m: Monitor, config: Config, event: Event)
    ensures Next(m, config, event).readyAt ==
            if m.readyAt.None? && event.Poll? && |Next(m, config, event).registered| > config.numberOfWorkersThreshold
            then Some(event.at + config.workerStartupTime) else m.readyAt
  {
  }

  lemma ReadyExactly(config: Config, history: History, now: int)
    requires ClockIsMonotone(history)
    ensures AreWorkersReady(After(config, history), now) <==> ReadinessHasPassed(config, history, now)
  {
    ReadyAtAfter(config, history);
    hide Registered, After;
    if After(config, history).readyAt.Some? {
      var k: nat :| IsFirstWithEnough(config, history, k)
                    && After(config, history).readyAt.value == history[k].at + config.workerStartupTime;
      if ReadinessHasPassed(config, history, now) {
        var j :| 0 <= j < |history| && SawEnoughWorkers(config, history, j)
                 && history[j].at + config.workerStartupTime < now;
        assert k <= j;
      }
    }
  }

  // No event makes ready workers unready, however much later.
  lemma ReadinessStays(config: Config, history: History, more: History, now: int, later: int)
    requires now <= later && AreWorkersReady(After(config, history), now)
    ensures AreWorkersReady(After(config, history + more), later)
  {
    if more == [] {
      assert history + more == history;
    } else {
      var front, last := more[..|more| - 1], more[|more| - 1];
      ReadinessStays(config, history, front, now, later);
      assert (history + more)[..|history + more| - 1] == history + front;
      ReadyAtNext(After(config, history + front), config, last);
    }
  }

  // ---- Who is live --------------------------------------------------------------------------------------------------

  lemma {:induction false} LiveAfter(config: Config, history: History, now: int)
    requires ClockIsMonotone(history) && forall i | 0 <= i < |history| :: history[i].at <= now
    ensures LiveIsAccurate(config, history, After(config, history).live, now)
  {
    if history != [] {
      var n := |history| - 1;
      var front, last := history[..n], history[n];
      LiveAfter(config, front, last.at);
      RegisteredAfter(config, front);
      HeardInFront(history);
      LiveNext(config, history, After(config, front), now);
    }
  }

  lemma HeardInFront(history: History)
    requires history != []
    ensures var front := history[..|history| - 1];
            forall i: nat | i < |front| :: IsHeard(front, i) <==> IsHeard(history, i)
  {
    var front := history[..|history| - 1];
    forall i: nat | i < |front|
      ensures IsHeard(front, i) <==> IsHeard(history, i)
    {
      assert front[..i] == history[..i];
    }
  }

  lemma LiveNext(config: Config, history: History, m: Monitor, now: int)
    requires history != [] && ClockIsMonotone(history) && history[|history| - 1].at <= now
    requires var front, last := history[..|history| - 1], history[|history| - 1];
             && m.registered == Registered(front)
             && LiveIsAccurate(config, front, m.live, last.at)
             && forall i: nat | i < |front| :: IsHeard(front, i) <==> IsHeard(history, i)
    ensures LiveIsAccurate(config, history, Next(m, config, history[|history| - 1]).live, now)
  {
    hide IsHeard, Registered;
    var n := |history| - 1;
    var front, last := history[..n], history[n];
    var live := Next(m, config, last).live;
    LastIsHeard(history);
    forall pid | pid in live
      ensures exists i: nat :: IsHeard(history, i) && history[i].pid == pid && history[i].at == live[pid]
    {
      if pid in m.live && live[pid] == m.live[pid] {
        var i: nat :| IsHeard(front, i) && front[i].pid == pid && front[i].at == m.live[pid];
        assert IsHeard(history, i);
      } else {
        assert IsHeard(history, n);
      }
    }
    forall i: nat | IsHeard(history, i)
      ensures || (history[i].pid in live && history[i].at <= live[history[i].pid])
              || now - history[i].at > config.workerUnresponsiveThreshold
    {
      if i < n {
        assert IsHeard(front, i);
      }
    }
  }

  lemma LastIsHeard(history: History)
    requires history != []
    ensures var n := |history| - 1;
            IsHeard(history, n) <==> history[n].Message? && history[n].pid in Registered(history[..n])
    ensures forall i: nat | IsHeard(history, i) :: i < |history| && history[i].Message?
    ensures var front := history[..|history| - 1]; forall i: nat | IsHeard(front, i) :: i < |front|
  {
  }

  // Main result: over every history with a monotone clock, a poll sends the shutdown signal exactly if the start-up
  // time has passed since enough workers were registered and fewer than the threshold of registered workers were heard
  // within the window.
  lemma ShutdownExactly(config: Config, history: History)
    requires ClockIsMonotone(history) && history != [] && history[|history| - 1].Poll?
    ensures var now := history[|history| - 1].at;
            SendsShutdown(After(config, history), config, now) <==>
              && ReadinessHasPassed(config, history, now)
              && |HeardWithin(config, history, now)| < config.numberOfWorkersThreshold
  {
    hide ReadinessHasPassed, HeardWithin;
    var now := history[|history| - 1].at;
    ReadyExactly(config, history, now);
    if AreWorkersReady(After(config, history), now) {
      LiveWithin(config, history);
      assert |After(config, history).live| == |After(config, history).live.Keys|;
    }
  }

  lemma LiveWithin(config: Config, history: History)
    requires ClockIsMonotone(history) && history != [] && history[|history| - 1].Poll?
    requires AreWorkersReady(After(config, history), history[|history| - 1].at)
    ensures After(config, history).live.Keys == HeardWithin(config, history, history[|history| - 1].at)
  {
    hide IsHeard;
    var n := |history| - 1;
    var m, now := After(config, history), history[n].at;
    LiveAfter(config, history, now);
    LastIsHeard(history);
    assert m == Polled(After(config, history[..n]), config, now, history[n].pids);
    forall pid
      ensures pid in m.live <==> pid in HeardWithin(config, history, now)
    {
      if pid in m.live {
        var i: nat :| IsHeard(history, i) && history[i].pid == pid && history[i].at == m.live[pid];
      }
      if pid in HeardWithin(config, history, now) {
        var i: nat :| IsHeard(history, i) && now - history[i].at <= config.workerUnresponsiveThreshold
                      && history[i].pid == pid;
      }
    }
  }
}
