/**
 * The deduplicator (src/sync/deduplicator.ts): a heartbeat lock in Redis shared by many workers. Every execution of a
 * job is a runner with its own id; the runners' steps interleave freely, and time passes between them.
 */
module Deduplicator {
  import opened Wrappers

  datatype DeduplicatorResult = E_OK | E_OTHER_WORKER_DOING_THIS_JOB | E_NOT_SURE_TRY_AGAIN_LATER

  type Key = string
  type RunnerId = nat

  datatype Flag = Flag(jobRunnerId: RunnerId, timestamp: int)

  const MAX_UPDATE_TIMEOUT_MSECS := 5_000
  const REDIS_CLEANUP_TIMEOUT := 24 * 3600 * 1000

  /** The heartbeat period the constructor settles on. */
  function Period(jobRunnerFlagUpdateTimeoutMsecs: nat): nat {
    if jobRunnerFlagUpdateTimeoutMsecs < MAX_UPDATE_TIMEOUT_MSECS then jobRunnerFlagUpdateTimeoutMsecs
    else MAX_UPDATE_TIMEOUT_MSECS
  }

  /** A flag that was not refreshed for ten periods is ignored. */
  function StaleAfter(period: nat): nat {
    period * 10
  }

  /** The runner whose flag is raised, unless the flag is stale. */
  function FlagHolder(flags: map<Key, Flag>, key: Key, now: int, invalidatingTimestamp: nat): Option<RunnerId> {
    if key !in flags then None
    else if now - flags[key].timestamp >= invalidatingTimestamp then None
    else Some(flags[key].jobRunnerId)
  }

  class RedisInProgressStorage {
    var flags: map<Key, Flag>

    constructor ()
      ensures flags == map[]
    {
      flags := map[];
    }

    method HasInProgressFlag(jobKey: Key, invalidatingTimestamp: nat, now: int) returns (holder: Option<RunnerId>)
      ensures holder == FlagHolder(flags, jobKey, now, invalidatingTimestamp)
    {
      if jobKey !in flags {
        return None;
      }
      var flag := flags[jobKey];
      var isStaled := now - flag.timestamp >= invalidatingTimestamp;
      if isStaled {
        return None;
      }
      return Some(flag.jobRunnerId);
    }

    method RemoveInProgressFlag(jobKey: Key)
      modifies this
      ensures flags == old(flags) - {jobKey}
    {
      flags := flags - {jobKey};
    }

    method SetInProgressFlag(jobKey: Key, jobRunnerId: RunnerId, now: int)
      modifies this
      ensures flags == old(flags)[jobKey := Flag(jobRunnerId, now)]
    {
      flags := flags[jobKey := Flag(jobRunnerId, now)];
    }
  }

  // ---- The runners --------------------------------------------------------------------------------------------------

  /** Where a runner is in `executeWithDeduplication`; each arrow between two phases is one await. */
  datatype Phase =
    | Entered(key: Key)                                      // about to look for a flag
    | Cleared(key: Key)                                      // found none, about to raise its own
    | Running(key: Key, lastBeat: int)
    | Suspicious(key: Key, other: RunnerId)                  // saw another runner's flag, about to look closer
    | Watching(key: Key, other: RunnerId, seen: Flag, logged: nat, wakeAt: int)
    | Finished(result: DeduplicatorResult)
    | Thrown
    | Crashed
  {
    predicate Over() {
      Finished? || Thrown? || Crashed?
    }
  }

  /** One change of the store. */
  datatype Change = Raised(key: Key, flag: Flag) | Dropped(key: Key, dropper: Option<RunnerId>)

  /** `log` lists every change of the store since the beginning. */
  datatype LockState = LockState(now: int, flags: map<Key, Flag>, runners: map<RunnerId, Phase>, log: seq<Change>)

  datatype Action =
    | Tick(msecs: nat)
    | Enter(id: RunnerId, key: Key)
    | Check(id: RunnerId)
    | Raise(id: RunnerId)
    | Beat(id: RunnerId)
    | Finish(id: RunnerId, threw: bool)
    | Crash(id: RunnerId)
    | FirstLook(id: RunnerId)
    | SecondLook(id: RunnerId)
    | Expire(expired: Key)

  const START := LockState(0, map[], map[], [])

  predicate Enabled(s: LockState, a: Action) {
    match a {
      case Tick(_) => true
      case Enter(id, _) => id !in s.runners
      case Check(id) => id in s.runners && s.runners[id].Entered?
      case Raise(id) => id in s.runners && s.runners[id].Cleared?
      case Beat(id) => id in s.runners && s.runners[id].Running?
      case Finish(id, _) => id in s.runners && s.runners[id].Running?
      case Crash(id) => id in s.runners && !s.runners[id].Over()
      case FirstLook(id) => id in s.runners && s.runners[id].Suspicious?
      case SecondLook(id) => id in s.runners && s.runners[id].Watching? && s.now >= s.runners[id].wakeAt
      case Expire(key) => key in s.flags && s.now - s.flags[key].timestamp >= REDIS_CLEANUP_TIMEOUT
    }
  }

  function SetFlag(s: LockState, key: Key, id: RunnerId): LockState {
    var flag := Flag(id, s.now);
    s.(flags := s.flags[key := flag], runners := s.runners[id := Running(key, s.now)],
        log := s.log + [Raised(key, flag)])
  }

  function Apply(s: LockState, a: Action, period: nat): LockState
    requires Enabled(s, a)
  {
    match a {
      case Tick(msecs) => s.(now := s.now + msecs)
      case Enter(id, key) => s.(runners := s.runners[id := Entered(key)])
      case Check(id) =>
        var key := s.runners[id].key;
        var holder := FlagHolder(s.flags, key, s.now, StaleAfter(period));
        s.(runners := s.runners[id := if holder.Some? then Suspicious(key, holder.value) else Cleared(key)])
      case Raise(id) => SetFlag(s, s.runners[id].key, id)
      case Beat(id) => SetFlag(s, s.runners[id].key, id)
      case Finish(id, threw) =>
        var key := s.runners[id].key;
        s.(flags := s.flags - {key}, runners := s.runners[id := if threw then Thrown else Finished(E_OK)],
           log := s.log + [Dropped(key, Some(id))])
      case Crash(id) => s.(runners := s.runners[id := Crashed])
      case FirstLook(id) =>
        var Suspicious(key, other) := s.runners[id];
        if key !in s.flags || s.flags[key].jobRunnerId != other then
          s.(runners := s.runners[id := Finished(E_NOT_SURE_TRY_AGAIN_LATER)])
        else
          s.(runners := s.runners[id := Watching(key, other, s.flags[key], |s.log|, s.now + 2 * period)])
      case SecondLook(id) =>
        var Watching(key, other, seen, _, _) := s.runners[id];
        var isLive := key in s.flags && s.flags[key].jobRunnerId == other && seen.timestamp < s.flags[key].timestamp;
        s.(runners := s.runners[id := Finished(if isLive then E_OTHER_WORKER_DOING_THIS_JOB
            else E_NOT_SURE_TRY_AGAIN_LATER)])
      case Expire(key) => s.(flags := s.flags - {key}, log := s.log + [Dropped(key, None)])
    }
  }

  predicate Possible(s: LockState, actions: seq<Action>, period: nat)
    decreases |actions|
  {
    actions == [] || (Enabled(s, actions[0]) && Possible(Apply(s, actions[0], period), actions[1..], period))
  }

  function AfterAll(s: LockState, actions: seq<Action>, period: nat): LockState
    requires Possible(s, actions, period)
    decreases |actions|
  {
    if actions == [] then s else AfterAll(Apply(s, actions[0], period), actions[1..], period)
  }

  // ---- Mutual exclusion ---------------------------------------------------------------------------------------------

  /** Runs the job, or is about to without looking at the flag again. */
  predicate Committed(s: LockState, id: RunnerId, key: Key) {
    id in s.runners && (s.runners[id] == Cleared(key) || (s.runners[id].Running? && s.runners[id].key == key))
  }

  predicate Runs(s: LockState, id: RunnerId) {
    id in s.runners && s.runners[id].Running?
  }

  /** At most one runner is committed to a key; a running one holds a fresh flag, and before it raises there is none. */
  ghost predicate Exclusive(s: LockState, period: nat) {
    && (forall i, j, key :: Committed(s, i, key) && Committed(s, j, key) ==> i == j)
    && (forall i :: i in s.runners && s.runners[i].Running? ==> HoldsFreshFlag(s, i, period))
    && (forall i :: i in s.runners && s.runners[i].Cleared? ==>
          FlagHolder(s.flags, s.runners[i].key, s.now, StaleAfter(period)).None?)
  }

  predicate HoldsFreshFlag(s: LockState, id: RunnerId, period: nat)
    requires id in s.runners && s.runners[id].Running?
  {
    var Running(key, lastBeat) := s.runners[id];
    key in s.flags && s.flags[key] == Flag(id, lastBeat) && s.now - lastBeat < StaleAfter(period)
  }

  /**
   * The two hypotheses of the lock: nobody looks for a flag while another runner of the key is between its look and its
   * raise, and no running worker lets ten periods pass without a beat.
   */
  ghost predicate Orderly(s: LockState, a: Action, period: nat) {
    match a {
      case Check(id) =>
        id in s.runners && s.runners[id].Entered? ==>
          forall other :: other in s.runners ==> s.runners[other] != Cleared(s.runners[id].key)
      case Tick(msecs) =>
        forall id :: id in s.runners && s.runners[id].Running? ==>
          s.now + msecs - s.runners[id].lastBeat < StaleAfter(period)
      case _ => true
    }
  }

  lemma StartIsExclusive(period: nat)
    ensures Exclusive(START, period)
  {
  }

  lemma ExclusiveStep(s: LockState, a: Action, period: nat)
    requires Exclusive(s, period) && Enabled(s, a) && 1 <= period <= MAX_UPDATE_TIMEOUT_MSECS
    requires Orderly(s, a, period)
    ensures Exclusive(Apply(s, a, period), period)
  {
    var t := Apply(s, a, period);
    if a.Check? {
      CheckIsExclusive(s, a.id, period);
    } else {
      forall i, j, key | Committed(t, i, key) && Committed(t, j, key)
        ensures i == j
      {
        assert Committed(s, i, key) && Committed(s, j, key);
      }
      forall i | i in t.runners && t.runners[i].Running?
        ensures HoldsFreshFlag(t, i, period)
      {
        if !(a.Raise? && a.id == i) {
          assert HoldsFreshFlag(s, i, period);
        }
        assert Committed(t, i, t.runners[i].key) && Committed(s, i, t.runners[i].key);
        if (a.Raise? || a.Beat? || a.Finish?) && a.id != i {
          assert Committed(s, a.id, s.runners[a.id].key);
        }
      }
      forall i | i in t.runners && t.runners[i].Cleared?
        ensures FlagHolder(t.flags, t.runners[i].key, t.now, StaleAfter(period)).None?
      {
        assert Committed(t, i, t.runners[i].key) && Committed(s, i, t.runners[i].key);
        if (a.Raise? || a.Beat?) && a.id != i {
          assert Committed(s, a.id, s.runners[a.id].key);
        }
      }
    }
  }

  lemma CheckIsExclusive(s: LockState, id: RunnerId, period: nat)
    requires Exclusive(s, period) && Enabled(s, Check(id)) && Orderly(s, Check(id), period)
    ensures Exclusive(Apply(s, Check(id), period), period)
  {
    var t := Apply(s, Check(id), period);
    var key := s.runners[id].key;
    forall i | i != id && Committed(s, i, key)
      ensures !t.runners[id].Cleared?
    {
      assert HoldsFreshFlag(s, i, period);
    }
    forall i, j, k | Committed(t, i, k) && Committed(t, j, k)
      ensures i == j
    {
      assert i != id ==> Committed(s, i, k);
      assert j != id ==> Committed(s, j, k);
    }
    forall i | i in t.runners && t.runners[i].Running?
      ensures HoldsFreshFlag(t, i, period)
    {
      assert HoldsFreshFlag(s, i, period);
    }
  }

  // Without the first hypothesis two workers can run one job, from the very start.
  lemma TwoLooksRunTwice(key: Key, period: nat)
    ensures exists actions :: Possible(START, actions, period) &&
              var t := AfterAll(START, actions, period);
              Runs(t, 0) && Runs(t, 1) && t.runners[0].key == t.runners[1].key == key
  {
    var raised := [Raise(0), Raise(1)];
    var looked := [Check(0)] + ([Check(1)] + raised);
    var s2 := START.(runners := map[0 := Entered(key), 1 := Entered(key)]);
    var s4 := START.(runners := map[0 := Cleared(key), 1 := Cleared(key)]);
    BothRaise(s4, key, period);
    assert s4.runners == s2.runners[0 := Cleared(key)][1 := Cleared(key)];
    OneAction(Apply(s2, Check(0), period), Check(1), raised, period);
    OneAction(s2, Check(0), [Check(1)] + raised, period);
    assert s2.runners == map[][0 := Entered(key)][1 := Entered(key)];
    OneAction(Apply(START, Enter(0, key), period), Enter(1, key), looked, period);
    OneAction(START, Enter(0, key), [Enter(1, key)] + looked, period);
  }

  lemma BothRaise(s: LockState, key: Key, period: nat)
    requires 0 in s.runners && 1 in s.runners && s.runners[0] == Cleared(key) && s.runners[1] == Cleared(key)
    ensures Possible(s, [Raise(0), Raise(1)], period)
    ensures var t := AfterAll(s, [Raise(0), Raise(1)], period);
            Runs(t, 0) && Runs(t, 1) && t.runners[0].key == t.runners[1].key == key
  {
    var next := Apply(s, Raise(0), period);
    OneAction(next, Raise(1), [], period);
    OneAction(s, Raise(0), [Raise(1)], period);
    assert [Raise(0)] + [Raise(1)] == [Raise(0), Raise(1)] && [Raise(1)] + [] == [Raise(1)];
  }

  lemma OneAction(s: LockState, a: Action, rest: seq<Action>, period: nat)
    requires Enabled(s, a) && Possible(Apply(s, a, period), rest, period)
    ensures Possible(s, [a] + rest, period)
    ensures AfterAll(s, [a] + rest, period) == AfterAll(Apply(s, a, period), rest, period)
  {
    assert ([a] + rest)[1..] == rest;
  }

  ghost predicate OrderlyRun(s: LockState, actions: seq<Action>, period: nat)
    requires Possible(s, actions, period)
    decreases |actions|
  {
    actions == [] || (Orderly(s, actions[0], period) && OrderlyRun(Apply(s, actions[0], period), actions[1..], period))
  }

  // Main result, mutual exclusion: in every state an orderly run reaches, at most one worker runs a job key.
  lemma {:induction false} AtMostOneRuns(s: LockState, actions: seq<Action>, period: nat, i: RunnerId, j: RunnerId)
    requires Exclusive(s, period) && 1 <= period <= MAX_UPDATE_TIMEOUT_MSECS
    requires Possible(s, actions, period) && OrderlyRun(s, actions, period)
    ensures var t := AfterAll(s, actions, period);
            && Exclusive(t, period)
            && (Runs(t, i) && Runs(t, j) && t.runners[i].key == t.runners[j].key ==> i == j)
    decreases |actions|
  {
    hide Apply, Orderly;
    if actions == [] {
      if Runs(s, i) && Runs(s, j) && s.runners[i].key == s.runners[j].key {
        assert Committed(s, i, s.runners[i].key) && Committed(s, j, s.runners[i].key);
      }
    } else {
      ExclusiveStep(s, actions[0], period);
      AtMostOneRuns(Apply(s, actions[0], period), actions[1..], period, i, j);
    }
  }

  // From the start on, with the period the constructor settles on.
  lemma AtMostOneRunsFromStart(timeoutMsecs: nat, actions: seq<Action>, i: RunnerId, j: RunnerId)
    requires timeoutMsecs >= 1
    requires Possible(START, actions, Period(timeoutMsecs)) && OrderlyRun(START, actions, Period(timeoutMsecs))
    ensures var t := AfterAll(START, actions, Period(timeoutMsecs));
            Runs(t, i) && Runs(t, j) && t.runners[i].key == t.runners[j].key ==> i == j
  {
    StartIsExclusive(Period(timeoutMsecs));
    AtMostOneRuns(START, actions, Period(timeoutMsecs), i, j);
  }

  // ---- The hypotheses are exact -------------------------------------------------------------------------------------

  /** Two runners run one job. */
  ghost predicate RunsTwice(s: LockState) {
    exists i, j :: i != j && Runs(s, i) && Runs(s, j) && s.runners[i].key == s.runners[j].key
  }

  /** However the runners go on, as long as they are orderly, no job is run twice. */
  ghost predicate StaysExclusive(s: LockState, period: nat) {
    forall actions | Possible(s, actions, period) && OrderlyRun(s, actions, period) ::
      !RunsTwice(AfterAll(s, actions, period))
  }

  // Main result: each hypothesis is exactly what its step needs. From a state in which the lock works, a step is
  // orderly if and only if no orderly continuation makes two runners run one job.
  lemma OrderlyIsExact(s: LockState, a: Action, period: nat)
    requires Exclusive(s, period) && Enabled(s, a) && 1 <= period <= MAX_UPDATE_TIMEOUT_MSECS
    ensures Orderly(s, a, period) <==> StaysExclusive(Apply(s, a, period), period)
  {
    hide Exclusive, Apply, StaysExclusive;
    if Orderly(s, a, period) {
      ExclusiveStep(s, a, period);
      ExclusiveStays(Apply(s, a, period), period);
    } else {
      match a {
        case Check(id) =>
          var other :| other in s.runners && s.runners[other] == Cleared(s.runners[id].key);
          LookDuringRaise(s, id, other, period);
        case Tick(msecs) =>
          var id :| id in s.runners && s.runners[id].Running?
                    && s.now + msecs - s.runners[id].lastBeat >= StaleAfter(period);
          TickWithoutBeat(s, msecs, id, period);
        case _ =>
      }
    }
  }

  lemma ExclusiveStays(s: LockState, period: nat)
    requires Exclusive(s, period) && 1 <= period <= MAX_UPDATE_TIMEOUT_MSECS
    ensures StaysExclusive(s, period)
  {
    hide Possible, OrderlyRun, AfterAll, Exclusive;
    forall actions | Possible(s, actions, period) && OrderlyRun(s, actions, period)
      ensures !RunsTwice(AfterAll(s, actions, period))
    {
      var t := AfterAll(s, actions, period);
      forall i, j | Runs(t, i) && Runs(t, j) && t.runners[i].key == t.runners[j].key
        ensures i == j
      {
        AtMostOneRuns(s, actions, period, i, j);
      }
    }
  }

  lemma OrderlyAction(s: LockState, a: Action, rest: seq<Action>, period: nat)
    requires Enabled(s, a) && Orderly(s, a, period)
    requires Possible(Apply(s, a, period), rest, period) && OrderlyRun(Apply(s, a, period), rest, period)
    ensures Possible(s, [a] + rest, period) && OrderlyRun(s, [a] + rest, period)
    ensures AfterAll(s, [a] + rest, period) == AfterAll(Apply(s, a, period), rest, period)
  {
    hide Apply, Orderly, Enabled;
    OneAction(s, a, rest, period);
    assert ([a] + rest)[1..] == rest;
  }

  lemma NotStaying(s: LockState, actions: seq<Action>, period: nat)
    requires Possible(s, actions, period) && OrderlyRun(s, actions, period) && RunsTwice(AfterAll(s, actions, period))
    ensures !StaysExclusive(s, period)
  {
  }

  // A look while another runner is about to raise its flag: then both raise.
  lemma LookDuringRaise(s: LockState, id: RunnerId, other: RunnerId, period: nat)
    requires Exclusive(s, period) && Enabled(s, Check(id))
    requires other in s.runners && s.runners[other] == Cleared(s.runners[id].key)
    ensures !StaysExclusive(Apply(s, Check(id), period), period)
  {
    var key := s.runners[id].key;
    var t := Apply(s, Check(id), period);
    assert t.runners[id] == Cleared(key) && t.runners[other] == Cleared(key);
    var u := Apply(t, Raise(id), period);
    var v := Apply(u, Raise(other), period);
    assert Runs(v, id) && Runs(v, other);
    assert RunsTwice(v);
    hide Apply, Exclusive, RunsTwice;
    OrderlyAction(u, Raise(other), [], period);
    OrderlyAction(t, Raise(id), [Raise(other)] + [], period);
    NotStaying(t, [Raise(id)] + ([Raise(other)] + []), period);
  }

  // Ten periods without a beat: then a newcomer finds the flag stale and raises its own.
  lemma TickWithoutBeat(s: LockState, msecs: nat, id: RunnerId, period: nat)
    requires Exclusive(s, period)
    requires id in s.runners && s.runners[id].Running? && s.now + msecs - s.runners[id].lastBeat >= StaleAfter(period)
    ensures !StaysExclusive(Apply(s, Tick(msecs), period), period)
  {
    var newcomer := UnusedId(s.runners.Keys);
    var key := s.runners[id].key;
    var t := Apply(s, Tick(msecs), period);
    var entered := Apply(t, Enter(newcomer, key), period);
    NobodyElseCleared(s, id, period);
    assert Orderly(entered, Check(newcomer), period);
    assert HoldsFreshFlag(s, id, period);
    var cleared := Apply(entered, Check(newcomer), period);
    assert cleared.runners[newcomer] == Cleared(key);
    var end := Apply(cleared, Raise(newcomer), period);
    assert Runs(end, id) && Runs(end, newcomer);
    assert RunsTwice(end);
    hide Apply, Exclusive, RunsTwice;
    OrderlyAction(cleared, Raise(newcomer), [], period);
    OrderlyAction(entered, Check(newcomer), [Raise(newcomer)] + [], period);
    OrderlyAction(t, Enter(newcomer, key), [Check(newcomer)] + ([Raise(newcomer)] + []), period);
    NotStaying(t, [Enter(newcomer, key)] + ([Check(newcomer)] + ([Raise(newcomer)] + [])), period);
  }

  lemma NobodyElseCleared(s: LockState, id: RunnerId, period: nat)
    requires Exclusive(s, period) && id in s.runners && s.runners[id].Running?
    ensures forall other :: other in s.runners ==> s.runners[other] != Cleared(s.runners[id].key)
  {
    var key := s.runners[id].key;
    forall other | other in s.runners && other != id
      ensures s.runners[other] != Cleared(key)
    {
      assert Committed(s, id, key);
      assert s.runners[other] == Cleared(key) ==> Committed(s, other, key);
    }
  }

  lemma HasElement(ids: set<RunnerId>)
    ensures ids == {} || exists id :: id in ids
  {
    if forall id :: id !in ids {
      assert ids == {};
    }
  }

  lemma UnusedId(ids: set<RunnerId>) returns (unused: RunnerId)
    ensures forall id :: id in ids ==> id < unused
    decreases |ids|
  {
    HasElement(ids);
    if id :| id in ids {
      var rest := UnusedId(ids - {id});
      unused := if rest > id then rest else id + 1;
      assert forall other :: other in ids ==> other == id || other in ids - {id};
    } else {
      unused := 0;
    }
  }

  // ---- Recovery -----------------------------------------------------------------------------------------------------

  /** The flag the log leaves for a key. */
  function LastFlag(log: seq<Change>, key: Key): Option<Flag> {
    if log == [] then None
    else
      var last := log[|log| - 1];
      if last.key != key then LastFlag(log[..|log| - 1], key)
      else if last.Raised? then Some(last.flag) else None
  }

  /** The store is what the log says, and runners know what they saw. */
  ghost predicate Logged(s: LockState) {
    && (forall key :: LastFlag(s.log, key) == if key in s.flags then Some(s.flags[key]) else None)
    && (forall id :: id in s.runners && s.runners[id].Watching? ==>
          var w := s.runners[id];
          && w.logged <= |s.log| && LastFlag(s.log[..w.logged], w.key) == Some(w.seen) && w.seen.jobRunnerId == w.other)
  }

  predicate Wrote(change: Change, id: RunnerId) {
    (change.Raised? && change.flag.jobRunnerId == id) || (change.Dropped? && change.dropper == Some(id))
  }

  /** Who has not raised a flag of its own has not written at all. */
  ghost predicate SilentBeforeRaise(s: LockState) {
    && (forall i | 0 <= i < |s.log| ::
          forall id :: Wrote(s.log[i], id) ==> id in s.runners && MayHaveWritten(s.runners[id]))
  }

  predicate MayHaveWritten(p: Phase) {
    p.Running? || p.Thrown? || p.Crashed? || p == Finished(E_OK)
  }

  lemma LoggedStep(s: LockState, a: Action, period: nat)
    requires Logged(s) && Enabled(s, a)
    ensures Logged(Apply(s, a, period))
    ensures s.log <= Apply(s, a, period).log
  {
    var t := Apply(s, a, period);
    if t.log != s.log {
      assert t.log[..|t.log| - 1] == s.log;
    } else {
      assert t.flags == s.flags;
    }
    forall id | id in t.runners && t.runners[id].Watching?
      ensures var w := t.runners[id];
              && w.logged <= |t.log| && LastFlag(t.log[..w.logged], w.key) == Some(w.seen)
                   && w.seen.jobRunnerId == w.other
    {
      var w := t.runners[id];
      if a.FirstLook? && a.id == id {
        assert t.log[..w.logged] == s.log;
      } else {
        assert t.log[..w.logged] == s.log[..w.logged];
      }
    }
  }

  lemma SilentStep(s: LockState, a: Action, period: nat)
    requires SilentBeforeRaise(s) && Enabled(s, a)
    ensures SilentBeforeRaise(Apply(s, a, period))
  {
    var t := Apply(s, a, period);
    forall i, id | 0 <= i < |t.log| && Wrote(t.log[i], id)
      ensures id in t.runners && MayHaveWritten(t.runners[id])
    {
      if i < |s.log| {
        assert t.log[i] == s.log[i];
      }
    }
  }

  lemma {:induction false} RunsAreLogged(s: LockState, actions: seq<Action>, period: nat)
    requires Logged(s) && SilentBeforeRaise(s) && Possible(s, actions, period)
    ensures var t := AfterAll(s, actions, period); Logged(t) && SilentBeforeRaise(t) && s.log <= t.log
    decreases |actions|
  {
    hide Apply, Logged, SilentBeforeRaise;
    if actions != [] {
      LoggedStep(s, actions[0], period);
      SilentStep(s, actions[0], period);
      RunsAreLogged(Apply(s, actions[0], period), actions[1..], period);
    }
  }

  lemma StartIsLogged()
    ensures Logged(START) && SilentBeforeRaise(START)
  {
  }

  // What a runner finds when it looks: it goes ahead if and only if there is no flag or the flag is ten periods old.
  lemma GoesAheadIff(s: LockState, id: RunnerId, period: nat)
    requires Enabled(s, Check(id))
    ensures var key := s.runners[id].key;
            Apply(s, Check(id), period).runners[id] == Cleared(key) <==>
            (key !in s.flags || s.now >= s.flags[key].timestamp + StaleAfter(period))
  {
  }

  /** Nobody raised the flag of the key in the part of the log after `from`. */
  ghost predicate NotRaisedSince(log: seq<Change>, from: nat, key: Key) {
    forall i | from <= i < |log| :: !(log[i].Raised? && log[i].key == key)
  }

  lemma {:induction false} UnraisedFlag(log: seq<Change>, from: nat, key: Key)
    requires from <= |log| && NotRaisedSince(log, from, key)
    ensures LastFlag(log, key) == LastFlag(log[..from], key) || LastFlag(log, key) == None
    decreases |log| - from
  {
    if from == |log| {
      assert log[..from] == log;
    } else {
      UnraisedFlag(log[..|log| - 1], from, key);
      assert log[..|log| - 1][..from] == log[..from];
    }
  }

  // Main result, recovery: when a worker has crashed and ten periods have passed since its last beat, whoever looks for
  // the flag goes ahead, in every interleaving, unless another runner has taken over the key in the meantime.
  lemma CrashedKeyRecovers(s: LockState, actions: seq<Action>, period: nat, crashed: RunnerId, key: Key, id: RunnerId)
    requires Logged(s) && SilentBeforeRaise(s) && Possible(s, actions, period)
    requires crashed in s.runners && s.runners[crashed].Crashed? && key in s.flags
        && s.flags[key].jobRunnerId == crashed
    requires var t := AfterAll(s, actions, period);
             && t.now >= s.flags[key].timestamp + StaleAfter(period)
             && NotRaisedSince(t.log, |s.log|, key)
             && Enabled(t, Check(id)) && t.runners[id].key == key
    ensures Apply(AfterAll(s, actions, period), Check(id), period).runners[id] == Cleared(key)
  {
    var t := AfterAll(s, actions, period);
    RunsAreLogged(s, actions, period);
    assert t.log[..|s.log|] == s.log;
    UnraisedFlag(t.log, |s.log|, key);
    GoesAheadIff(t, id, period);
  }

  // ---- The verdicts -------------------------------------------------------------------------------------------------

  lemma {:induction false} ChangedFlagWasRaised(log: seq<Change>, from: nat, key: Key) returns (i: nat)
    requires from <= |log| && LastFlag(log, key).Some? && LastFlag(log, key) != LastFlag(log[..from], key)
    ensures from <= i < |log| && log[i] == Raised(key, LastFlag(log, key).value)
    decreases |log|
  {
    assert log[..|log|] == log;
    if from == |log| {
      i := from;
      assert false;
    } else {
      var front, last := log[..|log| - 1], log[|log| - 1];
      assert front[..from] == log[..from];
      if last.key == key {
        i := |log| - 1;
      } else {
        i := ChangedFlagWasRaised(front, from, key);
      }
    }
  }

  // Main result, in every interleaving and without any hypothesis: "another worker is doing this job" is answered only
  // if the observed runner has written its flag between the two looks.
  lemma LiveVerdictIsSound(s: LockState, id: RunnerId, period: nat) returns (i: nat)
    requires Logged(s) && Enabled(s, SecondLook(id))
    requires Apply(s, SecondLook(id), period).runners[id] == Finished(E_OTHER_WORKER_DOING_THIS_JOB)
    ensures var w := s.runners[id];
            && w.logged <= i < |s.log|
            && s.log[i].Raised? && s.log[i].key == w.key
            && s.log[i].flag.jobRunnerId == w.other && s.log[i].flag.timestamp > w.seen.timestamp
  {
    var w := s.runners[id];
    i := ChangedFlagWasRaised(s.log, w.logged, w.key);
  }

  // Main result: whoever was told to stay away, or to try again later, has written nothing, so it has not run the job.
  lemma TurnedAwayWroteNothing(s: LockState, actions: seq<Action>, period: nat, id: RunnerId, i: nat)
    requires Logged(s) && SilentBeforeRaise(s) && Possible(s, actions, period)
    requires var t := AfterAll(s, actions, period);
             && id in t.runners && i < |t.log|
             && t.runners[id] in {Finished(E_OTHER_WORKER_DOING_THIS_JOB), Finished(E_NOT_SURE_TRY_AGAIN_LATER)}
    ensures !Wrote(AfterAll(s, actions, period).log[i], id)
  {
    RunsAreLogged(s, actions, period);
  }

  // From the start on.
  lemma TurnedAwayFromStart(timeoutMsecs: nat, actions: seq<Action>, id: RunnerId, i: nat)
    requires Possible(START, actions, Period(timeoutMsecs))
    requires var t := AfterAll(START, actions, Period(timeoutMsecs));
             && id in t.runners && i < |t.log|
             && t.runners[id] in {Finished(E_OTHER_WORKER_DOING_THIS_JOB), Finished(E_NOT_SURE_TRY_AGAIN_LATER)}
    ensures !Wrote(AfterAll(START, actions, Period(timeoutMsecs)).log[i], id)
  {
    StartIsLogged();
    TurnedAwayWroteNothing(START, actions, Period(timeoutMsecs), id, i);
  }

  // ---- A live worker is recognised ----------------------------------------------------------------------------------

  /** Time stamps are not in the future, and whoever watches a flag looks again two periods after it was seen. */
  ghost predicate WatchesLongEnough(s: LockState, period: nat) {
    && (forall key :: key in s.flags ==> s.flags[key].timestamp <= s.now)
    && (forall id :: id in s.runners && s.runners[id].Watching? ==>
          s.runners[id].seen.timestamp + 2 * period <= s.runners[id].wakeAt)
  }

  lemma {:induction false} RunsWatchLongEnough(s: LockState, actions: seq<Action>, period: nat)
    requires WatchesLongEnough(s, period) && Possible(s, actions, period)
    ensures WatchesLongEnough(AfterAll(s, actions, period), period)
    decreases |actions|
  {
    if actions != [] {
      assert WatchesLongEnough(Apply(s, actions[0], period), period);
      hide Apply, WatchesLongEnough;
      RunsWatchLongEnough(Apply(s, actions[0], period), actions[1..], period);
    }
  }

  // The partner of the sound verdict: in every state a run from the start reaches, a worker that has written its flag
  // within the last two periods is recognised at the second look.
  lemma LiveRunnerIsRecognised(actions: seq<Action>, period: nat, id: RunnerId)
    requires Possible(START, actions, period) && Enabled(AfterAll(START, actions, period), SecondLook(id))
    requires var t := AfterAll(START, actions, period);
             var w := t.runners[id];
             w.key in t.flags && t.flags[w.key].jobRunnerId == w.other && t.now - t.flags[w.key].timestamp < 2 * period
    ensures Apply(AfterAll(START, actions, period), SecondLook(id), period).runners[id]
            == Finished(E_OTHER_WORKER_DOING_THIS_JOB)
  {
    hide AfterAll, Possible;
    RunsWatchLongEnough(START, actions, period);
  }

  // ---- A finished job frees its key ---------------------------------------------------------------------------------

  // As soon as a runner is done, with or without an error, whoever looks next goes ahead with the same key.
  lemma FinishedKeyIsFree(s: LockState, id: RunnerId, threw: bool, next: RunnerId, period: nat)
    requires Enabled(s, Finish(id, threw)) && next != id
    requires Enabled(s, Check(next)) && s.runners[next].key == s.runners[id].key
    ensures var t := Apply(s, Finish(id, threw), period);
            && t.runners[id] == (if threw then Thrown else Finished(E_OK))
            && Enabled(t, Check(next))
            && Apply(t, Check(next), period).runners[next] == Cleared(s.runners[id].key)
  {
  }
}
