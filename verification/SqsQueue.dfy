/**
 * One SQS queue and its message handling (src/sqs/sqs.ts): sending, deleting, delaying and retrying.
 */
module SqsQueue {
  import opened Wrappers
  import opened ErrorHandlers

  const MAX_MESSAGE_DELAY_SEC := 900.0
  const MAX_MESSAGE_VISIBILITY_TIMEOUT_SEC := 43199
  const EXTRA_VISIBILITY_TIMEOUT_DELAY := 2
  const ONE_DAY_MILLI := 24 * 60 * 60 * 1000

  type MessageId = nat

  /** The fields of a payload the queue looks at; absent, empty or zero fields are None. */
  datatype Payload = Payload(jiraHost: Option<string>, installationId: Option<int>, webhookReceived: Option<int>,
                             rateLimited: bool, rest: string)

  datatype Message = Message(payload: Payload, receiptHandle: bool, receiveCount: nat, delaySeconds: real,
                             visibilityTimeout: Option<int>)

  datatype Queue = Queue(name: string, timeoutSec: nat, maxAttempts: nat, messages: map<MessageId, Message>,
          nextId: MessageId)
  {
    ghost predicate Valid() {
      forall id :: id in messages ==> id < nextId
    }
  }

  /** What one execution meets: the clock, the rate limit, the handler and the SQS service. */
  datatype Environment = Environment(nowMsecs: int, limits: Option<(RateLimit, RateLimit)>, threshold: real,
                                     handled: Option<Error>, verdict: Error -> Option<Verdict>,
                                     sendWorks: bool, deleteWorks: bool, changeWorks: bool)

  function Seconds(msecs: int): real {
    msecs as real / 1000.0
  }

  // ---- Sending and delaying -----------------------------------------------------------------------------------------

  function SendDelay(delaySec: real): real {
    if delaySec >= MAX_MESSAGE_DELAY_SEC then MAX_MESSAGE_DELAY_SEC - 1.0 else delaySec
  }

  // Main result: no delay reaches the limit of the service, and a delay below the limit is used as it is.
  lemma SendDelayInRange(delaySec: real)
    requires delaySec >= 0.0
    ensures 0.0 <= SendDelay(delaySec) < 900.0
    ensures delaySec < 900.0 ==> SendDelay(delaySec) == delaySec
  {
  }

  // A message put off for the rate limit comes back after ten to fifteen minutes.
  lemma PreemptiveDelayInRange(queueName: string, limits: Option<(RateLimit, RateLimit)>, threshold: real, now: real)
    ensures var delay := PreemptiveRateLimitCheck(queueName, limits, threshold, now);
            delay.Some? ==> 600.0 <= SendDelay(delay.value) < 900.0
  {
  }

  /** `Math.round`. */
  function Round(x: real): int {
    (x + 0.5).Floor
  }

  /** The visibility timeout that is set, or None where the call refuses. */
  function VisibilityTimeout(timeoutSec: real): Option<int> {
    if timeoutSec < 0.0 then None
    else if timeoutSec >= MAX_MESSAGE_VISIBILITY_TIMEOUT_SEC as real then Some(MAX_MESSAGE_VISIBILITY_TIMEOUT_SEC)
    else Some(Round(timeoutSec))
  }

  // Main result: what is set lies within the range of the service, follows the wish to half a second, and keeps the
  // order of the wishes.
  lemma VisibilityInRange(a: real, b: real)
    requires 0.0 <= a <= b
    ensures VisibilityTimeout(a).Some? && VisibilityTimeout(b).Some?
    ensures 0 <= VisibilityTimeout(a).value <= VisibilityTimeout(b).value <= 43199
    ensures a <= 43199.0 ==> a - 0.5 <= VisibilityTimeout(a).value as real <= a + 0.5
  {
  }

  // So a rate-limited webhook waits no shorter on a later attempt.
  lemma RetriesWaitLonger(rateLimitReset: real, now: real, fewer: nat, more: nat)
    requires fewer < more && GithubRetryDelay(rateLimitReset, now, fewer) >= 0.0
    ensures var a := VisibilityTimeout(GithubRetryDelay(rateLimitReset, now, fewer));
            var b := VisibilityTimeout(GithubRetryDelay(rateLimitReset, now, more));
            && a.Some? && b.Some?
            && (a.value < b.value || a.value == b.value == MAX_MESSAGE_VISIBILITY_TIMEOUT_SEC)
  {
    GithubDelayGrows(rateLimitReset, now, fewer, more);
    assert GithubRetryDelay(rateLimitReset, now, more) >= GithubRetryDelay(rateLimitReset, now, fewer) + 3590.0;
    VisibilityInRange(GithubRetryDelay(rateLimitReset, now, fewer), GithubRetryDelay(rateLimitReset, now, more));
  }

  // ---- The queue as a value -----------------------------------------------------------------------------------------

  function SendMessage(q: Queue, payload: Payload, delaySec: real): Queue {
    q.(messages := q.messages[q.nextId := Message(payload, true, 0, SendDelay(delaySec), None)], nextId := q.nextId + 1)
  }

  /** Needs a receipt handle; a failing call is logged and forgotten. */
  function DeleteMessage(q: Queue, id: MessageId, env: Environment): Queue
    requires id in q.messages
  {
    if q.messages[id].receiptHandle && env.deleteWorks then q.(messages := q.messages - {id}) else q
  }

  function ChangeVisibilityTimeout(q: Queue, id: MessageId, timeoutSec: real, env: Environment): Queue
    requires id in q.messages
  {
    var m := q.messages[id];
    var timeout := VisibilityTimeout(timeoutSec);
    if !m.receiptHandle || timeout.None? || !env.changeWorks then q
    else q.(messages := q.messages[id := m.(visibilityTimeout := timeout)])
  }

  predicate IsStale(q: Queue, message: Message, env: Environment) {
    && q.name == "deployment"
    && message.payload.webhookReceived.Some?
    && env.nowMsecs - message.payload.webhookReceived.value > ONE_DAY_MILLI
  }

  function Postponement(q: Queue, env: Environment): Option<real> {
    PreemptiveRateLimitCheck(q.name, env.limits, env.threshold, Seconds(env.nowMsecs))
  }

  predicate GivenUp(q: Queue, message: Message, verdict: Verdict) {
    || !verdict.isFailure
    || !verdict.retryable
    || (verdict.skipDlq && message.receiveCount >= q.maxAttempts)
  }

  function HandleSqsMessageExecutionError(q: Queue, id: MessageId, error: Error, env: Environment): Queue
    requires id in q.messages
  {
    var verdict := env.verdict(error);
    if verdict.None? then q
    else if GivenUp(q, q.messages[id], verdict.value) then DeleteMessage(q, id, env)
    else if verdict.value.retryDelaySec.Some? then
      ChangeVisibilityTimeout(q, id, verdict.value.retryDelaySec.value, env)
    else q
  }

  /** The error of a failing send: a service error without a status of interest. */
  const SEND_FAILED := OtherError(None)

  function ExecuteMessage(q: Queue, id: MessageId, env: Environment): Queue
    requires id in q.messages
  {
    var message := q.messages[id];
    var payload := message.payload;
    if payload.jiraHost.None? || payload.installationId.None? then q
    else if IsStale(q, message, env) then DeleteMessage(q, id, env)
    else if Postponement(q, env).Some? then
      if !env.sendWorks then HandleSqsMessageExecutionError(q, id, SEND_FAILED, env)
      else DeleteMessage(SendMessage(q, payload.(rateLimited := true), Postponement(q, env).value), id, env)
    else
      var started := ChangeVisibilityTimeout(q, id, (q.timeoutSec + EXTRA_VISIBILITY_TIMEOUT_DELAY) as real, env);
      if env.handled.Some? then HandleSqsMessageExecutionError(started, id, env.handled.value, env)
      else DeleteMessage(started, id, env)
  }

  // ---- The class ----------------------------------------------------------------------------------------------------

  class SqsQueue {
    const name: string
    const timeoutSec: nat
    const maxAttempts: nat
    var messages: map<MessageId, Message>
    var nextId: MessageId

    function Value(): Queue
      reads this
    {
      Queue(name, timeoutSec, maxAttempts, messages, nextId)
    }

    constructor (name: string, timeoutSec: nat, maxAttempts: nat)
      ensures Value() == Queue(name, timeoutSec, maxAttempts, map[], 0)
    {
      this.name, this.timeoutSec, this.maxAttempts := name, timeoutSec, maxAttempts;
      messages, nextId := map[], 0;
    }

    method Send(payload: Payload, delaySec: real)
      modifies this
      ensures Value() == SendMessage(old(Value()), payload, delaySec)
    {
      var delay := delaySec;
      if delay >= MAX_MESSAGE_DELAY_SEC {
        delay := MAX_MESSAGE_DELAY_SEC - 1.0;
      }
      messages := messages[nextId := Message(payload, true, 0, delay, None)];
      nextId := nextId + 1;
    }

    method Delete(id: MessageId, env: Environment)
      requires id in messages
      modifies this
      ensures Value() == DeleteMessage(old(Value()), id, env)
    {
      if !messages[id].receiptHandle {
        return;
      }
      if env.deleteWorks {
        messages := messages - {id};
      }
    }

    method DeleteStale(id: MessageId, env: Environment) returns (deleted: bool)
      requires id in messages
      modifies this
      ensures deleted == IsStale(old(Value()), old(messages)[id], env)
      ensures Value() == if deleted then DeleteMessage(old(Value()), id, env) else old(Value())
    {
      if name != "deployment" {
        return false;
      }
      var webhookReceived := messages[id].payload.webhookReceived;
      if webhookReceived.None? {
        return false;
      }
      if env.nowMsecs - webhookReceived.value > ONE_DAY_MILLI {
        Delete(id, env);
        return true;
      }
      return false;
    }

    method ChangeVisibility(id: MessageId, timeoutSec: real, env: Environment) returns (changed: Option<int>)
      requires id in messages
      modifies this
      ensures Value() == ChangeVisibilityTimeout(old(Value()), id, timeoutSec, env)
      ensures changed.Some? ==> 0 <= changed.value <= MAX_MESSAGE_VISIBILITY_TIMEOUT_SEC
    {
      if !messages[id].receiptHandle {
        return None;
      }
      if timeoutSec < 0.0 {
        return None;
      }
      var timeout := timeoutSec;
      if timeout >= MAX_MESSAGE_VISIBILITY_TIMEOUT_SEC as real {
        timeout := MAX_MESSAGE_VISIBILITY_TIMEOUT_SEC as real;
      }
      var finalRoundedSec := Round(timeout);
      if env.changeWorks {
        messages := messages[id := messages[id].(visibilityTimeout := Some(finalRoundedSec))];
        return Some(finalRoundedSec);
      }
      return None;
    }

    method HandleError(id: MessageId, error: Error, env: Environment)
      requires id in messages
      modifies this
      ensures Value() == HandleSqsMessageExecutionError(old(Value()), id, error, env)
    {
      var result := env.verdict(error);
      if result.None? {
        return;
      }
      var verdict := result.value;
      if !verdict.isFailure {
        Delete(id, env);
      } else if !verdict.retryable {
        Delete(id, env);
      } else if verdict.skipDlq && messages[id].receiveCount >= maxAttempts {
        Delete(id, env);
      } else if verdict.retryDelaySec.Some? {
        var _ := ChangeVisibility(id, verdict.retryDelaySec.value, env);
      }
    }

    method Execute(id: MessageId, env: Environment)
      requires id in messages && Value().Valid()
      modifies this
      ensures Value() == ExecuteMessage(old(Value()), id, env)
    {
      var payload := messages[id].payload;
      if payload.jiraHost.None? {
        return;
      }
      if payload.installationId.None? {
        return;
      }
      var deleted := DeleteStale(id, env);
      if deleted {
        return;
      }
      var resetTimeInSeconds := PreemptiveRateLimitCheck(name, env.limits, env.threshold, Seconds(env.nowMsecs));
      if resetTimeInSeconds.Some? {
        if !env.sendWorks {
          HandleError(id, SEND_FAILED, env);
          return;
        }
        Send(payload.(rateLimited := true), resetTimeInSeconds.value);
        Delete(id, env);
        return;
      }
      var _ := ChangeVisibility(id, (timeoutSec + EXTRA_VISIBILITY_TIMEOUT_DELAY) as real, env);
      if env.handled.Some? {
        HandleError(id, env.handled.value, env);
        return;
      }
      Delete(id, env);
    }
  }

  // ---- Runs ---------------------------------------------------------------------------------------------------------

  datatype Event =
    | Sent(payload: Payload, delaySec: real)
    | Received(id: MessageId)
    | Executed(id: MessageId, env: Environment)

  function Next(q: Queue, event: Event): Queue {
    match event {
      case Sent(payload, delaySec) => SendMessage(q, payload, delaySec)
      case Received(id) =>
        if id !in q.messages then q
        else q.(messages := q.messages[id := q.messages[id].(receiveCount := q.messages[id].receiveCount + 1)])
      case Executed(id, env) => if id !in q.messages then q else ExecuteMessage(q, id, env)
    }
  }

  function After(q: Queue, events: seq<Event>): Queue
    decreases |events|
  {
    if events == [] then q else Next(After(q, events[..|events| - 1]), events[|events| - 1])
  }

  predicate Addressed(message: Message) {
    message.payload.jiraHost.Some? && message.payload.installationId.Some?
  }

  predicate ErrorGivesUp(before: Queue, id: MessageId, error: Error, env: Environment)
    requires id in before.messages
  {
    env.verdict(error).Some? && GivenUp(before, before.messages[id], env.verdict(error).value)
  }

  /** A copy that waits for the rate limit, queued before the original goes. */
  ghost predicate Replaced(before: Queue, id: MessageId, resetTimeInSeconds: real, after: Queue)
    requires id in before.messages
  {
    exists copy :: copy in after.messages && copy !in before.messages
                   && after.messages[copy].payload == before.messages[id].payload.(rateLimited := true)
                   && after.messages[copy].delaySeconds == SendDelay(resetTimeInSeconds)
                   && 600.0 <= after.messages[copy].delaySeconds < 900.0
  }

  /** The stated reasons for which an addressed message may go. */
  ghost predicate Justified(before: Queue, id: MessageId, env: Environment, after: Queue)
    requires id in before.messages
  {
    var message := before.messages[id];
    && Addressed(message)
    && if IsStale(before, message, env) then true
       else if Postponement(before, env).Some? then
         if env.sendWorks then Replaced(before, id, Postponement(before, env).value, after)
         else ErrorGivesUp(before, id, SEND_FAILED, env)
       else env.handled.None? || ErrorGivesUp(before, id, env.handled.value, env)
  }

  lemma ExecutionKeepsOthers(q: Queue, id: MessageId, env: Environment)
    requires id in q.messages && q.Valid()
    ensures var t := ExecuteMessage(q, id, env);
            && t.Valid() && t.nextId >= q.nextId
            && (forall other :: other in q.messages && other != id ==>
                  other in t.messages && t.messages[other] == q.messages[other])
  {
  }

  // Main result, one execution: as long as the service deletes what it is asked to delete, a message goes if and only
  // if one of the stated reasons holds.
  lemma RemovedIffJustified(q: Queue, id: MessageId, env: Environment)
    requires id in q.messages && q.Valid()
    ensures var t := ExecuteMessage(q, id, env);
            id !in t.messages <==> q.messages[id].receiptHandle && env.deleteWorks && Justified(q, id, env, t)
  {
    var message := q.messages[id];
    var t := ExecuteMessage(q, id, env);
    if Addressed(message) && !IsStale(q, message, env) && Postponement(q, env).Some? && env.sendWorks {
      PreemptiveDelayInRange(q.name, env.limits, env.threshold, Seconds(env.nowMsecs));
      assert q.nextId in t.messages && q.nextId !in q.messages;
      assert Replaced(q, id, Postponement(q, env).value, t);
    }
  }

  // A message whose handler failed and that is to be retried stays hidden for the delay of the verdict, or, where there
  // is none, for the time limit of the handler and two seconds.
  lemma RetriedMessageWaits(q: Queue, id: MessageId, env: Environment)
    requires id in q.messages && q.messages[id].receiptHandle && env.changeWorks
    requires Addressed(q.messages[id]) && !IsStale(q, q.messages[id], env) && Postponement(q, env).None?
    requires env.handled.Some? && env.verdict(env.handled.value).Some?
    requires !GivenUp(q, q.messages[id], env.verdict(env.handled.value).value)
    ensures var t, delay := ExecuteMessage(q, id, env), env.verdict(env.handled.value).value.retryDelaySec;
            && id in t.messages && t.messages[id].payload == q.messages[id].payload
            && t.messages[id].visibilityTimeout ==
               if delay.Some? && delay.value >= 0.0 then VisibilityTimeout(delay.value)
               else Some(if q.timeoutSec + 2 < 43199 then q.timeoutSec + 2 else 43199)
  {
    WholeSeconds(q.timeoutSec + 2);
  }

  lemma WholeSeconds(n: nat)
    ensures VisibilityTimeout(n as real) == Some(if n < 43199 then n else 43199)
  {
  }

  // For a webhook queue the verdict is the one of the Jira and GitHub handler: a failing message is given up exactly
  // for the statuses 401, 403 and 404, and never for a GitHub rate limit.
  lemma WebhookGivesUpIff(q: Queue, id: MessageId, error: Error, env: Environment, useJiraRateLimit: bool)
    requires id in q.messages
    requires env.verdict(error) == Some(JiraAndGitHubErrorsHandler(error, q.messages[id].receiveCount,
                                                                   Seconds(env.nowMsecs), useJiraRateLimit))
    ensures ErrorGivesUp(q, id, error, env) <==> HasUnretryableStatus(error) && !error.GithubRateLimiting?
  {
    DiscardedIff(error, q.messages[id].receiveCount, Seconds(env.nowMsecs), useJiraRateLimit);
  }

  lemma {:induction false} RunsStayValid(q: Queue, events: seq<Event>)
    requires q.Valid()
    ensures After(q, events).Valid()
    decreases |events|
  {
    hide ExecuteMessage;
    if events != [] {
      var front, last := events[..|events| - 1], events[|events| - 1];
      RunsStayValid(q, front);
      var before := After(q, front);
      if last.Executed? && last.id in before.messages {
        ExecutionKeepsOthers(before, last.id, last.env);
      }
    }
  }

  // Main result: in any run, a message that is gone was removed by an execution of that very message, for one of the
  // stated reasons; everything else that happens to the queue leaves it in place.
  lemma {:induction false} RemovedForAReason(q: Queue, events: seq<Event>, id: MessageId) returns (k: nat)
    requires q.Valid() && id in q.messages && id !in After(q, events).messages
    ensures k < |events| && events[k].Executed? && events[k].id == id
    ensures id in After(q, events[..k]).messages
    ensures Justified(After(q, events[..k]), id, events[k].env, After(q, events[..k + 1]))
    decreases |events|
  {
    hide ExecuteMessage, Justified;
    var front, last := events[..|events| - 1], events[|events| - 1];
    var before := After(q, front);
    RunsStayValid(q, front);
    if id !in before.messages {
      k := RemovedForAReason(q, front, id);
      assert front[..k] == events[..k] && front[..k + 1] == events[..k + 1];
    } else {
      k := |events| - 1;
      assert events[..k] == front && events[..k + 1] == events;
      if last.Executed? && last.id in before.messages {
        ExecutionKeepsOthers(before, last.id, last.env);
        if last.id == id {
          RemovedIffJustified(before, id, last.env);
        }
      }
    }
  }

  // Messages without a Jira host or an installation are never deleted by the worker.
  lemma UnaddressedMessagesStay(q: Queue, id: MessageId, env: Environment)
    requires id in q.messages
    requires q.messages[id].payload.jiraHost.None? || q.messages[id].payload.installationId.None?
    ensures ExecuteMessage(q, id, env) == q
  {
  }
}
