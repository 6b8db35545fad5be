/**
 * Verdicts and delays (src/sqs/error-handlers.ts, src/util/preemptive-rate-limit.ts). Times are in seconds, as reals,
 * because the clock is divided by 1000 without rounding.
 */
module ErrorHandlers {
  import opened Wrappers

  datatype Verdict = Verdict(isFailure: bool, retryable: bool, retryDelaySec: Option<real>, skipDlq: bool)

  /** The errors the handlers tell apart; `status` is the HTTP status, where there is one. */
  datatype Error =
    | JiraError(status: Option<int>)
    | JiraRateLimiting(status: Option<int>, retryAfterInSeconds: Option<real>)
    | GithubRateLimiting(status: Option<int>, rateLimitReset: real)
    | OtherError(status: Option<int>)

  const UNRETRYABLE_STATUS_CODES := {401, 404, 403}
  const BASE_RATE_LIMITING_DELAY_BUFFER_SEC := 60
  const RATE_LIMITING_BUFFER_STEP := 10
  const EXPONENTIAL_BACKOFF_BASE_SEC := 60
  const EXPONENTIAL_BACKOFF_MULTIPLIER := 3
  const ONE_HOUR_IN_SECONDS := 3600

  function Pow(b: nat, e: nat): nat {
    if e == 0 then 1 else b * Pow(b, e - 1)
  }

  function HandleUnknownError(receiveCount: nat): Verdict {
    var delaySec := EXPONENTIAL_BACKOFF_BASE_SEC * Pow(EXPONENTIAL_BACKOFF_MULTIPLIER, receiveCount);
    Verdict(true, true, Some(delaySec as real), false)
  }

  predicate HasUnretryableStatus(error: Error) {
    error.status.Some? && error.status.value in UNRETRYABLE_STATUS_CODES
  }

  const DISCARD := Verdict(false, false, None, false)

  function MaybeHandleNonFailureCase(error: Error): Option<Verdict> {
    if (error.JiraError? || error.JiraRateLimiting?) && HasUnretryableStatus(error) then Some(DISCARD) else None
  }

  /**
   * How long to wait for GitHub: until the reset, plus a buffer that shrinks and full hours that add up with retries.
   */
  function GithubRetryDelay(rateLimitReset: real, now: real, receiveCount: nat): real {
    var stepped := BASE_RATE_LIMITING_DELAY_BUFFER_SEC - receiveCount * RATE_LIMITING_BUFFER_STEP;
    var buffer := if stepped > RATE_LIMITING_BUFFER_STEP then stepped else RATE_LIMITING_BUFFER_STEP;
    rateLimitReset + buffer as real - now + (ONE_HOUR_IN_SECONDS * (receiveCount - 1)) as real
  }

  function MaybeHandleRateLimitingError(error: Error, receiveCount: nat, now: real,
          useJiraRateLimit: bool): Option<Verdict> {
    if error.GithubRateLimiting? then
      Some(Verdict(true, true, Some(GithubRetryDelay(error.rateLimitReset, now, receiveCount)), false))
    else if useJiraRateLimit && error.JiraRateLimiting? && error.retryAfterInSeconds.Some? then
      Some(Verdict(true, true, error.retryAfterInSeconds, false))
    else None
  }

  function MaybeHandleNonRetryableResponseCode(error: Error): Option<Verdict> {
    if HasUnretryableStatus(error) then Some(DISCARD) else None
  }

  function JiraAndGitHubErrorsHandler(error: Error, receiveCount: nat, now: real, useJiraRateLimit: bool): Verdict {
    var nonFailure := MaybeHandleNonFailureCase(error);
    var rateLimiting := MaybeHandleRateLimitingError(error, receiveCount, now, useJiraRateLimit);
    var nonRetryable := MaybeHandleNonRetryableResponseCode(error);
    if nonFailure.Some? then nonFailure.value
    else if rateLimiting.Some? then rateLimiting.value
    else if nonRetryable.Some? then nonRetryable.value
    else HandleUnknownError(receiveCount)
  }

  // A message is given up for its error exactly when the status is one of the three, and GitHub is not rate limiting:
  // GitHub answers 403 for rate limits too, and those are always retried.
  lemma DiscardedIff(error: Error, receiveCount: nat, now: real, useJiraRateLimit: bool)
    ensures var v := JiraAndGitHubErrorsHandler(error, receiveCount, now, useJiraRateLimit);
            && (!v.isFailure || !v.retryable <==> HasUnretryableStatus(error) && !error.GithubRateLimiting?)
            && (v.isFailure && v.retryable ==> v.retryDelaySec.Some?)
  {
  }

  // Main result: for a given reset and clock, every further retry waits strictly longer, by at least an hour less the
  // buffer step, although the buffer shrinks.
  lemma GithubDelayGrows(rateLimitReset: real, now: real, fewer: nat, more: nat)
    requires fewer < more
    ensures GithubRetryDelay(rateLimitReset, now, more)
            >= GithubRetryDelay(rateLimitReset, now, fewer)
               + ((ONE_HOUR_IN_SECONDS - RATE_LIMITING_BUFFER_STEP) * (more - fewer)) as real
  {
  }

  // A retry never comes before the limit is reset: it waits ten to fifty seconds longer, and an hour more for every
  // earlier attempt.
  lemma RetryAfterReset(rateLimitReset: real, now: real, receiveCount: nat)
    requires receiveCount >= 1
    ensures var hours := (3600 * (receiveCount - 1)) as real;
            10.0 <= GithubRetryDelay(rateLimitReset, now, receiveCount) - (rateLimitReset - now) - hours <= 50.0
  {
  }

  // Main result: an unknown error is retried after at least a minute, and every further retry waits strictly longer.
  lemma BackoffGrows(fewer: nat, more: nat)
    requires fewer < more
    ensures var before, after := HandleUnknownError(fewer).retryDelaySec, HandleUnknownError(more).retryDelaySec;
            before.Some? && after.Some? && 60.0 <= before.value < after.value
  {
    PowGrows(fewer, more);
  }

  lemma {:induction false} PowGrows(fewer: nat, more: nat)
    requires fewer < more
    ensures Pow(EXPONENTIAL_BACKOFF_MULTIPLIER, fewer) < Pow(EXPONENTIAL_BACKOFF_MULTIPLIER, more)
    ensures Pow(EXPONENTIAL_BACKOFF_MULTIPLIER, fewer) >= 1
    decreases more
  {
    if fewer + 1 < more {
      PowGrows(fewer, more - 1);
    } else {
      PowPositive(fewer);
    }
  }

  lemma {:induction false} PowPositive(e: nat)
    ensures Pow(EXPONENTIAL_BACKOFF_MULTIPLIER, e) >= 1
  {
    if e > 0 {
      PowPositive(e - 1);
    }
  }

  // ---- Preemptive rate limiting -------------------------------------------------------------------------------------

  datatype RateLimit = RateLimit(limit: nat, remaining: nat, reset: real)

  const DEFAULT_PREEMPTY_RATELIMIT_DELAY_IN_SECONDS := 600.0

  function Max(a: real, b: real): real {
    if a >= b then a else b
  }

  /** `(limit - remaining) / limit * 100 >= threshold`; a limit of 0 divides by 0, and no comparison with that holds. */
  predicate ExceedsThreshold(r: RateLimit, threshold: real) {
    r.limit != 0 && (r.limit - r.remaining) as real / r.limit as real * 100.0 >= threshold
  }

  function GetRateResetTimeInSeconds(core: RateLimit, graphql: RateLimit, now: real): real {
    Max(DEFAULT_PREEMPTY_RATELIMIT_DELAY_IN_SECONDS, Max(core.reset, graphql.reset) - now)
  }

  /** How long to put the message off; None goes ahead, also when the rate limit cannot be fetched. */
  function PreemptiveRateLimitCheck(queueName: string, limits: Option<(RateLimit, RateLimit)>, threshold: real,
          now: real)
    : Option<real>
  {
    if queueName != "backfill" && queueName != "deployment" then None
    else if limits.None? then None
    else
      var (core, graphql) := limits.value;
      if ExceedsThreshold(core, threshold) || ExceedsThreshold(graphql, threshold) then
        Some(GetRateResetTimeInSeconds(core, graphql, now))
      else None
  }

  /** The used share of a limit, without dividing. */
  predicate UsedUp(r: RateLimit, threshold: real) {
    r.limit > 0 && (r.limit - r.remaining) as real * 100.0 >= threshold * r.limit as real
  }

  lemma ThresholdWithoutDividing(r: RateLimit, threshold: real)
    ensures ExceedsThreshold(r, threshold) <==> UsedUp(r, threshold)
  {
    if r.limit > 0 {
      var used, limit := (r.limit - r.remaining) as real, r.limit as real;
      var share := used / limit;
      assert share * limit == used;
      TimesPositive(share * 100.0, threshold, limit);
      assert share * 100.0 * limit == used * 100.0;
    }
  }

  lemma TimesPositive(a: real, b: real, c: real)
    requires c > 0.0
    ensures a >= b <==> a * c >= b * c
  {
    if a >= b {
      assert (a - b) * c >= 0.0;
    } else {
      assert (b - a) * c > 0.0;
    }
  }

  // A message is put off exactly if one of the two limits is used up to the threshold, and then at least until both are
  // reset and for ten minutes, and no longer than that takes.
  lemma PostponedIff(queueName: string, limits: Option<(RateLimit, RateLimit)>, threshold: real, now: real)
    ensures var delay := PreemptiveRateLimitCheck(queueName, limits, threshold, now);
            && (delay.Some? <==>
                  && queueName in {"backfill", "deployment"} && limits.Some?
                  && (UsedUp(limits.value.0, threshold) || UsedUp(limits.value.1, threshold)))
            && (delay.Some? ==>
                  && delay.value >= 600.0
                  && delay.value >= limits.value.0.reset - now && delay.value >= limits.value.1.reset - now
                  && delay.value in [600.0, limits.value.0.reset - now, limits.value.1.reset - now])
  {
    hide ExceedsThreshold, UsedUp;
    if limits.Some? {
      ThresholdWithoutDividing(limits.value.0, threshold);
      ThresholdWithoutDividing(limits.value.1, threshold);
    }
  }
}
