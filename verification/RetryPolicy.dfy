/** How long a failed delivery waits, and what a webhook receiver may ask for. */
module RetryPolicy {
  import opened Wrappers

  const DELAYS: seq<int> := [30, 120, 600, 1800]

  function Min(a: int, b: int): int { if a <= b then a else b }

  function Max(a: int, b: int): int { if a >= b then a else b }

  /** Seconds until the attempt after number `attempt`; the last delay repeats. */
  function ScheduledDelay(attempt: int): (seconds: int)
    ensures 30 <= seconds <= 1800
    ensures attempt >= 4 ==> seconds == 1800
  {
    DELAYS[Min(Max(attempt - 1, 0), |DELAYS| - 1)]
  }

  /** Half a minute, two minutes, ten minutes, and half an hour from then on. */
  lemma DelayTable(attempt: int)
    ensures attempt <= 1 ==> ScheduledDelay(attempt) == 30
    ensures attempt == 2 ==> ScheduledDelay(attempt) == 2 * 60
    ensures attempt == 3 ==> ScheduledDelay(attempt) == 10 * 60
    ensures attempt >= 4 ==> ScheduledDelay(attempt) == 30 * 60
  {
  }

  /** The delays never shrink from one attempt to the next. */
  lemma DelaysNeverShrink(a: int, b: int)
    requires a <= b
    ensures ScheduledDelay(a) <= ScheduledDelay(b)
  {
  }

  /** The Retry-After header: absent, delay-seconds, an HTTP-date, or neither. */
  datatype RetryAfter = Absent | Seconds(n: nat) | HttpDate(at: int) | Unreadable

  /** Division rounding up. */
  function CeilDiv(x: int, unit: int): int
    requires unit > 0
  {
    -((-x) / unit)
  }

  function ParseRetryAfter(value: RetryAfter, now: int): Option<int> {
    match value
    case Seconds(n) => Some(Min(3600, Max(30, n)))
    case HttpDate(at) => Some(Min(3600, Max(30, CeilDiv(at - now, 1000))))
    case _ => None
  }

  const NO_STATUS := 0

  /** When the next attempt is due; the receiver's wish counts for 429 and 503 only. */
  function NextAttempt(attempt: int, retryAfter: RetryAfter, status: int, now: int): int {
    var asked := if status == 429 || status == 503 then ParseRetryAfter(retryAfter, now) else None;
    now + (if asked.Some? then asked.value else ScheduledDelay(attempt)) * 1000
  }

  datatype HttpOutcome = Response(statusCode: int, retryAfter: RetryAfter) | NetworkError

  predicate Retryable(statusCode: int) {
    statusCode == 408 || statusCode == 425 || statusCode == 429 || statusCode >= 500
  }

  /** What a delivery worker decides after an attempt. */
  datatype Decision = Decision(succeeded: bool, retry: bool, nextAttemptAt: Option<int>)

  function Decide(attempt: int, maxAttempts: int, outcome: HttpOutcome, now: int): Decision {
    match outcome
    case NetworkError =>
      var retry := attempt < maxAttempts;
      Decision(false, retry, if retry then Some(NextAttempt(attempt, Absent, NO_STATUS, now)) else None)
    case Response(code, retryAfter) =>
      if 200 <= code < 300 then Decision(true, false, None)
      else
        var retry := Retryable(code) && attempt < maxAttempts;
        Decision(false, retry, if retry then Some(NextAttempt(attempt, retryAfter, code, now)) else None)
  }

  /** What a receiver that is overloaded or unavailable asks for; other responses cannot ask. */
  function Asked(outcome: HttpOutcome): RetryAfter {
    if outcome.Response? && outcome.statusCode in {429, 503} then outcome.retryAfter else Absent
  }

  /** The outcomes after which a webhook is sent again, attempts permitting. */
  predicate Transient(outcome: HttpOutcome) {
    outcome.NetworkError? || outcome.statusCode in {408, 425, 429} || 500 <= outcome.statusCode
  }

  /**
    Exactly transient failures below the last attempt are retried, and every retry is scheduled between 30
    and 3600 seconds ahead: as long as the receiver asks, within those bounds, or else by the fixed schedule.
   */
  lemma RetriesAreBounded(attempt: int, maxAttempts: int, outcome: HttpOutcome, now: int)
    ensures var d := Decide(attempt, maxAttempts, outcome, now);
            && (d.succeeded <==> outcome.Response? && 200 <= outcome.statusCode < 300)
            && (d.retry <==> attempt < maxAttempts && Transient(outcome))
            && (d.retry <==> d.nextAttemptAt.Some?)
            && (d.retry ==> now + 30_000 <= d.nextAttemptAt.value <= now + 3_600_000)
    ensures var d := Decide(attempt, maxAttempts, outcome, now);
            d.retry ==>
              match Asked(outcome)
              case Seconds(n) => 30 <= n <= 3600 ==> d.nextAttemptAt.value == now + n * 1000
              case HttpDate(at) => now + 30_000 <= at <= now + 3_600_000 ==> at <= d.nextAttemptAt.value < at + 1000
              case _ => d.nextAttemptAt.value == now + ScheduledDelay(attempt) * 1000
  {
    if outcome.Response? && outcome.retryAfter.HttpDate? { CeilDivBounds(outcome.retryAfter.at - now); }
  }

  lemma CeilDivBounds(x: int)
    ensures x <= CeilDiv(x, 1000) * 1000 < x + 1000
  {
  }

  // ----- E-mail

  datatype SendOutcome = Sent | SmtpFailure(retryable: bool) | OtherFailure | Undecryptable

  function DecideEmail(attempt: int, maxAttempts: int, outcome: SendOutcome, now: int): Decision {
    match outcome
    case Sent => Decision(true, false, None)
    case Undecryptable => Decision(false, false, None)
    case OtherFailure => Decision(false, false, None)
    case SmtpFailure(retryable) =>
      var retry := retryable && attempt < maxAttempts;
      Decision(false, retry, if retry then Some(now + ScheduledDelay(attempt) * 1000) else None)
  }

  /** An e-mail is retried exactly after a retryable SMTP failure below the last attempt, 30 to 1800 seconds ahead. */
  lemma EmailRetriesAreBounded(attempt: int, maxAttempts: int, outcome: SendOutcome, now: int)
    ensures var d := DecideEmail(attempt, maxAttempts, outcome, now);
            && (d.retry <==> outcome == SmtpFailure(true) && attempt < maxAttempts)
            && (d.retry ==> !d.succeeded)
            && (d.retry <==> d.nextAttemptAt.Some?)
            && (d.retry ==> now + 30_000 <= d.nextAttemptAt.value <= now + 1_800_000)
  {
  }
}
