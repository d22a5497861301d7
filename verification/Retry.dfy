/** The retry loop `Scoped::send_with_retry` and its policy.

    The environment is arbitrary: what each attempt yields, how long it takes, and what the jitter draws. Time is
    in nanoseconds; a sleep takes exactly as long as asked. */
module Retry {
  import opened Prelude

  datatype Verb = GET | HEAD | POST | PUT | DELETE | PATCH

  // The errors a request can end in, as far as retrying distinguishes them.
  datatype Error =
    | RateLimited(retryAfter: Option<nat>)
    | Api(status: nat)
    | Transport(transient: bool)
    | OtherError

  // What one attempt yields: a success, a failed status or transport, or a failure while reading the body of a
  // failed status, which is returned at once. A `Retry-After` here is as the server sent it.
  datatype Attempt<+R> = Success(response: R) | Failure(error: Error) | BodyError(error: Error)

  datatype Policy = Policy(maxRetries: nat, base: nat, maxBackoff: nat)

  datatype Request = Request(verb: Verb, bearer: bool, cloneable: bool)

  datatype Env<!R> = Env(attempt: nat -> Attempt<R>, duration: nat -> nat, jitter: nat -> nat)

  predicate VerbIsRetryable(v: Verb) { v.GET? || v.HEAD? }

  predicate IsRetryable(e: Error) {
    match e
    case RateLimited(_) => true
    case Api(status) => 500 <= status < 600
    case Transport(transient) => transient
    case OtherError => false
  }

  function Clamped(e: Error, maxBackoff: nat): Error {
    match e
    case RateLimited(Some(d)) => RateLimited(Some(Min(d, maxBackoff)))
    case _ => e
  }

  // `base * 2^n`
  function Doubled(base: nat, n: nat): nat { if n == 0 then base else 2 * Doubled(base, n - 1) }

  // Full jitter: any whole number of milliseconds up to the capped exponential delay; `draw` picks which.
  function BackoffDuration(policy: Policy, attempt: nat, draw: nat): (d: nat)
    ensures d <= policy.maxBackoff
  {
    var scaled := if attempt < 32 then Doubled(policy.base, attempt) else policy.base * 0xFFFF_FFFF;
    var capMillis := Min(Min(scaled, policy.maxBackoff) / 1_000_000, U64_MAX);
    Min(draw, capMillis) * 1_000_000
  }

  // One request sent: when, what came of it (with the delay hint clamped), and the sleep that followed.
  datatype Sent<+R> = Sent(start: int, outcome: Attempt<R>, end: int, slept: nat)

  datatype Trace<+R> = Trace(sent: seq<Sent<R>>, result: Result<R, Error>)

  predicate CanRetry(policy: Policy, req: Request, e: Error, attempt: nat, now: int, deadline: int) {
    && VerbIsRetryable(req.verb)
    && IsRetryable(e)
    && !(req.bearer && e == Api(500))
    && attempt < policy.maxRetries
    && now < deadline
  }

  function Backoff<R>(env: Env<R>, policy: Policy, e: Error, attempt: nat, remaining: nat): nat {
    match e
    case RateLimited(Some(d)) => Min(d, remaining)
    case _ => Min(BackoffDuration(policy, attempt, env.jitter(attempt)), remaining)
  }

  // One turn of the loop, at time `now`: what was sent, and the result if the loop ends with it.
  function Turn<R>(env: Env<R>, policy: Policy, req: Request, deadline: int, attempt: nat, now: int)
    : (Sent<R>, Option<Result<R, Error>>)
  {
    var end := now + env.duration(attempt);
    match env.attempt(attempt)
    case Success(response) => (Sent(now, Success(response), end, 0), Some(Ok(response)))
    case BodyError(e) => (Sent(now, BodyError(e), end, 0), Some(Err(e)))
    case Failure(raw) =>
      var e := Clamped(raw, policy.maxBackoff);
      if !CanRetry(policy, req, e, attempt, end, deadline) then (Sent(now, Failure(e), end, 0), Some(Err(e)))
      else (Sent(now, Failure(e), end, Backoff(env, policy, e, attempt, deadline - end)), None)
  }

  // `checked_add(total_timeout).unwrap_or(now)`: `horizon` is the last representable instant.
  function Deadline(now: int, totalTimeout: nat, horizon: int): int {
    if now + totalTimeout > horizon then now else now + totalTimeout
  }

  // The requests in `sent`, made from `start` on, each failed and was retried; `now` is when the next is due.
  ghost predicate Retried<R>(env: Env<R>, policy: Policy, req: Request, deadline: int, start: int,
                             sent: seq<Sent<R>>, now: int)
  {
    && (forall i :: 0 <= i < |sent| ==> Turn(env, policy, req, deadline, i, sent[i].start) == (sent[i], None))
    && (forall i :: 0 <= i < |sent| ==> StartsInTurn(sent, start, i))
    && now == if sent == [] then start else sent[|sent| - 1].end + sent[|sent| - 1].slept
  }

  // The first request starts at once, each other when the sleep after the one before is over.
  ghost predicate StartsInTurn<R>(sent: seq<Sent<R>>, start: int, i: int)
    requires 0 <= i < |sent|
  {
    sent[i].start == if i == 0 then start else sent[i - 1].end + sent[i - 1].slept
  }

  // What a whole call sends and returns.
  ghost predicate Sends<R>(env: Env<R>, policy: Policy, req: Request, deadline: int, start: int, t: Trace<R>) {
    if !req.cloneable then t == Trace([], Err(OtherError))
    else
      && t.sent != []
      && var front, last := t.sent[..|t.sent| - 1], t.sent[|t.sent| - 1];
         && Retried(env, policy, req, deadline, start, front, last.start)
         && Turn(env, policy, req, deadline, |front|, last.start) == (last, Some(t.result))
  }

  lemma OneMoreRetry<R>(env: Env<R>, policy: Policy, req: Request, deadline: int, start: int,
                        sent: seq<Sent<R>>, now: int, s: Sent<R>)
    requires Retried(env, policy, req, deadline, start, sent, now)
    requires Turn(env, policy, req, deadline, |sent|, now) == (s, None)
    ensures Retried(env, policy, req, deadline, start, sent + [s], s.end + s.slept)
  {
    forall i | 0 <= i < |sent + [s]| ensures StartsInTurn(sent + [s], start, i) {
      assert i < |sent| ==> StartsInTurn(sent, start, i);
    }
  }

  lemma LastTurn<R>(env: Env<R>, policy: Policy, req: Request, deadline: int, start: int,
                    sent: seq<Sent<R>>, now: int, s: Sent<R>, result: Result<R, Error>)
    requires req.cloneable && Retried(env, policy, req, deadline, start, sent, now)
    requires Turn(env, policy, req, deadline, |sent|, now) == (s, Some(result))
    ensures Sends(env, policy, req, deadline, start, Trace(sent + [s], result))
  {}

  method SendWithRetry<R>(env: Env<R>, policy: Policy, req: Request, start: int, totalTimeout: nat, horizon: int)
    returns (result: Result<R, Error>, sent: seq<Sent<R>>)
    ensures Sends(env, policy, req, Deadline(start, totalTimeout, horizon), start, Trace(sent, result))
  {
    var now := start;
    var deadline := Deadline(now, totalTimeout, horizon);
    var attempt := 0;
    sent := [];
    if !req.cloneable { return Err(OtherError), sent; }
    while true
      invariant attempt == |sent| && Retried(env, policy, req, deadline, start, sent, now)
      decreases policy.maxRetries - attempt
    {
      var began := now;
      var outcome := env.attempt(attempt);
      now := now + env.duration(attempt);
      match outcome {
        case Success(response) =>
          result, sent := Ok(response), sent + [Sent(began, outcome, now, 0)];
          LastTurn(env, policy, req, deadline, start, sent[..attempt], began, sent[attempt], result);
          return;
        case BodyError(e) =>
          result, sent := Err(e), sent + [Sent(began, outcome, now, 0)];
          LastTurn(env, policy, req, deadline, start, sent[..attempt], began, sent[attempt], result);
          return;
        case Failure(raw) =>
          var err := Clamped(raw, policy.maxBackoff);
          if !CanRetry(policy, req, err, attempt, now, deadline) {
            result, sent := Err(err), sent + [Sent(began, Failure(err), now, 0)];
            LastTurn(env, policy, req, deadline, start, sent[..attempt], began, sent[attempt], result);
            return;
          }
          var backoff := Backoff(env, policy, err, attempt, deadline - now);
          OneMoreRetry(env, policy, req, deadline, start, sent, began, Sent(began, Failure(err), now, backoff));
          sent := sent + [Sent(began, Failure(err), now, backoff)];
          now := now + backoff;
          attempt := attempt + 1;
      }
    }
  }

  /* ---------- The policy in plain terms ---------- */

  // Exactly the transient failures of the two idempotent verbs are retried, while attempts and time remain; a 500
  // under a bearer credential is not one.
  lemma CanRetryIff(policy: Policy, req: Request, e: Error, attempt: nat, now: int, deadline: int)
    ensures CanRetry(policy, req, e, attempt, now, deadline) <==>
              && (req.verb == GET || req.verb == HEAD)
              && (e.RateLimited? || e == Transport(true)
                  || exists status :: RetryableStatus(req, status) && e == Api(status))
              && attempt < policy.maxRetries && now < deadline
  {
    if e.Api? { assert RetryableStatus(req, e.status) <==> 500 <= e.status <= 599 && !(req.bearer && e.status == 500); }
  }

  ghost predicate RetryableStatus(req: Request, status: nat) {
    500 <= status <= 599 && !(req.bearer && status == 500)
  }

  ghost function PowerOfTwo(n: nat): nat { if n == 0 then 1 else 2 * PowerOfTwo(n - 1) }

  // The upper end of the jitter: the exponential delay, capped, in whole milliseconds.
  ghost function JitterCap(policy: Policy, attempt: nat): nat {
    var factor := if attempt < 32 then PowerOfTwo(attempt) else U32_MAX;
    Min(Min(policy.base * factor, policy.maxBackoff) / 1_000_000, U64_MAX)
  }

  lemma {:induction false} DoubledScales(base: nat, n: nat)
    ensures Doubled(base, n) == base * PowerOfTwo(n)
  {
    if n > 0 {
      DoubledScales(base, n - 1);
      assert base * (2 * PowerOfTwo(n - 1)) == 2 * (base * PowerOfTwo(n - 1));
    }
  }

  // Every whole number of milliseconds up to that end may be drawn, and no more than it.
  lemma JitterIsFull(policy: Policy, attempt: nat, draw: nat)
    ensures BackoffDuration(policy, attempt, draw) == Min(draw, JitterCap(policy, attempt)) * 1_000_000
  {
    DoubledScales(policy.base, attempt);
  }

  // What the caller is told of an attempt's outcome: the outcome itself, but a delay asked for is capped.
  ghost predicate Tells<R>(policy: Policy, outcome: Attempt<R>, told: Attempt<R>) {
    if outcome.Failure? && outcome.error.RateLimited? && outcome.error.retryAfter.Some? then
      told == Failure(RateLimited(Some(Min(outcome.error.retryAfter.value, policy.maxBackoff))))
    else told == outcome
  }

  // Attempt `number` of the environment, as it was sent.
  ghost predicate Reports<R>(env: Env<R>, policy: Policy, s: Sent<R>, number: nat) {
    && Tells(policy, env.attempt(number), s.outcome)
    && s.end == s.start + env.duration(number)
  }

  /* ---------- What every call respects ---------- */

  // Attempt `number` was followed by another for good reason, after a permitted sleep.
  ghost predicate RightlyRetried<R>(policy: Policy, req: Request, s: Sent<R>, number: nat, deadline: int) {
    && s.outcome.Failure?
    && var e := s.outcome.error;
       && CanRetry(policy, req, e, number, s.end, deadline)
       && s.slept <= policy.maxBackoff
       && s.end + s.slept <= deadline
       && (if e.RateLimited? && e.retryAfter.Some? then s.slept == Min(e.retryAfter.value, deadline - s.end)
           else s.slept <= JitterCap(policy, number) * 1_000_000)
  }

  // The last attempt decides the result, and an error is returned only when it may not be retried.
  ghost predicate RightlyReturned<R>(policy: Policy, req: Request, s: Sent<R>, number: nat, deadline: int,
                                     result: Result<R, Error>)
  {
    && s.slept == 0
    && match s.outcome
       case Success(response) => result == Ok(response)
       case BodyError(e) => result == Err(e)
       case Failure(e) => result == Err(e) && !CanRetry(policy, req, e, number, s.end, deadline)
  }

  lemma TurnIsRight<R>(env: Env<R>, policy: Policy, req: Request, deadline: int, attempt: nat, now: int)
    ensures var (s, final) := Turn(env, policy, req, deadline, attempt, now);
            && s.start == now <= s.end
            && Reports(env, policy, s, attempt)
            && (final.None? ==> RightlyRetried(policy, req, s, attempt, deadline))
            && (final.Some? ==> RightlyReturned(policy, req, s, attempt, deadline, final.value))
            && (final.None? && !(s.outcome.error.RateLimited? && s.outcome.error.retryAfter.Some?) ==>
                  s.slept == Min(Min(env.jitter(attempt), JitterCap(policy, attempt)) * 1_000_000, deadline - s.end))
  {
    JitterIsFull(policy, attempt, env.jitter(attempt));
  }

  lemma EachTurn<R>(env: Env<R>, policy: Policy, req: Request, deadline: int, now: int, t: Trace<R>, i: nat)
    requires Sends(env, policy, req, deadline, now, t) && req.cloneable && i < |t.sent| && now <= deadline
    ensures StartsInTurn(t.sent, now, i) && Reports(env, policy, t.sent[i], i) && now <= t.sent[i].start <= deadline
    ensures if i < |t.sent| - 1 then RightlyRetried(policy, req, t.sent[i], i, deadline)
            else RightlyReturned(policy, req, t.sent[i], i, deadline, t.result)
  {
    var n := |t.sent| - 1;
    TurnIsRight(env, policy, req, deadline, i, t.sent[i].start);
    StartsInOrder(env, policy, req, deadline, now, t.sent[..n], t.sent[n].start);
    if i < n {
      assert t.sent[i] == t.sent[..n][i];
      assert StartsInTurn(t.sent[..n], now, i);
    }
  }

  // Whatever the server, the clock and the jitter do: every attempt but the last was rightly retried and the last
  // rightly returned; at most `maxRetries` retries, one attempt only for verbs that are not idempotent, none after
  // a 500 under a bearer credential, none starting after the total timeout, and no sleep above the cap.
  lemma RetryBudget<R>(env: Env<R>, policy: Policy, req: Request, now: int, totalTimeout: nat, horizon: int,
                       t: Trace<R>)
    requires now <= horizon && Sends(env, policy, req, Deadline(now, totalTimeout, horizon), now, t)
    ensures req.cloneable <==> t.sent != []
    ensures !req.cloneable ==> t.result == Err(OtherError)
    ensures forall i :: 0 <= i < |t.sent| ==> Reports(env, policy, t.sent[i], i)
    ensures var deadline := if now + totalTimeout <= horizon then now + totalTimeout else now;
            forall i :: 0 <= i < |t.sent| ==>
              if i < |t.sent| - 1 then RightlyRetried(policy, req, t.sent[i], i, deadline)
              else RightlyReturned(policy, req, t.sent[i], i, deadline, t.result)
    ensures forall i :: 0 <= i < |t.sent| ==> StartsInTurn(t.sent, now, i)
    ensures |t.sent| <= policy.maxRetries + 1
    ensures !VerbIsRetryable(req.verb) ==> |t.sent| <= 1
    ensures forall i :: 0 <= i < |t.sent| ==> now <= t.sent[i].start <= now + totalTimeout
    ensures forall i :: 0 <= i < |t.sent| && req.bearer && t.sent[i].outcome == Failure(Api(500)) ==> i == |t.sent| - 1
  {
    if req.cloneable {
      var deadline, n := Deadline(now, totalTimeout, horizon), |t.sent| - 1;
      forall i | 0 <= i < |t.sent|
        ensures StartsInTurn(t.sent, now, i) && Reports(env, policy, t.sent[i], i)
        ensures now <= t.sent[i].start <= deadline
        ensures if i < n then RightlyRetried(policy, req, t.sent[i], i, deadline)
                else RightlyReturned(policy, req, t.sent[i], i, deadline, t.result)
      {
        EachTurn(env, policy, req, deadline, now, t, i);
      }
      assert n > 0 ==> RightlyRetried(policy, req, t.sent[n - 1], n - 1, deadline);
    }
  }

  // Time passes from attempt to attempt, but not beyond the deadline.
  lemma {:induction false} StartsInOrder<R>(env: Env<R>, policy: Policy, req: Request, deadline: int, start: int,
                                            sent: seq<Sent<R>>, now: int)
    requires Retried(env, policy, req, deadline, start, sent, now) && start <= deadline
    ensures start <= now <= deadline && forall i :: 0 <= i < |sent| ==> start <= sent[i].start <= deadline
  {
    if sent != [] {
      var n := |sent| - 1;
      assert StartsInTurn(sent, start, n);
      forall i | 0 <= i < n ensures StartsInTurn(sent[..n], start, i) { assert StartsInTurn(sent, start, i); }
      StartsInOrder(env, policy, req, deadline, start, sent[..n], sent[n].start);
      TurnIsRight(env, policy, req, deadline, n, sent[n].start);
    }
  }

  /* ---------- How far a call may overrun its budget ---------- */

  // The HTTP client gives every single attempt, reading its body included, the whole timeout again.
  ghost predicate Timely<R>(env: Env<R>, totalTimeout: nat) {
    forall n: nat :: env.duration(n) <= totalTimeout
  }

  ghost predicate EndsBy<R>(t: Trace<R>, limit: int) {
    forall i :: 0 <= i < |t.sent| ==> t.sent[i].end + t.sent[i].slept <= limit
  }

  // Only the last attempt can run past the deadline, so a call ends within twice its budget.
  lemma EndsWithinTwice<R>(env: Env<R>, policy: Policy, req: Request, now: int, totalTimeout: nat, horizon: int,
                           t: Trace<R>)
    requires now <= horizon && Sends(env, policy, req, Deadline(now, totalTimeout, horizon), now, t)
    requires Timely(env, totalTimeout)
    ensures EndsBy(t, now + 2 * totalTimeout)
    ensures |t.sent| > 1 ==> EndsBy(Trace(t.sent[..|t.sent| - 1], t.result), now + totalTimeout)
  {
    RetryBudget(env, policy, req, now, totalTimeout, horizon, t);
    if t.sent != [] {
      var n := |t.sent| - 1;
      assert t.sent[n].end == t.sent[n].start + env.duration(n);
      forall i | 0 <= i < n ensures t.sent[i].end + t.sent[i].slept <= now + totalTimeout {
        assert RightlyRetried(policy, req, t.sent[i], i, Deadline(now, totalTimeout, horizon));
      }
    }
  }

  // A second attempt can be made after the budget has begun to run out.
  predicate MayOverrun(policy: Policy, req: Request, now: int, totalTimeout: nat, horizon: int) {
    && req.cloneable && VerbIsRetryable(req.verb) && policy.maxRetries > 0
    && now + totalTimeout <= horizon
    && (totalTimeout >= 2 || (totalTimeout == 1 && policy.maxBackoff >= 1))
  }

  ghost predicate KeepsBudget<R(!new)>(policy: Policy, req: Request, now: int, totalTimeout: nat, horizon: int) {
    forall env: Env<R>, t: Trace<R> ::
      Timely(env, totalTimeout) && Sends(env, policy, req, Deadline(now, totalTimeout, horizon), now, t)
      ==> EndsBy(t, now + totalTimeout)
  }

  lemma LastStartsAtOnce<R>(env: Env<R>, policy: Policy, req: Request, now: int, totalTimeout: nat, horizon: int,
                            t: Trace<R>)
    requires now <= horizon && !MayOverrun(policy, req, now, totalTimeout, horizon) && t.sent != []
    requires Sends(env, policy, req, Deadline(now, totalTimeout, horizon), now, t)
    ensures t.sent[|t.sent| - 1].start == now && Reports(env, policy, t.sent[|t.sent| - 1], |t.sent| - 1)
  {
    var deadline, n := Deadline(now, totalTimeout, horizon), |t.sent| - 1;
    RetryBudget(env, policy, req, now, totalTimeout, horizon, t);
    if n > 0 {
      assert RightlyRetried(policy, req, t.sent[0], 0, deadline);
      assert RightlyRetried(policy, req, t.sent[n - 1], n - 1, deadline);
      assert Reports(env, policy, t.sent[n - 1], n - 1);
      assert StartsInTurn(t.sent, now, n);
    } else {
      assert StartsInTurn(t.sent, now, 0);
    }
  }

  lemma OverrunsNever<R>(env: Env<R>, policy: Policy, req: Request, now: int, totalTimeout: nat, horizon: int,
                         t: Trace<R>)
    requires now <= horizon && !MayOverrun(policy, req, now, totalTimeout, horizon)
    requires Timely(env, totalTimeout) && Sends(env, policy, req, Deadline(now, totalTimeout, horizon), now, t)
    ensures EndsBy(t, now + totalTimeout)
  {
    RetryBudget(env, policy, req, now, totalTimeout, horizon, t);
    EndsWithinTwice(env, policy, req, now, totalTimeout, horizon, t);
    if t.sent != [] { LastStartsAtOnce(env, policy, req, now, totalTimeout, horizon, t); }
  }

  // One attempt that fails a nanosecond in, or at once and asks for a nanosecond's delay, and one that takes the
  // whole timeout.
  lemma OverrunsOnce<R>(policy: Policy, req: Request, now: int, totalTimeout: nat, horizon: int)
    returns (env: Env<R>, t: Trace<R>)
    requires MayOverrun(policy, req, now, totalTimeout, horizon)
    ensures Timely(env, totalTimeout) && Sends(env, policy, req, Deadline(now, totalTimeout, horizon), now, t)
    ensures !EndsBy(t, now + totalTimeout)
  {
    var quick := if totalTimeout >= 2 then 1 else 0;
    var first := if totalTimeout >= 2 then Transport(true) else RateLimited(Some(1));
    env := Env((n: nat) => Failure(if n == 0 then first else OtherError),
               (n: nat) => if n == 0 then quick else totalTimeout, (_: nat) => 0);
    var s0: Sent<R> := Sent(now, Failure(first), now + quick, 1 - quick);
    var s1: Sent<R> := Sent(now + 1, Failure(OtherError), now + 1 + totalTimeout, 0);
    t := Trace([s0, s1], Err(OtherError));
    var deadline := Deadline(now, totalTimeout, horizon);
    assert BackoffDuration(policy, 0, 0) == 0;
    assert Turn(env, policy, req, deadline, 0, now) == (s0, None);
    assert Turn(env, policy, req, deadline, 1, now + 1) == (s1, Some(t.result));
    assert t.sent[..1] == [s0];
  }

  // Whatever happens upstream, the call stays within its budget if, and only if, it cannot make a second attempt once
  // time has passed.
  lemma KeepsBudgetIff<R(!new)>(policy: Policy, req: Request, now: int, totalTimeout: nat, horizon: int)
    requires now <= horizon
    ensures KeepsBudget<R>(policy, req, now, totalTimeout, horizon)
            <==> !MayOverrun(policy, req, now, totalTimeout, horizon)
  {
    if MayOverrun(policy, req, now, totalTimeout, horizon) {
      var env: Env<R>, t: Trace<R> := OverrunsOnce(policy, req, now, totalTimeout, horizon);
      assert !EndsBy(t, now + totalTimeout);
    } else {
      forall env: Env<R>, t: Trace<R>
        | Timely(env, totalTimeout) && Sends(env, policy, req, Deadline(now, totalTimeout, horizon), now, t)
        ensures EndsBy(t, now + totalTimeout)
      {
        OverrunsNever(env, policy, req, now, totalTimeout, horizon, t);
      }
    }
  }
}
