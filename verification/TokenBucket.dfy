/** One caller's token bucket.

    Token counts are exact: they are counted in nano-tokens, so that a refill of `rps` tokens per second
    over `n` nanoseconds is the integer `n * rps`. Instants are integers, in nanoseconds. */
module TokenBucket {
  import opened Prelude

  // One token, in nano-tokens; also the number of nanoseconds in a second.
  const TOKEN: nat := 1_000_000_000

  datatype Rate = Rate(rps: nat, burst: nat) {
    function Capacity(): nat { burst * TOKEN }
  }

  datatype Decision =
    | Allow(recovered: bool)
    | Deny(retryAfterSecs: nat, newlyLimited: bool)

  datatype BucketState = BucketState(tokens: nat, updatedAt: int, limited: bool)

  function Fresh(rate: Rate, now: int): BucketState {
    BucketState(rate.Capacity(), now, false)
  }

  // A `now` in the bucket's past counts as "no time elapsed".
  function Elapsed(since: int, now: int): nat {
    if now >= since then now - since else 0
  }

  function Refilled(rate: Rate, b: BucketState, now: int): nat {
    Min(b.tokens + Elapsed(b.updatedAt, now) * rate.rps, rate.Capacity())
  }

  // The deficit divided by the refill rate, rounded up to whole seconds, at least one.
  function RetryAfterSecs(rate: Rate, deficit: nat): nat {
    if rate.rps == 0 then U64_MAX
    else Min(Max(1, (deficit + rate.rps * TOKEN - 1) / (rate.rps * TOKEN)), U64_MAX)
  }

  // The bucket after a call at `now`, and the answer to that call.
  function After(rate: Rate, b: BucketState, now: int): BucketState {
    var t := Refilled(rate, b, now);
    if t >= TOKEN then BucketState(t - TOKEN, now, false) else BucketState(t, now, true)
  }

  function Verdict(rate: Rate, b: BucketState, now: int): Decision {
    var t := Refilled(rate, b, now);
    if t >= TOKEN then Allow(b.limited) else Deny(RetryAfterSecs(rate, TOKEN - t), !b.limited)
  }

  predicate Pristine(rate: Rate, b: BucketState, now: int) {
    !b.limited && b.tokens + Elapsed(b.updatedAt, now) * rate.rps >= rate.Capacity()
  }

  class Bucket {
    var tokens: nat
    var updatedAt: int
    var limited: bool

    ghost function View(): BucketState
      reads this
    {
      BucketState(tokens, updatedAt, limited)
    }

    constructor (capacity: nat, now: int)
      ensures View() == BucketState(capacity, now, false)
    {
      tokens, updatedAt, limited := capacity, now, false;
    }

    method Take(rate: Rate, now: int) returns (decision: Decision)
      modifies this
      ensures View() == After(rate, old(View()), now)
      ensures decision == Verdict(rate, old(View()), now)
    {
      var refilled := Elapsed(updatedAt, now) * rate.rps;
      tokens := Min(tokens + refilled, rate.Capacity());
      updatedAt := now;
      if tokens >= TOKEN {
        tokens := tokens - TOKEN;
        var recovered := limited;
        limited := false;
        decision := Allow(recovered);
      } else {
        var deficit := TOKEN - tokens;
        var retryAfterSecs := RetryAfterSecs(rate, deficit);
        var newlyLimited := !limited;
        limited := true;
        decision := Deny(retryAfterSecs, newlyLimited);
      }
    }

    predicate IsPristine(rate: Rate, now: int)
      reads this
      ensures IsPristine(rate, now) == Pristine(rate, View(), now)
    {
      if limited then false
      else tokens + Elapsed(updatedAt, now) * rate.rps >= rate.Capacity()
    }
  }

  /* ---------- Refilling ---------- */

  lemma Distribute(a: int, b: int, r: int)
    ensures (a + b) * r == a * r + b * r
  {}

  // Refilling in two steps is refilling once: a call that only reads the clock costs nothing.
  lemma RefillComposes(rate: Rate, b: BucketState, mid: int, now: int)
    requires b.updatedAt <= mid <= now
    ensures Refilled(rate, b.(tokens := Refilled(rate, b, mid), updatedAt := mid), now) == Refilled(rate, b, now)
  {}

  lemma ElapsedMonotone(b: BucketState, rps: nat, t0: int, t1: int)
    requires t0 <= t1
    ensures Elapsed(b.updatedAt, t0) * rps <= Elapsed(b.updatedAt, t1) * rps
  {}

  /* ---------- Pristine buckets are exactly the unobservable ones ---------- */

  predicate Ordered(times: seq<int>) {
    forall i, j :: 0 <= i < j < |times| ==> times[i] <= times[j]
  }

  function Decisions(rate: Rate, b: BucketState, times: seq<int>): (ds: seq<Decision>)
    ensures |ds| == |times|
    decreases |times|
  {
    if times == [] then []
    else [Verdict(rate, b, times[0])] + Decisions(rate, After(rate, b, times[0]), times[1..])
  }

  // No sequence of calls from `now` on tells `b` from a bucket created at its first call.
  ghost predicate Indistinguishable(rate: Rate, b: BucketState, now: int) {
    forall times: seq<int> :: times != [] && Ordered(times) && times[0] >= now ==>
      Decisions(rate, b, times) == Decisions(rate, Fresh(rate, times[0]), times)
  }

  lemma PristineTakesLikeFresh(rate: Rate, b: BucketState, now: int, t: int)
    requires Pristine(rate, b, now) && now <= t
    ensures After(rate, b, t) == After(rate, Fresh(rate, t), t)
    ensures Verdict(rate, b, t) == Verdict(rate, Fresh(rate, t), t)
  {
    ElapsedMonotone(b, rate.rps, now, t);
  }

  ghost predicate AllAllowed(ds: seq<Decision>) {
    forall i :: 0 <= i < |ds| ==> ds[i].Allow?
  }

  lemma AllAllowedCons(d: Decision, ds: seq<Decision>)
    ensures AllAllowed([d] + ds) <==> d.Allow? && AllAllowed(ds)
  {
    assert forall i :: 0 <= i < |ds| ==> ds[i] == ([d] + ds)[i + 1];
    assert ([d] + ds)[0] == d;
  }

  function Burst(now: int, n: nat): (times: seq<int>)
    ensures |times| == n && forall i :: 0 <= i < n ==> times[i] == now
  {
    if n == 0 then [] else [now] + Burst(now, n - 1)
  }

  // `n` calls at one instant all succeed exactly when the bucket holds `n` tokens then.
  lemma {:induction false} DrainAtOneInstant(rate: Rate, b: BucketState, now: int, n: nat)
    requires b.updatedAt == now && b.tokens <= rate.Capacity()
    ensures AllAllowed(Decisions(rate, b, Burst(now, n))) <==> b.tokens >= n * TOKEN
    decreases n
  {
    if n != 0 {
      var rest := Decisions(rate, After(rate, b, now), Burst(now, n - 1));
      assert Burst(now, n)[1..] == Burst(now, n - 1);
      assert Decisions(rate, b, Burst(now, n)) == [Verdict(rate, b, now)] + rest;
      AllAllowedCons(Verdict(rate, b, now), rest);
      assert Refilled(rate, b, now) == b.tokens;
      Distribute(n - 1, 1, TOKEN);
      assert n * TOKEN == (n - 1) * TOKEN + TOKEN && (n - 1) * TOKEN >= 0;
      if b.tokens >= TOKEN {
        DrainAtOneInstant(rate, After(rate, b, now), now, n - 1);
      }
    }
  }

  // A bucket that is not pristine answers a burst at `now` differently from a full one.
  lemma DepletedIsDistinguishable(rate: Rate, b: BucketState, now: int)
    requires rate.burst >= 1 && !Pristine(rate, b, now)
    ensures Decisions(rate, b, Burst(now, rate.burst)) != Decisions(rate, Fresh(rate, now), Burst(now, rate.burst))
  {
    var full := Fresh(rate, now);
    var b' := BucketState(Refilled(rate, b, now), now, b.limited);
    var burst := Burst(now, rate.burst);
    assert After(rate, b, now) == After(rate, b', now) && Verdict(rate, b, now) == Verdict(rate, b', now);
    assert Decisions(rate, b, burst) == Decisions(rate, b', burst);
    assert rate.Capacity() >= TOKEN;
    DrainAtOneInstant(rate, full, now, rate.burst);
    DrainAtOneInstant(rate, b', now, rate.burst);
    assert Decisions(rate, full, burst)[0] == Allow(false);
    assert Decisions(rate, b', burst)[0] == Verdict(rate, b', now);
  }

  // Forgetting a bucket can never be observed if, and only if, the bucket is pristine.
  lemma PristineIffIndistinguishable(rate: Rate, b: BucketState, now: int)
    requires rate.burst >= 1
    ensures Pristine(rate, b, now) <==> Indistinguishable(rate, b, now)
  {
    if Pristine(rate, b, now) {
      forall times: seq<int> | times != [] && Ordered(times) && times[0] >= now
        ensures Decisions(rate, b, times) == Decisions(rate, Fresh(rate, times[0]), times)
      {
        PristineTakesLikeFresh(rate, b, now, times[0]);
      }
    } else {
      DepletedIsDistinguishable(rate, b, now);
      var burst := Burst(now, rate.burst);
      assert burst != [] && Ordered(burst) && burst[0] == now;
    }
  }

  /* ---------- The flags report transitions ---------- */

  // `recovered` and `newlyLimited`, relative to whether the answer before was a denial.
  ghost predicate Reports(d: Decision, deniedBefore: bool) {
    match d
    case Allow(recovered) => recovered <==> deniedBefore
    case Deny(_, newlyLimited) => newlyLimited <==> !deniedBefore
  }

  // Over any calls on any bucket, an admission reports recovery exactly after a denial, and a denial reports being
  // newly limited exactly after an admission.
  lemma {:induction false} FlagsAreTransitions(rate: Rate, b: BucketState, times: seq<int>, i: nat)
    requires 0 < i < |times|
    ensures var ds := Decisions(rate, b, times);
            Reports(ds[i], ds[i - 1].Deny?)
    decreases i
  {
    var after := After(rate, b, times[0]);
    assert Decisions(rate, b, times)[1..] == Decisions(rate, after, times[1..]);
    if i > 1 { FlagsAreTransitions(rate, after, times[1..], i - 1); }
  }

  // The first answer of a fresh bucket reports no recovery, and a denial as new.
  lemma FreshReportsNoRecovery(rate: Rate, now: int, times: seq<int>)
    requires times != []
    ensures Reports(Decisions(rate, Fresh(rate, now), times)[0], false)
  {}

  /* ---------- Retry-After ---------- */

  // With a configuration the server accepts, every denial says "retry after one second".
  lemma RetryAfterIsOneSecond(rate: Rate, deficit: nat)
    requires rate.rps >= 1 && deficit <= TOKEN
    ensures RetryAfterSecs(rate, deficit) == 1
  {
    var d := rate.rps * TOKEN;
    assert d >= TOKEN by { Distribute(rate.rps - 1, 1, TOKEN); }
    DivideBelowTwo(deficit + d - 1, d);
  }

  lemma DivideBelowTwo(x: nat, d: nat)
    requires 0 < d && x < 2 * d
    ensures x / d <= 1
  {}
}
