/** Exactly which clocks keep the token-bucket bound: those that move forward, all in all, no further than the window.

    A clock is the sequence of its readings. Calls are made at readings in that order, any number at each. */
module LimiterClock {
  import opened Prelude
  import opened TokenBucket
  import opened Limiter
  import opened LimiterRuns
  import opened LimiterCapacity

  // How far a clock at `from` moves forward over the readings `ts`; backward jumps do not count.
  ghost function Moved(from: int, ts: seq<int>): nat
    decreases |ts|
  {
    if ts == [] then 0 else Elapsed(from, ts[0]) + Moved(ts[0], ts[1..])
  }

  ghost function Times<K>(calls: seq<Call<K>>): (ts: seq<int>)
    ensures |ts| == |calls|
    ensures forall i :: 0 <= i < |ts| ==> ts[i] == calls[i].now
  {
    seq(|calls|, i requires 0 <= i < |calls| => calls[i].now)
  }

  // `times` are readings of the clock, in its order: each may be used often, once or never.
  ghost predicate ReadFrom(times: seq<int>, ts: seq<int>)
    decreases |times| + |ts|
  {
    || times == []
    || (ts != [] && ((times[0] == ts[0] && ReadFrom(times[1..], ts)) || ReadFrom(times, ts[1..])))
  }

  // No single step forward is longer than `limit` nanoseconds.
  ghost predicate SmallSteps(ts: seq<int>, limit: nat) {
    forall i :: 0 <= i < |ts| - 1 ==> ts[i + 1] - ts[i] <= limit
  }

  // The rates the server's configuration accepts.
  predicate Accepted(rate: Rate) { 1 <= rate.rps <= rate.burst <= U32_MAX }

  // The bound for a window of `d` seconds, whatever the configuration and the calls at these readings.
  ghost predicate BoundHolds<K(!new)>(ts: seq<int>, d: nat) {
    forall setup: Setup<K>, r: Run<K>, k: K ::
      ValidRun(setup, r) && ReadFrom(Times(r.calls), ts) ==> WithinBound(setup, r, k, d)
  }

  ghost predicate BoundHoldsAccepted<K(!new)>(ts: seq<int>, d: nat) {
    forall setup: Setup<K>, r: Run<K>, k: K ::
      Accepted(setup.rate) && ValidRun(setup, r) && ReadFrom(Times(r.calls), ts) ==> WithinBound(setup, r, k, d)
  }

  ghost predicate WithinBound<K>(setup: Setup<K>, r: Run<K>, k: K, d: nat)
    requires ValidRun(setup, r)
  {
    var n := |r.calls|;
    Admitted(r, k, 0, n) <= setup.rate.burst * (1 + Evictions(r, k, 0, n)) + setup.rate.rps * d
  }

  /* ---------- Calls at a clock's readings move no further than the clock ---------- */

  lemma {:induction false} ForwardIsMoved<K>(calls: seq<Call<K>>, i: nat)
    requires i < |calls|
    ensures Forward(calls, i, |calls|) == Moved(calls[i].now, Times(calls)[i + 1..])
    decreases |calls| - i
  {
    if i + 1 < |calls| {
      ForwardFront(calls, i, |calls|);
      ForwardIsMoved(calls, i + 1);
      assert Times(calls)[i + 1..][1..] == Times(calls)[i + 2..];
    }
  }

  lemma {:induction false} ForwardFront<K>(calls: seq<Call<K>>, i: nat, j: nat)
    requires i + 1 < j <= |calls|
    ensures Forward(calls, i, j) == Elapsed(calls[i].now, calls[i + 1].now) + Forward(calls, i + 1, j)
    decreases j
  {
    if j > i + 2 { ForwardFront(calls, i, j - 1); }
  }

  lemma Detour(from: int, via: int, ts: seq<int>)
    ensures Moved(from, ts) <= Elapsed(from, via) + Moved(via, ts)
  {}

  lemma {:induction false} MovesNoFurther(from: int, times: seq<int>, ts: seq<int>)
    requires ReadFrom(times, ts)
    ensures Moved(from, times) <= Moved(from, ts)
    decreases |times| + |ts|
  {
    if times != [] {
      if times[0] == ts[0] && ReadFrom(times[1..], ts) {
        MovesNoFurther(ts[0], times[1..], ts);
      } else {
        MovesNoFurther(from, times, ts[1..]);
        Detour(from, ts[0], ts[1..]);
      }
    }
  }

  lemma {:induction false} StartsNoEarlier(times: seq<int>, ts: seq<int>)
    requires ReadFrom(times, ts) && times != []
    ensures ts != [] && Moved(times[0], times[1..]) <= Moved(ts[0], ts[1..])
    decreases |ts|
  {
    if times[0] == ts[0] && ReadFrom(times[1..], ts) {
      MovesNoFurther(ts[0], times[1..], ts);
    } else {
      StartsNoEarlier(times, ts[1..]);
    }
  }

  lemma SlowClockKeepsBound<K>(setup: Setup<K>, r: Run<K>, k: K, ts: seq<int>, d: nat)
    requires ValidRun(setup, r) && ReadFrom(Times(r.calls), ts)
    requires ts != [] && Moved(ts[0], ts[1..]) <= d * TOKEN
    ensures WithinBound(setup, r, k, d)
  {
    if r.calls != [] {
      ForwardIsMoved(r.calls, 0);
      StartsNoEarlier(Times(r.calls), ts);
      AnyClockBound(setup, r, k, 0, |r.calls|, d);
    }
  }

  /* ---------- And some calls at its readings spend every step forward ---------- */

  ghost function Allowed(ds: seq<Decision>): nat {
    if ds == [] then 0 else (if ds[0].Allow? then 1 else 0) + Allowed(ds[1..])
  }

  // At each reading: one call for every nanosecond gained since the last, and one more to move the bucket there.
  ghost function Greedy(from: int, ts: seq<int>): seq<int>
    decreases |ts|
  {
    if ts == [] then [] else Burst(ts[0], Elapsed(from, ts[0]) + 1) + Greedy(ts[0], ts[1..])
  }

  // A bucket holding exactly `n` tokens at `t` is emptied by `n + 1` calls, the last of them denied.
  lemma {:induction false} Emptied(rate: Rate, b: BucketState, t: int, n: nat, rest: seq<int>)
    requires Refilled(rate, b, t) == n * TOKEN
    ensures Allowed(Decisions(rate, b, Burst(t, n + 1) + rest))
            == n + Allowed(Decisions(rate, BucketState(0, t, true), rest))
    decreases n
  {
    var times := Burst(t, n + 1) + rest;
    assert times[0] == t && times[1..] == Burst(t, n) + rest;
    assert Decisions(rate, b, times)[1..] == Decisions(rate, After(rate, b, t), times[1..]);
    if n == 0 {
      assert Burst(t, 0) + rest == rest;
    } else {
      OneMore(n - 1, TOKEN);
      assert n * TOKEN <= rate.Capacity();
      assert Elapsed(t, t) * rate.rps == 0;
      Emptied(rate, After(rate, b, t), t, n - 1, rest);
    }
  }

  // With one token a nanosecond and room for each step, every nanosecond forward is an admission.
  lemma {:induction false} GreedyAdmits(rate: Rate, from: int, ts: seq<int>)
    requires rate.rps == TOKEN && SmallSteps([from] + ts, rate.burst)
    ensures Allowed(Decisions(rate, BucketState(0, from, true), Greedy(from, ts))) == Moved(from, ts)
    decreases |ts|
  {
    if ts != [] {
      var gained := Elapsed(from, ts[0]);
      assert ([from] + ts)[1] - ([from] + ts)[0] <= rate.burst;
      assert [ts[0]] + ts[1..] == ts == ([from] + ts)[1..];
      assert gained * TOKEN <= rate.Capacity();
      Emptied(rate, BucketState(0, from, true), ts[0], gained, Greedy(ts[0], ts[1..]));
      GreedyAdmits(rate, ts[0], ts[1..]);
    }
  }

  lemma {:induction false} BurstReads(t: int, n: nat, rest: seq<int>, ts: seq<int>)
    requires ts != [] && ts[0] == t && ReadFrom(rest, ts)
    ensures ReadFrom(Burst(t, n) + rest, ts)
    decreases n
  {
    if n == 0 {
      assert Burst(t, 0) + rest == rest;
    } else {
      BurstReads(t, n - 1, rest, ts);
      assert (Burst(t, n) + rest)[1..] == Burst(t, n - 1) + rest;
    }
  }

  lemma {:induction false} GreedyReads(from: int, ts: seq<int>)
    ensures ReadFrom(Greedy(from, ts), ts)
    decreases |ts|
  {
    if ts != [] {
      GreedyReads(ts[0], ts[1..]);
      assert ReadFrom(Greedy(ts[0], ts[1..]), ts);
      BurstReads(ts[0], Elapsed(from, ts[0]) + 1, Greedy(ts[0], ts[1..]), ts);
    }
  }

  /* ---------- A run in which one key calls ---------- */

  lemma {:induction false} AdmittedFront<K>(r: Run<K>, k: K, i: nat, j: nat)
    requires i < j <= |r.calls| == |r.outs|
    ensures Admitted(r, k, i, j) == Hit(k, r.calls[i], r.outs[i].decision) + Admitted(r, k, i + 1, j)
    decreases j
  {
    if j > i + 1 { AdmittedFront(r, k, i, j - 1); }
  }

  lemma {:induction false} OneKeyRun<K>(setup: Setup<K>, r: Run<K>, k: K, i: nat, b: BucketState)
    requires ValidRun(setup, r) && i <= |r.calls| && forall m :: 0 <= m < |r.calls| ==> r.calls[m].key == k
    requires |r.states[i]| == setup.ShardCount()
    requires i < |r.calls| ==> b == Look(setup, r.states[i], k).GetOr(Fresh(setup.rate, r.calls[i].now))
    ensures Admitted(r, k, i, |r.calls|) == Allowed(Decisions(setup.rate, b, Times(r.calls)[i..]))
    decreases |r.calls| - i
  {
    if i < |r.calls| {
      var times := Times(r.calls);
      Project(setup, r, i, k);
      AdmittedFront(r, k, i, |r.calls|);
      OneKeyRun(setup, r, k, i + 1, After(setup.rate, b, r.calls[i].now));
      assert times[i..][0] == r.calls[i].now && times[i..][1..] == times[i + 1..];
    }
  }

  lemma {:induction false} NeverEvicted<K>(setup: Setup<K>, r: Run<K>, k: K, n: nat)
    requires ValidRun(setup, r) && n <= |r.calls| && forall m :: 0 <= m < |r.calls| ==> r.calls[m].key == k
    ensures Evictions(r, k, 0, n) == 0
  {
    if n > 0 {
      NeverEvicted(setup, r, k, n - 1);
      Project(setup, r, n - 1, k);
    }
  }

  // A burst at the first reading, and greedy calls from then on.
  ghost function GreedyTimes(burst: nat, ts: seq<int>): seq<int>
    requires ts != []
  {
    Burst(ts[0], burst + 1) + Greedy(ts[0], ts[1..])
  }

  lemma GreedyTimesRead(burst: nat, ts: seq<int>)
    requires ts != []
    ensures ReadFrom(GreedyTimes(burst, ts), ts)
  {
    GreedyReads(ts[0], ts[1..]);
    assert ReadFrom(Greedy(ts[0], ts[1..]), ts);
    BurstReads(ts[0], burst + 1, Greedy(ts[0], ts[1..]), ts);
  }

  lemma GreedyTimesAllowed(rate: Rate, ts: seq<int>)
    requires ts != [] && rate.rps == TOKEN && SmallSteps(ts, rate.burst)
    ensures Allowed(Decisions(rate, Fresh(rate, ts[0]), GreedyTimes(rate.burst, ts)))
            == rate.burst + Moved(ts[0], ts[1..])
  {
    assert Elapsed(ts[0], ts[0]) * rate.rps == 0;
    Emptied(rate, Fresh(rate, ts[0]), ts[0], rate.burst, Greedy(ts[0], ts[1..]));
    assert [ts[0]] + ts[1..] == ts;
    GreedyAdmits(rate, ts[0], ts[1..]);
  }

  // A key that calls greedily at the readings of a clock is admitted a full burst and then every step forward.
  lemma GreedyRun<K>(setup: Setup<K>, k: K, ts: seq<int>) returns (r: Run<K>)
    requires ts != [] && setup.rate.rps == TOKEN && SmallSteps(ts, setup.rate.burst)
    ensures ValidRun(setup, r) && ReadFrom(Times(r.calls), ts)
    ensures Evictions(r, k, 0, |r.calls|) == 0
    ensures Admitted(r, k, 0, |r.calls|) == setup.rate.burst + Moved(ts[0], ts[1..])
  {
    var times := GreedyTimes(setup.rate.burst, ts);
    var calls := seq(|times|, i requires 0 <= i < |times| => Call(k, times[i]));
    r := RunExists(setup, calls);
    assert Times(calls) == times == times[0..];
    GreedyTimesRead(setup.rate.burst, ts);
    NeverEvicted(setup, r, k, |calls|);
    Reachable(setup, r, 0);
    OneKeyRun(setup, r, k, 0, Fresh(setup.rate, ts[0]));
    GreedyTimesAllowed(setup.rate, ts);
  }

  lemma {:induction false} StepsWithinMoved(ts: seq<int>)
    requires ts != []
    ensures SmallSteps(ts, Moved(ts[0], ts[1..]))
    decreases |ts|
  {
    if |ts| > 1 {
      StepsWithinMoved(ts[1..]);
      assert forall i :: 1 <= i < |ts| ==> ts[i] == ts[1..][i - 1];
    }
  }

  lemma GreedyBreaksBound<K>(ts: seq<int>, d: nat, k: K, burst: nat) returns (setup: Setup<K>, r: Run<K>)
    requires ts != [] && Moved(ts[0], ts[1..]) > d * TOKEN && SmallSteps(ts, burst)
    ensures setup.rate == Rate(TOKEN, burst) && ValidRun(setup, r) && ReadFrom(Times(r.calls), ts)
    ensures !WithinBound(setup, r, k, d)
  {
    setup := Setup(Rate(TOKEN, burst), 1, (_: K) => 0);
    r := GreedyRun(setup, k, ts);
  }

  // The bound for `d` seconds holds of every configuration and every pattern of calls at a clock's readings if, and
  // only if, the clock moves at most `d` seconds forward. The rates and bursts that show it are ones the server accepts
  // unless a single step is longer than 2^32 - 1 nanoseconds, some four seconds.
  lemma ClockKeepsBoundIff<K(!new)>(ts: seq<int>, d: nat, k: K)
    requires ts != []
    ensures BoundHolds<K>(ts, d) <==> Moved(ts[0], ts[1..]) <= d * TOKEN
    ensures Moved(ts[0], ts[1..]) <= d * TOKEN ==> BoundHoldsAccepted<K>(ts, d)
    ensures SmallSteps(ts, U32_MAX) && BoundHoldsAccepted<K>(ts, d) ==> Moved(ts[0], ts[1..]) <= d * TOKEN
  {
    var moved := Moved(ts[0], ts[1..]);
    if moved <= d * TOKEN {
      forall setup: Setup<K>, r: Run<K>, k: K | ValidRun(setup, r) && ReadFrom(Times(r.calls), ts)
        ensures WithinBound(setup, r, k, d)
      {
        SlowClockKeepsBound(setup, r, k, ts, d);
      }
    } else {
      StepsWithinMoved(ts);
      var _, r := GreedyBreaksBound(ts, d, k, moved);
      if SmallSteps(ts, U32_MAX) {
        var _, r' := GreedyBreaksBound(ts, d, k, U32_MAX);
      }
    }
  }

  lemma OscillationMoves(s: nat)
    ensures Moved(0, [s, 0, s]) == 2 * s
  {
    assert [s, 0, s][1..] == [0, s] && [0, s][1..] == [s];
    assert Moved(0, [s]) == s;
    assert Moved(s, [0, s]) == s;
  }

  lemma OscillationAdmitsThree()
    ensures var rate, s := Rate(1, 1), TOKEN;
            Decisions(rate, Fresh(rate, 0), [0, s, 0, s]) == [Allow(false), Allow(false), Deny(1, true), Allow(true)]
  {
    var rate, s := Rate(1, 1), TOKEN;
    RetryAfterIsOneSecond(rate, TOKEN);
    var b1 := After(rate, Fresh(rate, 0), 0);
    var b2 := After(rate, b1, s);
    var b3 := After(rate, b2, 0);
    assert Decisions(rate, b3, [s]) == [Allow(true)];
    assert [0, s][1..] == [s];
    assert Decisions(rate, b2, [0, s]) == [Deny(1, true), Allow(true)];
    assert [s, 0, s][1..] == [0, s];
    assert [0, s, 0, s][1..] == [s, 0, s];
  }

  // So a clock that jumps back and forth is credited for the same second twice: over these readings, all within one
  // second, the bound for one second fails and the bound for two holds. One call at each reading shows it already.
  lemma OscillatingClockBreaksTheBound<K(!new)>(k: K)
    ensures !BoundHolds<K>([0, TOKEN, 0, TOKEN], 1) && BoundHolds<K>([0, TOKEN, 0, TOKEN], 2)
    ensures Decisions(Rate(1, 1), Fresh(Rate(1, 1), 0), [0, TOKEN, 0, TOKEN])
            == [Allow(false), Allow(false), Deny(1, true), Allow(true)]
  {
    var ts := [0, TOKEN, 0, TOKEN];
    OscillationMoves(TOKEN);
    assert ts[1..] == [TOKEN, 0, TOKEN];
    ClockKeepsBoundIff(ts, 1, k);
    ClockKeepsBoundIff(ts, 2, k);
    OscillationAdmitsThree();
  }
}
