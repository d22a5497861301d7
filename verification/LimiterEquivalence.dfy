/** Exactly which clocks keep the pristine sweep invisible: those that never fall once they have risen.

    As in `LimiterClock`, a clock is the sequence of its readings, and calls are made at readings in that order. */
module LimiterEquivalence {
  import opened Prelude
  import opened TokenBucket
  import opened Limiter
  import opened LimiterRuns
  import opened LimiterCapacity
  import opened LimiterClock

  ghost predicate NeverFallsAfterRise(ts: seq<int>) {
    forall p, q, s :: 0 <= p < q < s < |ts| && ts[p] < ts[q] ==> ts[q] <= ts[s]
  }

  // Whatever the configuration, every answer to a key not yet evicted is that of the single unbounded map.
  ghost predicate Equivalent<K(!new)>(ts: seq<int>) {
    forall setup: Setup<K>, r: Run<K> :: ValidRun(setup, r) && ReadFrom(Times(r.calls), ts) ==> Matches(setup, r)
  }

  ghost predicate EquivalentAccepted<K(!new)>(ts: seq<int>) {
    forall setup: Setup<K>, r: Run<K> ::
      Accepted(setup.rate) && ValidRun(setup, r) && ReadFrom(Times(r.calls), ts) ==> Matches(setup, r)
  }

  ghost predicate Matches<K>(setup: Setup<K>, r: Run<K>)
    requires ValidRun(setup, r)
  {
    forall n :: 0 <= n < |r.calls| && Kept(r, r.calls[n].key, 0, n) ==>
      r.outs[n].decision == RefVerdict(setup.rate, r.calls, n)
  }

  /* ---------- Calls at the readings of such a clock ---------- */

  lemma {:induction false} ReadAt(times: seq<int>, ts: seq<int>) returns (at: seq<nat>)
    requires ReadFrom(times, ts)
    ensures |at| == |times| && forall m :: 0 <= m < |at| ==> at[m] < |ts| && times[m] == ts[at[m]]
    ensures forall m, n :: 0 <= m < n < |at| ==> at[m] <= at[n]
    decreases |times| + |ts|
  {
    if times == [] {
      at := [];
    } else if times[0] == ts[0] && ReadFrom(times[1..], ts) {
      var rest := ReadAt(times[1..], ts);
      at := [0] + rest;
    } else {
      var rest := ReadAt(times, ts[1..]);
      at := seq(|rest|, m requires 0 <= m < |rest| => rest[m] + 1);
    }
  }

  lemma ReadingsSettle<K>(calls: seq<Call<K>>, ts: seq<int>)
    requires ReadFrom(Times(calls), ts) && NeverFallsAfterRise(ts)
    ensures Settled(calls)
  {
    var at := ReadAt(Times(calls), ts);
    forall p, q, s | 0 <= p < q < s < |calls| && calls[p].now < calls[q].now ensures calls[q].now <= calls[s].now {
      assert at[p] <= at[q] <= at[s];
      assert Times(calls)[p] == ts[at[p]] && Times(calls)[q] == ts[at[q]] && Times(calls)[s] == ts[at[s]];
    }
  }

  /* ---------- A clock that falls after a rise ---------- */

  // A bucket that has answered `n` calls at one reading.
  ghost function Spent(rate: Rate, n: nat, t: int): BucketState
    requires n <= rate.burst
  {
    BucketState((rate.burst - n) * TOKEN, t, false)
  }

  ghost function Alone<K>(k: K, b: BucketState): map<K, BucketState> { map[k := b] }

  lemma NewInEmpty<K>(rate: Rate, call: Call<K>, shard': map<K, BucketState>, out: Outcome<K>)
    requires ShardStep(rate, 1, map[], call, shard', out)
    ensures shard' == Alone(call.key, After(rate, Fresh(rate, call.now), call.now)) && out.evicted == None
  {
    assert shard' - {call.key} == map[];
  }

  lemma KnownAlone<K>(rate: Rate, b: BucketState, call: Call<K>, shard': map<K, BucketState>, out: Outcome<K>)
    requires ShardStep(rate, 1, Alone(call.key, b), call, shard', out)
    ensures shard' == Alone(call.key, After(rate, b, call.now)) && out.evicted == None
  {}

  lemma SweepsAlone<K>(rate: Rate, k: K, b: BucketState, call: Call<K>, shard': map<K, BucketState>, out: Outcome<K>)
    requires k != call.key && Pristine(rate, b, call.now) && ShardStep(rate, 1, Alone(k, b), call, shard', out)
    ensures k !in shard' && out.evicted == None
  {
    assert Swept(rate, Alone(k, b), call.now) == map[];
    assert k in shard' ==> k in shard' - {call.key};
  }

  lemma OneShard<K>(setup: Setup<K>, r: Run<K>, n: nat)
    requires ValidRun(setup, r) && n < |r.calls| && setup.maxKeys == 1
    ensures setup.ShardCount() == 1 && setup.ShardOf(r.calls[n].key) == 0
    ensures |r.states[n]| == |r.states[n + 1]| == 1
    ensures ShardStep(setup.rate, 1, r.states[n][0], r.calls[n], r.states[n + 1][0], r.outs[n])
  {
    assert StepAt(setup, r, n);
  }

  lemma AloneStep<K>(setup: Setup<K>, r: Run<K>, n: nat, b: BucketState)
    requires ValidRun(setup, r) && n < |r.calls| && setup.maxKeys == 1 && |r.states[n]| == 1
    requires r.states[n][0] == Alone(r.calls[n].key, b)
             || (r.states[n][0] == map[] && b == Fresh(setup.rate, r.calls[n].now))
    ensures |r.states[n + 1]| == 1 && r.outs[n].evicted == None
    ensures r.states[n + 1][0] == Alone(r.calls[n].key, After(setup.rate, b, r.calls[n].now))
  {
    OneShard(setup, r, n);
    if r.states[n][0] == map[] {
      NewInEmpty(setup.rate, r.calls[n], r.states[n + 1][0], r.outs[n]);
    } else {
      KnownAlone(setup.rate, b, r.calls[n], r.states[n + 1][0], r.outs[n]);
    }
  }

  // `a` alone calls `n` times at `t`, in the run ...
  lemma {:induction false} SpendsAlone<K>(setup: Setup<K>, r: Run<K>, a: K, t: int, n: nat)
    requires ValidRun(setup, r) && setup.maxKeys == 1 && n <= |r.calls| && n <= setup.rate.burst
    requires forall x :: 0 <= x < n ==> r.calls[x] == Call(a, t)
    ensures |r.states[n]| == 1
    ensures r.states[n][0] == if n == 0 then map[] else Alone(a, Spent(setup.rate, n, t))
    ensures Kept(r, a, 0, n)
  {
    if n > 0 {
      SpendsAlone(setup, r, a, t, n - 1);
      SpentOnce(setup.rate, n, t);
      AloneStep(setup, r, n - 1, if n == 1 then Fresh(setup.rate, t) else Spent(setup.rate, n - 1, t));
    }
  }

  // ... and in the reference.
  lemma {:induction false} RefSpendsAlone<K>(rate: Rate, calls: seq<Call<K>>, a: K, t: int, n: nat)
    requires n <= |calls| && n <= rate.burst && forall x :: 0 <= x < n ==> calls[x] == Call(a, t)
    ensures RefState(rate, calls, n) == if n == 0 then map[] else Alone(a, Spent(rate, n, t))
  {
    if n > 0 {
      RefSpendsAlone(rate, calls, a, t, n - 1);
      SpentOnce(rate, n, t);
    }
  }

  lemma SpentOnce(rate: Rate, n: nat, t: int)
    requires 0 < n <= rate.burst
    ensures After(rate, if n == 1 then Fresh(rate, t) else Spent(rate, n - 1, t), t) == Spent(rate, n, t)
  {
    assert Elapsed(t, t) * rate.rps == 0;
  }

  /* ---------- When only one key still calls ---------- */

  lemma {:induction false} SuffixDecisions<K>(setup: Setup<K>, r: Run<K>, k: K, i: nat, b: BucketState)
    requires ValidRun(setup, r) && i <= |r.calls| && forall m :: i <= m < |r.calls| ==> r.calls[m].key == k
    requires |r.states[i]| == setup.ShardCount()
    requires i < |r.calls| ==> b == Look(setup, r.states[i], k).GetOr(Fresh(setup.rate, r.calls[i].now))
    ensures forall m :: i <= m < |r.calls| ==>
              && r.outs[m].decision == Decisions(setup.rate, b, Times(r.calls)[i..])[m - i]
              && r.outs[m].evicted != Some(k)
    decreases |r.calls| - i
  {
    if i < |r.calls| {
      var times := Times(r.calls);
      Project(setup, r, i, k);
      SuffixDecisions(setup, r, k, i + 1, After(setup.rate, b, r.calls[i].now));
      assert times[i..][0] == r.calls[i].now && times[i..][1..] == times[i + 1..];
    }
  }

  lemma {:induction false} RefSuffixDecisions<K>(rate: Rate, calls: seq<Call<K>>, k: K, i: nat, b: BucketState,
                                                 times: seq<int>, x: nat)
    requires i <= x < |calls| && forall m :: i <= m < |calls| ==> calls[m].key == k
    requires b == BucketIn(rate, RefState(rate, calls, i), calls[i])
    requires |times| == |calls| - i && forall m :: i <= m < |calls| ==> times[m - i] == calls[m].now
    ensures RefVerdict(rate, calls, x) == Decisions(rate, b, times)[x - i]
    decreases |calls| - i
  {
    if i < x {
      var b' := After(rate, b, calls[i].now);
      assert RefState(rate, calls, i + 1)[k] == b';
      RefSuffixDecisions(rate, calls, k, i + 1, b', times[1..], x);
    }
  }

  // `a` spends `m` tokens at `tp`, is swept as pristine by `b` at `tq`, and calls again at the earlier `ts`.
  ghost function RewindTimes(burst: nat, m: nat, tp: int, tq: int, ts: int): seq<int> {
    Burst(tp, m) + ([tq] + Burst(ts, burst))
  }

  ghost function RewindCalls<K>(a: K, b: K, burst: nat, m: nat, tp: int, tq: int, ts: int): (calls: seq<Call<K>>)
    ensures |calls| == m + 1 + burst
    ensures Times(calls) == RewindTimes(burst, m, tp, tq, ts)
    ensures forall x :: 0 <= x < m ==> calls[x] == Call(a, tp)
    ensures calls[m] == Call(b, tq)
    ensures forall x :: m < x < |calls| ==> calls[x] == Call(a, ts)
  {
    var times := RewindTimes(burst, m, tp, tq, ts);
    seq(|times|, i requires 0 <= i < |times| => Call(if i == m then b else a, times[i]))
  }

  lemma RewindSweeps<K>(setup: Setup<K>, r: Run<K>, a: K, m: nat, tp: int)
    requires ValidRun(setup, r) && setup.maxKeys == 1 && 0 < m < |r.calls| && m <= setup.rate.burst
    requires forall x :: 0 <= x < m ==> r.calls[x] == Call(a, tp)
    requires r.calls[m].key != a && Pristine(setup.rate, Spent(setup.rate, m, tp), r.calls[m].now)
    ensures |r.states[m + 1]| == setup.ShardCount() && Look(setup, r.states[m + 1], a) == None
    ensures Kept(r, a, 0, m + 1)
  {
    SpendsAlone(setup, r, a, tp, m);
    OneShard(setup, r, m);
    SweepsAlone(setup.rate, a, Spent(setup.rate, m, tp), r.calls[m], r.states[m + 1][0], r.outs[m]);
    assert setup.ShardOf(a) == 0;
  }

  // By then a fresh bucket answers `a` ...
  lemma RewindAnswers<K>(setup: Setup<K>, r: Run<K>, a: K, b: K, m: nat, tp: int, tq: int, ts: int, x: nat)
    requires ValidRun(setup, r) && setup.maxKeys == 1 && a != b && 0 < m <= setup.rate.burst
    requires r.calls == RewindCalls(a, b, setup.rate.burst, m, tp, tq, ts)
    requires tp < tq && (tq - tp) * setup.rate.rps >= m * TOKEN && m < x < |r.calls|
    ensures r.outs[x].decision
            == Decisions(setup.rate, Fresh(setup.rate, ts), Burst(ts, setup.rate.burst))[x - (m + 1)]
    ensures Kept(r, a, 0, x)
  {
    RewindSweeps(setup, r, a, m, tp);
    assert Times(r.calls)[m + 1..] == Burst(ts, setup.rate.burst);
    SuffixDecisions(setup, r, a, m + 1, Fresh(setup.rate, ts));
  }

  lemma RefStillHolds<K>(rate: Rate, calls: seq<Call<K>>, a: K, m: nat, tp: int)
    requires 0 < m < |calls| && m <= rate.burst && calls[m].key != a
    requires forall x :: 0 <= x < m ==> calls[x] == Call(a, tp)
    ensures var ref := RefState(rate, calls, m + 1);
            a in ref && ref[a] == Spent(rate, m, tp)
  {
    RefSpendsAlone(rate, calls, a, tp, m);
  }

  // ... where the reference still has the one short of tokens.
  lemma RewindReference<K>(rate: Rate, calls: seq<Call<K>>, a: K, b: K, m: nat, tp: int, tq: int, ts: int, x: nat)
    requires a != b && 0 < m <= rate.burst && calls == RewindCalls(a, b, rate.burst, m, tp, tq, ts)
    requires m < x < |calls|
    ensures RefVerdict(rate, calls, x) == Decisions(rate, Spent(rate, m, tp), Burst(ts, rate.burst))[x - (m + 1)]
  {
    RefStillHolds(rate, calls, a, m, tp);
    RefSuffixDecisions(rate, calls, a, m + 1, Spent(rate, m, tp), Burst(ts, rate.burst), x);
  }

  lemma RewindShows<K>(setup: Setup<K>, a: K, b: K, m: nat, tp: int, tq: int, ts: int) returns (r: Run<K>, n: nat)
    requires setup.maxKeys == 1 && a != b && 0 < m <= setup.rate.burst
    requires tp < tq && (tq - tp) * setup.rate.rps >= m * TOKEN > Elapsed(tp, ts) * setup.rate.rps
    ensures ValidRun(setup, r) && r.calls == RewindCalls(a, b, setup.rate.burst, m, tp, tq, ts)
    ensures m < n < |r.calls| && Kept(r, r.calls[n].key, 0, n)
    ensures r.outs[n].decision != RefVerdict(setup.rate, r.calls, n)
  {
    var rate := setup.rate;
    r := RunExists(setup, RewindCalls(a, b, rate.burst, m, tp, tq, ts));
    DepletedIsDistinguishable(rate, Spent(rate, m, tp), ts);
    var mine := Decisions(rate, Fresh(rate, ts), Burst(ts, rate.burst));
    var theirs := Decisions(rate, Spent(rate, m, tp), Burst(ts, rate.burst));
    var x :| 0 <= x < rate.burst && mine[x] != theirs[x];
    n := m + 1 + x;
    RewindAnswers(setup, r, a, b, m, tp, tq, ts, n);
    RewindReference(rate, r.calls, a, b, m, tp, tq, ts, n);
  }

  lemma {:induction false} Skips(times: seq<int>, ts: seq<int>, i: nat, j: nat)
    requires i <= j <= |ts| && ReadFrom(times, ts[j..])
    ensures ReadFrom(times, ts[i..])
    decreases j - i
  {
    if i < j {
      Skips(times, ts, i + 1, j);
      assert ts[i..][1..] == ts[i + 1..];
    }
  }

  // Calls at the reading `ts[i]`, and then others at readings from `ts[j]` on.
  lemma ReadsThen(ts: seq<int>, i: nat, j: nat, n: nat, rest: seq<int>)
    requires i <= j <= |ts| && i < |ts| && ReadFrom(rest, ts[j..])
    ensures ReadFrom(Burst(ts[i], n) + rest, ts[i..])
  {
    Skips(rest, ts, i, j);
    BurstReads(ts[i], n, rest, ts[i..]);
  }

  lemma RewindReads(ts: seq<int>, p: nat, q: nat, s: nat, burst: nat, m: nat)
    requires p < q < s < |ts|
    ensures ReadFrom(RewindTimes(burst, m, ts[p], ts[q], ts[s]), ts)
  {
    var last := Burst(ts[s], burst);
    assert last + [] == last && Burst(ts[q], 1) == [ts[q]];
    ReadsThen(ts, s, |ts|, burst, []);
    ReadsThen(ts, q, s, 1, last);
    ReadsThen(ts, p, q, m, [ts[q]] + last);
    Skips(RewindTimes(burst, m, ts[p], ts[q], ts[s]), ts, 0, p);
    assert ts[0..] == ts;
  }

  lemma FallShowsSweep<K>(ts: seq<int>, a: K, b: K, p: nat, q: nat, s: nat) returns (setup: Setup<K>, r: Run<K>)
    requires a != b && p < q < s < |ts| && ts[p] < ts[q] && ts[s] < ts[q]
    ensures ValidRun(setup, r) && ReadFrom(Times(r.calls), ts) && !Matches(setup, r)
    ensures ts[q] - ts[p] <= U32_MAX ==> Accepted(setup.rate)
  {
    var rise := ts[q] - ts[p];
    setup := Setup(Rate(TOKEN, Max(rise, TOKEN)), 1, (_: K) => 0);
    var n;
    r, n := RewindShows(setup, a, b, rise, ts[p], ts[q], ts[s]);
    RewindReads(ts, p, q, s, setup.rate.burst, rise);
  }

  // A fall below a reading risen to is a fall below one risen to in a single step.
  lemma {:induction false} FallsAfterStep(ts: seq<int>, p: nat, q: nat, s: nat) returns (y: nat)
    requires p < q < s < |ts| && ts[p] < ts[q] && ts[s] < ts[q]
    ensures 0 < y < s && ts[y - 1] < ts[y] && ts[s] < ts[y]
  {
    if ts[q - 1] > ts[p] && ts[q - 1] > ts[s] {
      y := FallsAfterStep(ts, p, q - 1, s);
    } else {
      y := q;
    }
  }

  // Sweeping pristine buckets is invisible at a clock's readings, for every configuration and every pattern of calls,
  // if, and only if, the clock never falls after a rise. The configurations that show it are ones the server accepts
  // unless a single step is longer than 2^32 - 1 nanoseconds, some four seconds.
  lemma SweepIsInvisibleIff<K(!new)>(ts: seq<int>, a: K, b: K)
    requires a != b
    ensures Equivalent<K>(ts) <==> NeverFallsAfterRise(ts)
    ensures NeverFallsAfterRise(ts) ==> EquivalentAccepted<K>(ts)
    ensures SmallSteps(ts, U32_MAX) && EquivalentAccepted<K>(ts) ==> NeverFallsAfterRise(ts)
  {
    if NeverFallsAfterRise(ts) {
      forall setup: Setup<K>, r: Run<K> | ValidRun(setup, r) && ReadFrom(Times(r.calls), ts) ensures Matches(setup, r) {
        SettledMatches(setup, r, ts);
      }
    } else {
      var p, q, s :| 0 <= p < q < s < |ts| && ts[p] < ts[q] && ts[s] < ts[q];
      var y := FallsAfterStep(ts, p, q, s);
      var setup, r := FallShowsSweep(ts, a, b, y - 1, y, s);
      assert SmallSteps(ts, U32_MAX) ==> ts[y - 1 + 1] - ts[y - 1] <= U32_MAX;
    }
  }

  lemma SettledMatches<K>(setup: Setup<K>, r: Run<K>, ts: seq<int>)
    requires ValidRun(setup, r) && ReadFrom(Times(r.calls), ts) && NeverFallsAfterRise(ts)
    ensures Matches(setup, r)
  {
    ReadingsSettle(r.calls, ts);
    forall n | 0 <= n < |r.calls| && Kept(r, r.calls[n].key, 0, n)
      ensures r.outs[n].decision == RefVerdict(setup.rate, r.calls, n)
    {
      SameDecisionsAsReference(setup, r, n);
    }
  }

  // The smallest instance: with one token a second, a burst of one and room for one key, `a` calls at 0, `b` at one
  // second, and `a` at 0 again. The limiter has swept `a` and admits it; the reference denies it.
  lemma ThreeCallsShowTheSweep<K>(a: K, b: K) returns (setup: Setup<K>, r: Run<K>)
    requires a != b
    ensures setup.rate == Rate(1, 1) && setup.maxKeys == 1 && ValidRun(setup, r)
    ensures r.calls == [Call(a, 0), Call(b, TOKEN), Call(a, 0)] && Kept(r, a, 0, 2)
    ensures r.outs[2].decision == Allow(false)
    ensures RefVerdict(setup.rate, r.calls, 2) == Deny(1, true)
  {
    setup := Setup(Rate(1, 1), 1, (_: K) => 0);
    r := RunExists(setup, RewindCalls(a, b, 1, 1, 0, TOKEN, 0));
    RewindAnswers(setup, r, a, b, 1, 0, TOKEN, 0, 2);
    RewindReference(setup.rate, r.calls, a, b, 1, 0, TOKEN, 0, 2);
    RetryAfterIsOneSecond(setup.rate, TOKEN);
    var mine, theirs := Fresh(setup.rate, 0), Spent(setup.rate, 1, 0);
    assert Decisions(setup.rate, mine, Burst(0, 1))[0] == Verdict(setup.rate, mine, 0);
    assert Decisions(setup.rate, theirs, Burst(0, 1))[0] == Verdict(setup.rate, theirs, 0);
  }
}
