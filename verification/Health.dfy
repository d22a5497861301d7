/** The readiness endpoint's cached probe.

    With caching on, a request takes the cache lock, answers from the cache if it is fresh, and otherwise probes
    while still holding the lock. A request may be dropped at any point, which releases the lock. Instants are
    nanoseconds on one monotonic clock. */
module Health {
  import opened Prelude

  datatype CachedProbe<+R> = CachedProbe(at: int, result: R)

  datatype Request<+R> = Waiting | Probing(started: int) | Done(response: CachedProbe<R>)

  // `holder` is the request holding the cache lock. `starts` and `completions` are history: when upstream probes
  // were started and completed under the lock.
  datatype State<R> = State(cache: Option<CachedProbe<R>>, holder: Option<nat>, requests: map<nat, Request<R>>,
                            now: int, starts: seq<int>, completions: seq<int>)

  datatype Action<R> =
    | Arrive(id: nat)
    | Enter(id: nat)                  // the lock is granted
    | Finish(id: nat, result: R)      // the probe answers (or times out, which is also a result)
    | Cancel(id: nat)                 // the request's future is dropped

  predicate Fresh<R>(ttl: nat, c: CachedProbe<R>, now: int) { now - c.at < ttl }

  class HealthState<R> {
    const ttl: nat
    var cache: Option<CachedProbe<R>>

    constructor (ttl: nat)
      ensures this.ttl == ttl && cache == None
    {
      this.ttl, cache := ttl, None;
    }

    // `probe_cached` for one request once it may proceed: the cache is checked at `checkedAt`; a probe, if made,
    // yields `result` at `completedAt`.
    method ProbeCached(checkedAt: int, result: R, completedAt: int) returns (probe: CachedProbe<R>, probed: bool)
      modifies this
      ensures probed <==> ttl == 0 || old(cache).None? || !Fresh(ttl, old(cache).value, checkedAt)
      ensures probed ==> probe == CachedProbe(completedAt, result)
      ensures probed && ttl != 0 ==> cache == Some(probe)
      ensures !probed ==> old(cache) == Some(probe)
      ensures !probed || ttl == 0 ==> cache == old(cache)
    {
      if ttl == 0 { return CachedProbe(completedAt, result), true; }
      if cache.Some? && checkedAt - cache.value.at < ttl { return cache.value, false; }
      var latest := CachedProbe(completedAt, result);
      cache := Some(latest);
      return latest, true;
    }
  }

  ghost predicate Step<R>(ttl: nat, s: State<R>, now: int, a: Action<R>, s': State<R>) {
    && s.now <= now == s'.now
    && var t := s.(now := now);
       match a
       case Arrive(id) =>
         && id !in s.requests
         && s' == t.(requests := s.requests[id := if ttl == 0 then Probing(now) else Waiting])
       case Enter(id) =>
         && id in s.requests && s.requests[id] == Waiting && s.holder == None
         && s' == if s.cache.Some? && Fresh(ttl, s.cache.value, now)
                  then t.(requests := s.requests[id := Done(s.cache.value)])
                  else t.(holder := Some(id), requests := s.requests[id := Probing(now)], starts := s.starts + [now])
       case Finish(id, result) =>
         && id in s.requests && s.requests[id].Probing?
         && var probe := CachedProbe(now, result);
            s' == if ttl == 0 then t.(requests := s.requests[id := Done(probe)])
                  else t.(cache := Some(probe), holder := None, requests := s.requests[id := Done(probe)],
                          completions := s.completions + [now])
       case Cancel(id) =>
         && id in s.requests && !s.requests[id].Done?
         && s' == t.(holder := if s.holder == Some(id) then None else s.holder, requests := s.requests - {id})
  }

  // With caching on: only the lock's holder probes, and the cache is the last completed probe.
  ghost predicate Inv<R>(ttl: nat, s: State<R>) {
    && (forall id :: id in s.requests && s.requests[id].Probing? <==> s.holder == Some(id))
    && (s.cache.None? <==> s.completions == [])
    && (s.cache.Some? ==> s.cache.value.at == s.completions[|s.completions| - 1])
    && (forall i :: 0 <= i < |s.completions| ==> s.completions[i] <= s.now)
    && (forall i, j :: 0 <= i < j < |s.completions| ==> s.completions[i] + ttl <= s.completions[j])
    && (s.holder.Some? && s.cache.Some? ==> s.cache.value.at + ttl <= s.now)
  }

  lemma StepKeepsInv<R>(ttl: nat, s: State<R>, now: int, a: Action<R>, s': State<R>)
    requires ttl > 0 && Inv(ttl, s) && Step(ttl, s, now, a, s')
    ensures Inv(ttl, s')
  {}

  datatype Run<R> = Run(times: seq<int>, actions: seq<Action<R>>, states: seq<State<R>>)

  ghost predicate ValidRun<R>(ttl: nat, r: Run<R>) {
    && |r.times| == |r.actions| && |r.states| == |r.actions| + 1
    && r.states[0].cache == None && r.states[0].holder == None && r.states[0].requests == map[]
    && r.states[0].starts == [] && r.states[0].completions == []
    && forall n :: 0 <= n < |r.actions| ==> StepAt(ttl, r, n)
  }

  ghost predicate StepAt<R>(ttl: nat, r: Run<R>, n: nat)
    requires n < |r.actions| == |r.times| && |r.states| == |r.actions| + 1
  {
    Step(ttl, r.states[n], r.times[n], r.actions[n], r.states[n + 1])
  }

  lemma {:induction false} Reachable<R>(ttl: nat, r: Run<R>, n: nat)
    requires ttl > 0 && ValidRun(ttl, r) && n <= |r.actions|
    ensures Inv(ttl, r.states[n])
  {
    if n != 0 {
      Reachable(ttl, r, n - 1);
      assert StepAt(ttl, r, n - 1);
      StepKeepsInv(ttl, r.states[n - 1], r.times[n - 1], r.actions[n - 1], r.states[n]);
    }
  }

  // At most one upstream probe is in flight, however many requests wait, and it holds the lock.
  lemma OneProbeInFlight<R>(ttl: nat, r: Run<R>, n: nat, x: nat, y: nat)
    requires ttl > 0 && ValidRun(ttl, r) && n <= |r.actions|
    requires x in r.states[n].requests && r.states[n].requests[x].Probing?
    requires y in r.states[n].requests && r.states[n].requests[y].Probing?
    ensures x == y && r.states[n].holder == Some(x)
  {
    Reachable(ttl, r, n);
  }

  // A request begins to probe only `ttl` or more after every probe completed before.
  lemma ProbesAreSpaced<R>(ttl: nat, r: Run<R>, n: nat, id: nat)
    requires ttl > 0 && ValidRun(ttl, r) && n < |r.actions|
    requires id in r.states[n + 1].requests && r.states[n + 1].requests[id].Probing?
    requires !(id in r.states[n].requests && r.states[n].requests[id].Probing?)
    ensures r.states[n + 1].requests[id].started == r.times[n]
    ensures r.states[n + 1].starts == r.states[n].starts + [r.times[n]]
    ensures forall i :: 0 <= i < |r.states[n].completions| ==> r.states[n].completions[i] + ttl <= r.times[n]
  {
    Reachable(ttl, r, n);
    assert StepAt(ttl, r, n);
  }

  // A probe completed at step `m` with this result.
  ghost predicate Completes<R>(r: Run<R>, m: nat, probe: CachedProbe<R>)
    requires m < |r.actions| == |r.times|
  {
    r.actions[m].Finish? && probe == CachedProbe(r.times[m], r.actions[m].result)
  }

  // What is cached is what some probe reported, when it did.
  lemma {:induction false} CacheIsAProbe<R>(ttl: nat, r: Run<R>, n: nat)
    requires ValidRun(ttl, r) && n <= |r.actions| && r.states[n].cache.Some?
    ensures exists m :: 0 <= m < n && Completes(r, m, r.states[n].cache.value)
  {
    if n > 0 {
      assert StepAt(ttl, r, n - 1);
      if r.states[n].cache == r.states[n - 1].cache {
        CacheIsAProbe(ttl, r, n - 1);
      } else {
        assert Completes(r, n - 1, r.states[n].cache.value);
      }
    }
  }

  // Without caching every answer is the request's own probe's, just completed.
  lemma UncachedAnswersAreOwn<R>(r: Run<R>, n: nat, id: nat)
    requires ValidRun(0, r) && n < |r.actions|
    requires id in r.states[n + 1].requests && r.states[n + 1].requests[id].Done?
    requires !(id in r.states[n].requests && r.states[n].requests[id].Done?)
    ensures Completes(r, n, r.states[n + 1].requests[id].response) && r.actions[n].id == id
  {
    assert StepAt(0, r, n);
    NothingCached(r, n);
  }

  lemma {:induction false} NothingCached<R>(r: Run<R>, n: nat)
    requires ValidRun(0, r) && n <= |r.actions|
    ensures r.states[n].cache == None
  {
    if n > 0 {
      NothingCached(r, n - 1);
      assert StepAt(0, r, n - 1);
    }
  }

  // Every answer is a probe completed in this very step or one younger than `ttl` when the cache was checked; it
  // is never one that has not completed.
  lemma AnswersAreFresh<R>(ttl: nat, r: Run<R>, n: nat, id: nat)
    requires ttl > 0 && ValidRun(ttl, r) && n < |r.actions|
    requires id in r.states[n + 1].requests && r.states[n + 1].requests[id].Done?
    requires !(id in r.states[n].requests && r.states[n].requests[id].Done?)
    ensures var answer := r.states[n + 1].requests[id].response;
            && r.states[n + 1].cache == Some(answer)
            && answer.at <= r.times[n] < answer.at + ttl
            && answer.at in r.states[n + 1].completions
            && exists m :: 0 <= m <= n && Completes(r, m, answer)
  {
    Reachable(ttl, r, n);
    Reachable(ttl, r, n + 1);
    assert StepAt(ttl, r, n);
    CacheIsAProbe(ttl, r, n + 1);
  }

  // So in any stretch of time the upstream completes at most one probe per `ttl`, plus one.
  lemma ProbeRate<R>(ttl: nat, r: Run<R>, n: nat, i: nat, j: nat)
    requires ttl > 0 && ValidRun(ttl, r) && n <= |r.actions| && i <= j < |r.states[n].completions|
    ensures (j - i) * ttl <= r.states[n].completions[j] - r.states[n].completions[i]
    decreases j - i
  {
    Reachable(ttl, r, n);
    if i < j {
      ProbeRate(ttl, r, n, i, j - 1);
      assert (j - i) * ttl == (j - 1 - i) * ttl + ttl;
    }
  }

  // A cancelled probe frees the lock and leaves the cache as it was, so the next waiting request can enter.
  lemma CancellationFreesTheLock<R>(ttl: nat, r: Run<R>, n: nat, next: nat)
    requires ttl > 0 && ValidRun(ttl, r) && n < |r.actions| && r.actions[n].Cancel?
    requires r.states[n].holder == Some(r.actions[n].id)
    requires next in r.states[n + 1].requests && r.states[n + 1].requests[next] == Waiting
    ensures r.states[n + 1].cache == r.states[n].cache
    ensures exists s' :: Step(ttl, r.states[n + 1], r.times[n], Enter(next), s') && s'.requests[next].Probing?
  {
    Reachable(ttl, r, n);
    assert StepAt(ttl, r, n);
    var s := r.states[n + 1];
    var s' := s.(holder := Some(next), requests := s.requests[next := Probing(s.now)], starts := s.starts + [s.now]);
    assert Step(ttl, s, r.times[n], Enter(next), s');
  }

  // Without caching there is no such bound: two requests probe at the same time.
  lemma WithoutCachingProbesOverlap<R>(s: State<R>, now: int) returns (one: State<R>, two: State<R>)
    requires s.now <= now && 0 !in s.requests && 1 !in s.requests
    ensures Step(0, s, now, Arrive(0), one) && Step(0, one, now, Arrive(1), two)
    ensures two.requests[0].Probing? && two.requests[1].Probing? && two.holder == s.holder
  {
    one := s.(now := now, requests := s.requests[0 := Probing(now)]);
    two := one.(requests := one.requests[1 := Probing(now)]);
  }
}
