/** What the limiter guarantees over whole runs: every sequence of calls, from every key, starting empty. */
module LimiterRuns {
  import opened Prelude
  import opened MapSums
  import opened TokenBucket
  import opened Limiter

  // `states[n]` is the limiter before call `n`.
  datatype Run<!K> = Run(calls: seq<Call<K>>, outs: seq<Outcome<K>>, states: seq<Shards<K>>)

  ghost predicate ValidRun<K>(setup: Setup<K>, r: Run<K>) {
    && |r.outs| == |r.calls|
    && |r.states| == |r.calls| + 1
    && r.states[0] == seq(setup.ShardCount(), _ => map[])
    && forall n :: 0 <= n < |r.calls| ==> StepAt(setup, r, n)
  }

  ghost predicate StepAt<K>(setup: Setup<K>, r: Run<K>, n: nat)
    requires n < |r.calls| == |r.outs| && |r.states| == |r.calls| + 1
  {
    CheckStep(setup, r.states[n], r.calls[n], r.states[n + 1], r.outs[n])
  }

  ghost predicate Monotone<K>(calls: seq<Call<K>>) {
    forall i, j :: 0 <= i <= j < |calls| ==> calls[i].now <= calls[j].now
  }

  // Once the clock has risen to a reading it never shows an earlier one. Until it rises it may fall.
  ghost predicate Settled<K>(calls: seq<Call<K>>) {
    forall p, q, s :: 0 <= p < q < s < |calls| && calls[p].now < calls[q].now ==> calls[q].now <= calls[s].now
  }

  /* ---------- Reachable states ---------- */

  lemma {:induction false} Reachable<K>(setup: Setup<K>, r: Run<K>, n: nat)
    requires ValidRun(setup, r) && n <= |r.calls|
    ensures Located(setup, r.states[n])
  {
    if n != 0 {
      Reachable(setup, r, n - 1);
      assert StepAt(setup, r, n - 1);
      CheckProjects(setup, r.states[n - 1], r.calls[n - 1], r.states[n], r.outs[n - 1], r.calls[n - 1].key);
    }
  }

  lemma Project<K>(setup: Setup<K>, r: Run<K>, n: nat, k: K)
    requires ValidRun(setup, r) && n < |r.calls|
    ensures Located(setup, r.states[n]) && Located(setup, r.states[n + 1])
    ensures KeyStep(setup.rate, k, Look(setup, r.states[n], k), r.calls[n], Look(setup, r.states[n + 1], k), r.outs[n])
  {
    Reachable(setup, r, n);
    assert StepAt(setup, r, n);
    CheckProjects(setup, r.states[n], r.calls[n], r.states[n + 1], r.outs[n], k);
  }

  /* ---------- The reference: one unbounded map, nothing ever evicted ---------- */

  ghost function RefState<K>(rate: Rate, calls: seq<Call<K>>, n: nat): map<K, BucketState>
    requires n <= |calls|
  {
    if n == 0 then map[]
    else
      var call := calls[n - 1];
      var ref := RefState(rate, calls, n - 1);
      ref[call.key := After(rate, BucketIn(rate, ref, call), call.now)]
  }

  ghost function BucketIn<K>(rate: Rate, ref: map<K, BucketState>, call: Call<K>): BucketState {
    if call.key in ref then ref[call.key] else Fresh(rate, call.now)
  }

  ghost function RefVerdict<K>(rate: Rate, calls: seq<Call<K>>, n: nat): Decision
    requires n < |calls|
  {
    Verdict(rate, BucketIn(rate, RefState(rate, calls, n), calls[n]), calls[n].now)
  }

  /* ---------- Equivalence: sweeping pristine buckets is invisible ---------- */

  // No call in `[i, j)` evicted `k`.
  ghost predicate Kept<K>(r: Run<K>, k: K, i: nat, j: nat)
    requires j <= |r.outs|
  {
    forall m :: i <= m < j ==> r.outs[m].evicted != Some(k)
  }

  // The bucket is the reference's, or absent because the reference's is pristine at every call still to come.
  ghost predicate Agree<K>(rate: Rate, look: Option<BucketState>, ref: map<K, BucketState>, k: K,
                           calls: seq<Call<K>>, n: nat)
    requires n <= |calls|
  {
    match look
    case Some(b) => k in ref && ref[k] == b && TouchedBefore(b, calls, n)
    case None => k in ref ==> PristineFrom(rate, ref[k], calls, n)
  }

  ghost predicate TouchedBefore<K>(b: BucketState, calls: seq<Call<K>>, n: nat)
    requires n <= |calls|
  {
    exists p :: 0 <= p < n && calls[p].now == b.updatedAt
  }

  ghost predicate PristineFrom<K>(rate: Rate, b: BucketState, calls: seq<Call<K>>, n: nat) {
    forall m :: n <= m < |calls| ==> Pristine(rate, b, calls[m].now)
  }

  // A bucket swept as pristine stays so: a later reading is before the sweep only if the clock had not risen to it.
  lemma SweptForGood<K>(rate: Rate, b: BucketState, calls: seq<Call<K>>, n: nat)
    requires Settled(calls) && n < |calls| && TouchedBefore(b, calls, n) && Pristine(rate, b, calls[n].now)
    ensures PristineFrom(rate, b, calls, n + 1)
  {
    var p :| 0 <= p < n && calls[p].now == b.updatedAt;
    forall m | n + 1 <= m < |calls| ensures Pristine(rate, b, calls[m].now) {
      if b.updatedAt < calls[n].now {
        ElapsedMonotone(b, rate.rps, calls[n].now, calls[m].now);
      } else {
        assert Elapsed(b.updatedAt, calls[m].now) * rate.rps >= 0 == Elapsed(b.updatedAt, calls[n].now) * rate.rps;
      }
    }
  }

  lemma AgreeStep<K>(rate: Rate, look: Option<BucketState>, ref: map<K, BucketState>, k: K,
                     calls: seq<Call<K>>, n: nat, look': Option<BucketState>, out: Outcome<K>)
    requires Settled(calls) && n < |calls| && Agree(rate, look, ref, k, calls, n)
    requires KeyStep(rate, k, look, calls[n], look', out) && out.evicted != Some(k)
    ensures var b := BucketIn(rate, ref, calls[n]);
            && Agree(rate, look', ref[calls[n].key := After(rate, b, calls[n].now)], k, calls, n + 1)
            && (calls[n].key == k ==> out.decision == Verdict(rate, b, calls[n].now))
  {
    if calls[n].key == k {
      if look == None && k in ref { PristineTakesLikeFresh(rate, ref[k], calls[n].now, calls[n].now); }
      assert TouchedBefore(look'.value, calls, n + 1);
    } else if look.Some? && look' == None {
      SweptForGood(rate, look.value, calls, n);
    }
  }

  lemma {:induction false} Simulation<K>(setup: Setup<K>, r: Run<K>, n: nat, k: K)
    requires ValidRun(setup, r) && Settled(r.calls) && n <= |r.calls| && Kept(r, k, 0, n)
    ensures Located(setup, r.states[n])
    ensures Agree(setup.rate, Look(setup, r.states[n], k), RefState(setup.rate, r.calls, n), k, r.calls, n)
    ensures n > 0 && r.calls[n - 1].key == k ==> r.outs[n - 1].decision == RefVerdict(setup.rate, r.calls, n - 1)
  {
    if n == 0 {
      Reachable(setup, r, 0);
    } else {
      Simulation(setup, r, n - 1, k);
      Project(setup, r, n - 1, k);
      AgreeStep(setup.rate, Look(setup, r.states[n - 1], k), RefState(setup.rate, r.calls, n - 1), k, r.calls, n - 1,
                Look(setup, r.states[n], k), r.outs[n - 1]);
    }
  }

  // Every answer to a key not yet evicted is the reference's, flags and retry seconds included.
  lemma SameDecisionsAsReference<K>(setup: Setup<K>, r: Run<K>, n: nat)
    requires ValidRun(setup, r) && Settled(r.calls) && n < |r.calls| && Kept(r, r.calls[n].key, 0, n)
    ensures r.outs[n].decision == RefVerdict(setup.rate, r.calls, n)
  {
    Project(setup, r, n, r.calls[n].key);
    Simulation(setup, r, n + 1, r.calls[n].key);
  }

  /* ---------- Dominance: eviction never costs a caller an admission ---------- */

  ghost function Admitted<K>(r: Run<K>, k: K, i: nat, j: nat): nat
    requires i <= j <= |r.calls| && |r.outs| == |r.calls|
  {
    if i == j then 0
    else Admitted(r, k, i, j - 1) + Hit(k, r.calls[j - 1], r.outs[j - 1].decision)
  }

  // Whether a call is an admission of `k`.
  ghost function Hit<K>(k: K, call: Call<K>, d: Decision): (h: nat)
    ensures h <= 1
  {
    if call.key == k && d.Allow? then 1 else 0
  }

  ghost function RefAdmitted<K>(rate: Rate, calls: seq<Call<K>>, k: K, n: nat): nat
    requires n <= |calls|
  {
    if n == 0 then 0
    else RefAdmitted(rate, calls, k, n - 1) + Hit(k, calls[n - 1], RefVerdict(rate, calls, n - 1))
  }

  // Admissions so far plus tokens in hand, an absent bucket counting as full.
  ghost predicate Dominates<K>(rate: Rate, look: Option<BucketState>, ref: map<K, BucketState>, k: K,
                               a: nat, refA: nat)
  {
    var mine := if look.Some? then look.value.tokens else rate.Capacity();
    var theirs := if k in ref then ref[k].tokens else rate.Capacity();
    && mine <= rate.Capacity() && theirs <= rate.Capacity()
    && refA <= a
    && refA * TOKEN + theirs <= a * TOKEN + mine
    && (look.Some? ==> k in ref && ref[k].updatedAt == look.value.updatedAt)
  }

  lemma DominatesStep<K>(rate: Rate, look: Option<BucketState>, ref: map<K, BucketState>, k: K, a: nat, refA: nat,
                         call: Call<K>, look': Option<BucketState>, out: Outcome<K>)
    requires Dominates(rate, look, ref, k, a, refA) && KeyStep(rate, k, look, call, look', out)
    ensures var b := BucketIn(rate, ref, call);
            Dominates(rate, look', ref[call.key := After(rate, b, call.now)], k,
                      a + Hit(k, call, out.decision), refA + Hit(k, call, Verdict(rate, b, call.now)))
  {}

  // On every prefix of every run, whatever the clock does and whatever is evicted, each key is admitted at
  // least as often as the unbounded reference would have admitted it.
  lemma {:induction false} AdmitsAtLeastReference<K>(setup: Setup<K>, r: Run<K>, n: nat, k: K)
    requires ValidRun(setup, r) && n <= |r.calls|
    ensures Located(setup, r.states[n])
    ensures Dominates(setup.rate, Look(setup, r.states[n], k), RefState(setup.rate, r.calls, n), k,
                      Admitted(r, k, 0, n), RefAdmitted(setup.rate, r.calls, k, n))
    ensures Admitted(r, k, 0, n) >= RefAdmitted(setup.rate, r.calls, k, n)
  {
    Reachable(setup, r, n);
    if n != 0 {
      AdmitsAtLeastReference(setup, r, n - 1, k);
      Project(setup, r, n - 1, k);
      DominatesStep(setup.rate, Look(setup, r.states[n - 1], k), RefState(setup.rate, r.calls, n - 1), k,
                    Admitted(r, k, 0, n - 1), RefAdmitted(setup.rate, r.calls, k, n - 1),
                    r.calls[n - 1], Look(setup, r.states[n], k), r.outs[n - 1]);
    }
  }

  /* ---------- The token-bucket bound over any window ---------- */

  ghost function Evictions<K>(r: Run<K>, k: K, i: nat, j: nat): nat
    requires i <= j <= |r.outs|
  {
    if i == j then 0 else Evictions(r, k, i, j - 1) + Lost(k, r.outs[j - 1])
  }

  ghost function Lost<K>(k: K, out: Outcome<K>): (l: nat)
    ensures l <= 1
  {
    if out.evicted == Some(k) then 1 else 0
  }

  // How far the clock moved forward between the calls `i` and `j - 1`: its backward jumps do not count.
  ghost function Forward<K>(calls: seq<Call<K>>, i: nat, j: nat): nat
    requires i < j <= |calls|
  {
    if j == i + 1 then 0 else Forward(calls, i, j - 1) + Elapsed(calls[j - 2].now, calls[j - 1].now)
  }

  lemma {:induction false} ForwardOfMonotone<K>(calls: seq<Call<K>>, i: nat, j: nat)
    requires Monotone(calls) && i < j <= |calls|
    ensures Forward(calls, i, j) == calls[j - 1].now - calls[i].now
  {
    if j > i + 1 { ForwardOfMonotone(calls, i, j - 1); }
  }

  // What a key could spend at `now`: its bucket refilled, or a full one if it has none.
  ghost function Credit(rate: Rate, look: Option<BucketState>, now: int): nat {
    if look.Some? then Refilled(rate, look.value, now) else rate.Capacity()
  }

  lemma CreditOverTime(rate: Rate, look: Option<BucketState>, prev: int, now: int)
    ensures Credit(rate, look, now) <= Credit(rate, look, prev) + Elapsed(prev, now) * rate.rps
  {
    if look.Some? {
      var held := look.value.updatedAt;
      var before, after, gained := Elapsed(held, prev), Elapsed(held, now), Elapsed(prev, now);
      Distribute(before, gained, rate.rps);
      Distribute(after, before + gained - after, rate.rps);
      assert (before + gained - after) * rate.rps >= 0;
    }
    assert Elapsed(prev, now) * rate.rps >= 0;
  }

  lemma CreditSpent<K>(rate: Rate, k: K, look: Option<BucketState>, call: Call<K>,
                       look': Option<BucketState>, out: Outcome<K>)
    requires KeyStep(rate, k, look, call, look', out)
    ensures Hit(k, call, out.decision) * TOKEN + Credit(rate, look', call.now)
            <= Credit(rate, look, call.now) + Lost(k, out) * rate.Capacity()
  {}

  // `a` admissions and `e` evictions while the clock moved `w` nanoseconds forward, and `credit` still to spend.
  ghost predicate Bounded(rate: Rate, a: nat, e: nat, w: nat, credit: nat) {
    a * TOKEN + credit <= (1 + e) * rate.Capacity() + w * rate.rps
  }

  // A call spends what it admits; time adds `rps` per second; only an eviction adds a burst.
  lemma BoundedStep<K>(rate: Rate, k: K, a: nat, e: nat, w: nat, look: Option<BucketState>, prev: int,
                       call: Call<K>, look': Option<BucketState>, out: Outcome<K>)
    requires KeyStep(rate, k, look, call, look', out)
    requires Bounded(rate, a, e, w, Credit(rate, look, prev))
    ensures Bounded(rate, a + Hit(k, call, out.decision), e + Lost(k, out), w + Elapsed(prev, call.now),
                    Credit(rate, look', call.now))
  {
    CreditOverTime(rate, look, prev, call.now);
    CreditSpent(rate, k, look, call, look', out);
    Distribute(w, Elapsed(prev, call.now), rate.rps);
    Distribute(a, Hit(k, call, out.decision), TOKEN);
    Distribute(1 + e, Lost(k, out), rate.Capacity());
  }

  lemma {:induction false} WindowCredit<K>(setup: Setup<K>, r: Run<K>, k: K, i: nat, j: nat)
    requires ValidRun(setup, r) && i < j <= |r.calls|
    ensures Located(setup, r.states[j])
    ensures Bounded(setup.rate, Admitted(r, k, i, j), Evictions(r, k, i, j), Forward(r.calls, i, j),
                    Credit(setup.rate, Look(setup, r.states[j], k), r.calls[j - 1].now))
  {
    var rate, call := setup.rate, r.calls[j - 1];
    Project(setup, r, j - 1, k);
    var look := Look(setup, r.states[j - 1], k);
    var first := j - 1 == i;
    var prev := if first then call.now else r.calls[j - 2].now;
    if first {
      FullAtStart(rate, look, prev);
    } else {
      WindowCredit(setup, r, k, i, j - 1);
    }
    var moved := if first then 0 else Forward(r.calls, i, j - 1);
    BoundedStep(rate, k, Admitted(r, k, i, j - 1), Evictions(r, k, i, j - 1), moved, look, prev, call,
                Look(setup, r.states[j], k), r.outs[j - 1]);
  }

  lemma FullAtStart(rate: Rate, look: Option<BucketState>, now: int)
    ensures Bounded(rate, 0, 0, 0, Credit(rate, look, now))
  {}

  // Whatever the clock does: while it moves at most `d` seconds forward a key is admitted at most `burst` times,
  // plus `rps` per second, plus `burst` for each time its bucket was evicted. Pristine sweeps cost nothing.
  lemma AnyClockBound<K>(setup: Setup<K>, r: Run<K>, k: K, i: nat, j: nat, d: nat)
    requires ValidRun(setup, r) && i < j <= |r.calls| && Forward(r.calls, i, j) <= d * TOKEN
    ensures Admitted(r, k, i, j) <= setup.rate.burst * (1 + Evictions(r, k, i, j)) + setup.rate.rps * d
  {
    WindowCredit(setup, r, k, i, j);
    assert Bounded(setup.rate, Admitted(r, k, i, j), Evictions(r, k, i, j), Forward(r.calls, i, j), 0);
    InTokens(setup.rate, Admitted(r, k, i, j), Evictions(r, k, i, j), Forward(r.calls, i, j), d);
  }

  // With a clock that never runs backwards this is the classical bound over any window of `d` seconds.
  lemma WindowBound<K>(setup: Setup<K>, r: Run<K>, k: K, i: nat, j: nat, d: nat)
    requires ValidRun(setup, r) && Monotone(r.calls) && i < j <= |r.calls|
    requires r.calls[j - 1].now - r.calls[i].now <= d * TOKEN
    ensures Admitted(r, k, i, j) <= setup.rate.burst * (1 + Evictions(r, k, i, j)) + setup.rate.rps * d
  {
    ForwardOfMonotone(r.calls, i, j);
    AnyClockBound(setup, r, k, i, j, d);
  }

  lemma InTokens(rate: Rate, a: nat, e: nat, w: nat, d: nat)
    requires w <= d * TOKEN
    requires Bounded(rate, a, e, w, 0)
    ensures a <= rate.burst * (1 + e) + rate.rps * d
  {}

  /* ---------- Retry-After ---------- */

  // `k` is neither admitted nor evicted by the calls in `[i, j)`.
  ghost predicate Starved<K>(r: Run<K>, k: K, i: nat, j: nat)
    requires j <= |r.calls| == |r.outs|
  {
    forall m :: i <= m < j ==> (r.calls[m].key == k ==> r.outs[m].decision.Deny?) && r.outs[m].evicted != Some(k)
  }

  // The last reading at which `k` called in `[i, j)`, and how far the clock moved forward between those readings.
  ghost function LastCalled<K>(calls: seq<Call<K>>, k: K, i: nat, j: nat): int
    requires i < j <= |calls|
  {
    if j == i + 1 || calls[j - 1].key == k then calls[j - 1].now else LastCalled(calls, k, i, j - 1)
  }

  ghost function OwnForward<K>(calls: seq<Call<K>>, k: K, i: nat, j: nat): nat
    requires i < j <= |calls|
  {
    if j == i + 1 then 0
    else OwnForward(calls, k, i, j - 1)
         + if calls[j - 1].key == k then Elapsed(LastCalled(calls, k, i, j - 1), calls[j - 1].now) else 0
  }

  // Between a denial and the next admission the bucket stays, and is the denied one refilled.
  ghost predicate Waiting<K>(rate: Rate, denied: BucketState, look: Option<BucketState>, calls: seq<Call<K>>, k: K,
                             i: nat, j: nat)
    requires i < j <= |calls|
  {
    && look.Some?
    && look.value.limited
    && look.value.updatedAt == LastCalled(calls, k, i, j)
    && look.value.tokens == denied.tokens + OwnForward(calls, k, i, j) * rate.rps < TOKEN
  }

  lemma {:induction false} StaysWaiting<K>(setup: Setup<K>, r: Run<K>, k: K, i: nat, j: nat)
    requires ValidRun(setup, r) && i < j <= |r.calls| && setup.rate.burst >= 1
    requires r.calls[i].key == k && Starved(r, k, i, j)
    ensures Located(setup, r.states[i + 1]) && Located(setup, r.states[j])
    ensures Look(setup, r.states[i + 1], k).Some?
    ensures var denied := Look(setup, r.states[i + 1], k).value;
            && denied.tokens < TOKEN
            && r.outs[i].decision.retryAfterSecs == RetryAfterSecs(setup.rate, TOKEN - denied.tokens)
            && Waiting(setup.rate, denied, Look(setup, r.states[j], k), r.calls, k, i, j)
    decreases j
  {
    var rate := setup.rate;
    Project(setup, r, i, k);
    assert r.outs[i].decision.Deny?;
    var denied := Look(setup, r.states[i + 1], k).value;
    if j > i + 1 {
      StaysWaiting(setup, r, k, i, j - 1);
      Project(setup, r, j - 1, k);
      var gained := Elapsed(LastCalled(r.calls, k, i, j - 1), r.calls[j - 1].now);
      Distribute(OwnForward(r.calls, k, i, j - 1), gained, rate.rps);
      assert rate.Capacity() >= TOKEN;
    }
  }

  lemma {:induction false} OwnForwardCovers<K>(calls: seq<Call<K>>, k: K, i: nat, j: nat)
    requires i < j <= |calls| && calls[i].key == k
    ensures OwnForward(calls, k, i, j) >= Elapsed(calls[i].now, LastCalled(calls, k, i, j))
    ensures Monotone(calls) ==> calls[i].now <= LastCalled(calls, k, i, j) <= calls[j - 1].now
                                && OwnForward(calls, k, i, j) == LastCalled(calls, k, i, j) - calls[i].now
  {
    if j > i + 1 { OwnForwardCovers(calls, k, i, j - 1); }
  }

  // After a denial of `k` at call `i`, with no eviction or admission of `k` since, the call `j` is admitted exactly
  // when the forward movement between the key's own calls has refilled the missing fraction of a token; it then
  // reports the recovery. Waiting the advertised seconds is always enough, whatever the clock did in between. With a
  // clock that never runs backwards that movement is the time waited.
  lemma RetryAfterIsExact<K>(setup: Setup<K>, r: Run<K>, k: K, i: nat, j: nat)
    requires ValidRun(setup, r) && i < j < |r.calls|
    requires setup.rate.rps >= 1 && setup.rate.burst >= 1
    requires r.calls[i].key == r.calls[j].key == k && Starved(r, k, i, j)
    ensures Located(setup, r.states[i + 1]) && Look(setup, r.states[i + 1], k).Some?
    ensures var deficit := TOKEN - Look(setup, r.states[i + 1], k).value.tokens;
            var gained := OwnForward(r.calls, k, i, j + 1);
            && (r.outs[j].decision == Allow(true) <==> gained * setup.rate.rps >= deficit)
            && (r.outs[j].decision == Deny(1, false) <==> gained * setup.rate.rps < deficit)
            && (Monotone(r.calls) ==> gained == r.calls[j].now - r.calls[i].now)
    ensures r.outs[i].decision.retryAfterSecs == 1
    ensures r.calls[j].now >= r.calls[i].now + r.outs[i].decision.retryAfterSecs * TOKEN
            ==> r.outs[j].decision == Allow(true)
  {
    var rate := setup.rate;
    StaysWaiting(setup, r, k, i, j);
    Project(setup, r, j, k);
    OwnForwardCovers(r.calls, k, i, j + 1);
    var denied, held := Look(setup, r.states[i + 1], k).value, Look(setup, r.states[j], k).value;
    var gained := OwnForward(r.calls, k, i, j + 1);
    Distribute(OwnForward(r.calls, k, i, j), Elapsed(held.updatedAt, r.calls[j].now), rate.rps);
    var t := Refilled(rate, held, r.calls[j].now);
    assert t == Min(denied.tokens + gained * rate.rps, rate.Capacity());
    assert rate.Capacity() >= TOKEN;
    RetryAfterIsOneSecond(rate, TOKEN - denied.tokens);
    if t < TOKEN { RetryAfterIsOneSecond(rate, TOKEN - t); }
    AtLeast(gained, rate.rps);
  }

  lemma AtLeast(w: nat, rps: nat)
    requires rps >= 1
    ensures w * rps >= w
  {}

  /* ---------- The flags report transitions ---------- */

  // Call `i` is the last one of `k` before `j`.
  ghost predicate LastCallOf<K>(calls: seq<Call<K>>, k: K, i: nat, j: nat)
    requires j <= |calls|
  {
    i < j && calls[i].key == k && forall m :: i < m < j ==> calls[m].key != k
  }

  // Until it is evicted, a bucket stays and remembers whether the last call was denied, or is gone because it was not.
  lemma {:induction false} RemembersLastAnswer<K>(setup: Setup<K>, r: Run<K>, k: K, i: nat, j: nat)
    requires ValidRun(setup, r) && j <= |r.calls| && LastCallOf(r.calls, k, i, j)
    ensures Located(setup, r.states[j])
    ensures var look := Look(setup, r.states[j], k);
            if Kept(r, k, i + 1, j) then
              if look.Some? then
                look.value.limited == r.outs[i].decision.Deny? && look.value.updatedAt == r.calls[i].now
              else r.outs[i].decision.Allow?
            else look == None
    decreases j
  {
    Project(setup, r, j - 1, k);
    if j > i + 1 {
      RemembersLastAnswer(setup, r, k, i, j - 1);
      assert Kept(r, k, i + 1, j) <==> Kept(r, k, i + 1, j - 1) && r.outs[j - 1].evicted != Some(k);
    }
  }

  // An answer reports the change from the key's previous answer, unless the key was evicted in between: then it
  // reports as a first one.
  lemma FlagsReportTransitions<K>(setup: Setup<K>, r: Run<K>, i: nat, j: nat)
    requires ValidRun(setup, r) && j < |r.calls| && LastCallOf(r.calls, r.calls[j].key, i, j)
    ensures Reports(r.outs[j].decision, r.outs[i].decision.Deny? && Kept(r, r.calls[j].key, i + 1, j))
  {
    RemembersLastAnswer(setup, r, r.calls[j].key, i, j);
    Project(setup, r, j, r.calls[j].key);
  }

  lemma {:induction false} AbsentBeforeFirstCall<K>(setup: Setup<K>, r: Run<K>, k: K, j: nat)
    requires ValidRun(setup, r) && j <= |r.calls| && forall m :: 0 <= m < j ==> r.calls[m].key != k
    ensures Located(setup, r.states[j]) && Look(setup, r.states[j], k) == None
  {
    if j == 0 {
      Reachable(setup, r, 0);
    } else {
      AbsentBeforeFirstCall(setup, r, k, j - 1);
      Project(setup, r, j - 1, k);
    }
  }

  lemma FirstAnswerReportsNoRecovery<K>(setup: Setup<K>, r: Run<K>, j: nat)
    requires ValidRun(setup, r) && j < |r.calls| && forall m :: 0 <= m < j ==> r.calls[m].key != r.calls[j].key
    ensures Reports(r.outs[j].decision, false)
  {
    AbsentBeforeFirstCall(setup, r, r.calls[j].key, j);
    Project(setup, r, j, r.calls[j].key);
  }

  /* ---------- Who is evicted ---------- */

  // An eviction happens only for a new key, in a full shard with nothing to sweep.
  lemma EvictsOnlyWhenFull<K>(setup: Setup<K>, r: Run<K>, n: nat, k: K)
    requires ValidRun(setup, r) && n < |r.calls| && r.outs[n].evicted == Some(k)
    ensures Located(setup, r.states[n])
    ensures var shard := r.states[n][setup.ShardOf(r.calls[n].key)];
            && r.calls[n].key !in shard && |shard| >= setup.PerShardMaxKeys()
            && (forall other :: other in shard ==> !Pristine(setup.rate, shard[other], r.calls[n].now))
            && Oldest(shard, k)
  {
    Reachable(setup, r, n);
    assert StepAt(setup, r, n);
    var shard := r.states[n][setup.ShardOf(r.calls[n].key)];
    var kept := Swept(setup.rate, shard, r.calls[n].now);
    NothingSwept(shard, kept);
    assert kept == shard;
    assert forall other :: other in shard ==> other in kept;
  }

  // It takes a key whose last call was, by the clock, no later than that of any other key in the shard.
  lemma EvictsLeastRecentlyCalled<K>(setup: Setup<K>, r: Run<K>, n: nat, k: K, i: nat, other: K, j: nat)
    requires ValidRun(setup, r) && n < |r.calls| && r.outs[n].evicted == Some(k)
    requires |r.states[n]| == setup.ShardCount() && other in r.states[n][setup.ShardOf(r.calls[n].key)]
    requires LastCallOf(r.calls, k, i, n) && LastCallOf(r.calls, other, j, n)
    ensures r.calls[i].now <= r.calls[j].now
  {
    EvictsOnlyWhenFull(setup, r, n, k);
    RemembersLastAnswer(setup, r, k, i, n);
    RemembersLastAnswer(setup, r, other, j, n);
  }

  // Every key held has called.
  lemma {:induction false} HeldHasCalled<K>(setup: Setup<K>, r: Run<K>, n: nat, k: K) returns (i: nat)
    requires ValidRun(setup, r) && n <= |r.calls| && |r.states[n]| == setup.ShardCount()
    requires Look(setup, r.states[n], k).Some?
    ensures LastCallOf(r.calls, k, i, n)
  {
    Reachable(setup, r, n);
    if n > 0 {
      Project(setup, r, n - 1, k);
      if r.calls[n - 1].key == k {
        i := n - 1;
      } else {
        i := HeldHasCalled(setup, r, n - 1, k);
      }
    }
  }

  /* ---------- Placement and capacity ---------- */

  ghost function TotalKeys<K>(s: Shards<K>): nat {
    if s == [] then 0 else |s[0]| + TotalKeys(s[1..])
  }

  lemma {:induction false} TotalKeysBound<K>(s: Shards<K>, cap: nat)
    requires forall i :: 0 <= i < |s| ==> |s[i]| <= cap
    ensures TotalKeys(s) <= |s| * cap
  {
    if s != [] { TotalKeysBound(s[1..], cap); }
  }

  lemma RoomIsMade<K>(rate: Rate, cap: nat, shard: map<K, BucketState>, now: int,
                      evicted: Option<K>, room: map<K, BucketState>)
    requires MakesRoom(rate, cap, shard, now, evicted, room)
    ensures |room| < Max(1, cap) || |room| < |shard|
  {}

  lemma ShardStaysBounded<K>(rate: Rate, cap: nat, shard: map<K, BucketState>, call: Call<K>,
                             shard': map<K, BucketState>, out: Outcome<K>)
    requires ShardStep(rate, cap, shard, call, shard', out) && |shard| <= Max(1, cap)
    ensures |shard'| <= Max(1, cap)
  {
    if call.key in shard {
      assert shard'.Keys == shard.Keys;
      assert |shard'.Keys| == |shard'| && |shard.Keys| == |shard|;
    } else {
      RoomIsMade(rate, cap, shard, call.now, out.evicted, shard' - {call.key});
      SizeWithout(shard', call.key);
    }
  }

  lemma {:induction false} ShardsStayBounded<K>(setup: Setup<K>, r: Run<K>, n: nat)
    requires ValidRun(setup, r) && n <= |r.calls|
    ensures |r.states[n]| == setup.ShardCount()
    ensures forall i :: 0 <= i < |r.states[n]| ==> |r.states[n][i]| <= Max(1, setup.PerShardMaxKeys())
  {
    if n != 0 {
      ShardsStayBounded(setup, r, n - 1);
      assert StepAt(setup, r, n - 1);
      var i := setup.ShardOf(r.calls[n - 1].key);
      ShardStaysBounded(setup.rate, setup.PerShardMaxKeys(), r.states[n - 1][i], r.calls[n - 1],
                        r.states[n][i], r.outs[n - 1]);
    }
  }

  // In every reachable state each key sits in the shard its hash selects, no shard is over its cap, and the
  // limiter as a whole holds at most `maxKeys` keys up to the rounding of the per-shard cap.
  lemma ReachableStatesAreBounded<K>(setup: Setup<K>, r: Run<K>, n: nat)
    requires ValidRun(setup, r) && n <= |r.calls|
    ensures Located(setup, r.states[n])
    ensures forall i :: 0 <= i < |r.states[n]| ==> |r.states[n][i]| <= Max(1, setup.PerShardMaxKeys())
    ensures setup.maxKeys >= 1 ==>
              && TotalKeys(r.states[n]) <= setup.ShardCount() * setup.PerShardMaxKeys()
              && setup.ShardCount() * setup.PerShardMaxKeys() <= setup.maxKeys + setup.ShardCount() - 1
  {
    Reachable(setup, r, n);
    ShardsStayBounded(setup, r, n);
    if setup.maxKeys >= 1 {
      RoundingUp(setup.maxKeys, setup.ShardCount());
      TotalKeysBound(r.states[n], setup.PerShardMaxKeys());
    }
  }

  lemma RoundingUp(m: nat, c: nat)
    requires c >= 1
    ensures c * ((m + c - 1) / c) <= m + c - 1
    ensures c * ((m + c - 1) / c) <= m <==> m % c == 0
  {
    var q, p := (m + c - 1) / c, m / c;
    assert m + c - 1 == c * q + (m + c - 1) % c;
    assert m == c * p + m % c;
    NearMultiple(c, q - p, m % c);
  }

  // `c * d` is within one `c` above `r`, so `d` is zero exactly when `r` is.
  lemma NearMultiple(c: nat, d: int, r: nat)
    requires r < c && r <= c * d < r + c
    ensures d == if r == 0 then 0 else 1
  {}

  /* ---------- When every shard has room for its keys ---------- */

  ghost function KeysCalled<K>(calls: seq<Call<K>>, n: nat): set<K>
    requires n <= |calls|
  {
    set i | 0 <= i < n :: calls[i].key
  }

  lemma KeysCalledGrow<K>(calls: seq<Call<K>>, n: nat)
    requires 0 < n <= |calls|
    ensures KeysCalled(calls, n) == KeysCalled(calls, n - 1) + {calls[n - 1].key}
    ensures KeysCalled(calls, n) <= KeysCalled(calls, |calls|)
  {}

  ghost function InShard<K>(setup: Setup<K>, keys: set<K>, i: nat): set<K> {
    set k | k in keys && setup.ShardOf(k) == i
  }

  // The hash sends no shard more of these keys than its cap.
  ghost predicate Fits<K>(setup: Setup<K>, keys: set<K>) {
    forall i: nat :: i < setup.ShardCount() ==> |InShard(setup, keys, i)| <= setup.PerShardMaxKeys()
  }

  // No shard is ever asked to hold more distinct keys than its cap.
  ghost predicate Roomy<K>(setup: Setup<K>, calls: seq<Call<K>>) {
    Fits(setup, KeysCalled(calls, |calls|))
  }

  lemma {:induction false} TotalKeysUpdate<K>(s: Shards<K>, i: nat, shard: map<K, BucketState>)
    requires i < |s|
    ensures TotalKeys(s[i := shard]) == TotalKeys(s) - |s[i]| + |shard|
  {
    if i > 0 {
      assert s[i := shard][1..] == s[1..][i - 1 := shard];
      TotalKeysUpdate(s[1..], i - 1, shard);
    }
  }

  lemma {:induction false} NoKeysAtFirst<K>(s: Shards<K>)
    requires forall i :: 0 <= i < |s| ==> s[i] == map[]
    ensures TotalKeys(s) == 0
  {
    if s != [] { NoKeysAtFirst(s[1..]); }
  }

  lemma RoomToSpare<K>(setup: Setup<K>, shard: map<K, BucketState>, all: set<K>, key: K)
    requires key in all && key !in shard && shard.Keys <= all
    requires forall k :: k in shard ==> setup.ShardOf(k) == setup.ShardOf(key)
    requires |InShard(setup, all, setup.ShardOf(key))| <= setup.PerShardMaxKeys()
    ensures |shard| < setup.PerShardMaxKeys()
  {
    var here := InShard(setup, all, setup.ShardOf(key));
    assert key in here && shard.Keys <= here - {key};
    SubsetSize(shard.Keys, here - {key});
    assert |shard.Keys| == |shard|;
  }

  lemma OneKeyAdded<K>(rate: Rate, cap: nat, shard: map<K, BucketState>, call: Call<K>,
                       shard': map<K, BucketState>, out: Outcome<K>)
    requires ShardStep(rate, cap, shard, call, shard', out) && (call.key !in shard ==> |shard| < cap)
    ensures out.evicted == None && shard'.Keys == shard.Keys + {call.key}
    ensures |shard'| == |shard| + if call.key in shard then 0 else 1
  {}

  lemma KeyJoinsShard<K>(setup: Setup<K>, r: Run<K>, n: nat)
    requires ValidRun(setup, r) && n < |r.calls| && |r.states[n]| == setup.ShardCount()
    requires var shard := r.states[n][setup.ShardOf(r.calls[n].key)];
             r.calls[n].key !in shard ==> |shard| < setup.PerShardMaxKeys()
    ensures |r.states[n + 1]| == setup.ShardCount()
    ensures var i, key := setup.ShardOf(r.calls[n].key), r.calls[n].key;
            var shard, shard' := r.states[n][i], r.states[n + 1][i];
            && r.states[n + 1] == r.states[n][i := shard']
            && shard'.Keys == shard.Keys + {key}
            && |shard'| == |shard| + if key in shard then 0 else 1
    ensures r.outs[n].evicted == None
  {
    assert StepAt(setup, r, n);
    var i := setup.ShardOf(r.calls[n].key);
    OneKeyAdded(setup.rate, setup.PerShardMaxKeys(), r.states[n][i], r.calls[n], r.states[n + 1][i], r.outs[n]);
  }

  ghost predicate Holds<K>(setup: Setup<K>, s: Shards<K>, keys: set<K>) {
    && |s| == setup.ShardCount()
    && (forall k :: k in keys ==> k in s[setup.ShardOf(k)])
    && (forall i: nat, k :: i < |s| && k in s[i] ==> k in keys)
  }

  lemma HoldsOneMore<K>(setup: Setup<K>, s: Shards<K>, held: set<K>, key: K, shard': map<K, BucketState>)
    requires Located(setup, s) && Holds(setup, s, held) && shard'.Keys == s[setup.ShardOf(key)].Keys + {key}
    ensures Holds(setup, s[setup.ShardOf(key) := shard'], held + {key})
    ensures key in held <==> key in s[setup.ShardOf(key)]
  {}

  lemma CountsOneMore<K>(s: Shards<K>, i: nat, held: set<K>, key: K, shard': map<K, BucketState>)
    requires i < |s| && TotalKeys(s) == |held| && |shard'| == |s[i]| + if key in held then 0 else 1
    ensures TotalKeys(s[i := shard']) == |held + {key}|
  {
    TotalKeysUpdate(s, i, shard');
    if key in held { assert held + {key} == held; }
  }

  lemma HeldStep<K>(setup: Setup<K>, r: Run<K>, n: nat)
    requires ValidRun(setup, r) && n < |r.calls| && Roomy(setup, r.calls)
    requires Holds(setup, r.states[n], KeysCalled(r.calls, n)) && TotalKeys(r.states[n]) == |KeysCalled(r.calls, n)|
    ensures Holds(setup, r.states[n + 1], KeysCalled(r.calls, n + 1)) && r.outs[n].evicted == None
    ensures TotalKeys(r.states[n + 1]) == |KeysCalled(r.calls, n + 1)|
  {
    var key := r.calls[n].key;
    Reachable(setup, r, n);
    KeysCalledGrow(r.calls, n + 1);
    var shard := r.states[n][setup.ShardOf(key)];
    if key !in shard { RoomToSpare(setup, shard, KeysCalled(r.calls, |r.calls|), key); }
    KeyJoinsShard(setup, r, n);
    var shard' := r.states[n + 1][setup.ShardOf(key)];
    HoldsOneMore(setup, r.states[n], KeysCalled(r.calls, n), key, shard');
    CountsOneMore(r.states[n], setup.ShardOf(key), KeysCalled(r.calls, n), key, shard');
  }

  // Then nothing is ever forgotten: exactly the keys that have called are held.
  lemma {:induction false} HeldExactly<K>(setup: Setup<K>, r: Run<K>, n: nat)
    requires ValidRun(setup, r) && n <= |r.calls| && Roomy(setup, r.calls)
    ensures Holds(setup, r.states[n], KeysCalled(r.calls, n))
    ensures TotalKeys(r.states[n]) == |KeysCalled(r.calls, n)|
    ensures n > 0 ==> r.outs[n - 1].evicted == None
  {
    if n == 0 {
      NoKeysAtFirst(r.states[0]);
    } else {
      HeldExactly(setup, r, n - 1);
      HeldStep(setup, r, n - 1);
    }
  }

  lemma HeldStaysHeld<K>(setup: Setup<K>, r: Run<K>, n: nat, k: K)
    requires ValidRun(setup, r) && Roomy(setup, r.calls) && n < |r.calls|
    ensures |r.states[n]| == |r.states[n + 1]| == setup.ShardCount()
    ensures Look(setup, r.states[n], k).Some? ==> Look(setup, r.states[n + 1], k).Some?
  {
    HeldExactly(setup, r, n);
    HeldExactly(setup, r, n + 1);
    KeysCalledGrow(r.calls, n + 1);
  }

  // And nothing is swept either: each key's bucket is the reference's.
  lemma {:induction false} RoomySimulation<K>(setup: Setup<K>, r: Run<K>, n: nat, k: K)
    requires ValidRun(setup, r) && Roomy(setup, r.calls) && n <= |r.calls|
    ensures Located(setup, r.states[n])
    ensures var ref := RefState(setup.rate, r.calls, n);
            Look(setup, r.states[n], k) == if k in ref then Some(ref[k]) else None
  {
    Reachable(setup, r, n);
    if n > 0 {
      RoomySimulation(setup, r, n - 1, k);
      Project(setup, r, n - 1, k);
      HeldStaysHeld(setup, r, n - 1, k);
    }
  }

  // While every shard has room, every answer is the reference's, whatever the clock does.
  lemma RoomyRunsMatchReference<K>(setup: Setup<K>, r: Run<K>, n: nat)
    requires ValidRun(setup, r) && Roomy(setup, r.calls) && n < |r.calls|
    ensures r.outs[n].decision == RefVerdict(setup.rate, r.calls, n)
  {
    RoomySimulation(setup, r, n, r.calls[n].key);
    Project(setup, r, n, r.calls[n].key);
  }
}
