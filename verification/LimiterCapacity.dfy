/** How many keys the limiter can come to hold: every sequence of calls is a run, so the bounds on reachable states are
    met, and `maxKeys` is a hard cap for exactly some hashes and sizes. */
module LimiterCapacity {
  import opened Prelude
  import opened TokenBucket
  import opened Limiter
  import opened LimiterRuns

  /* ---------- Every sequence of calls is a run ---------- */

  lemma {:induction false} HasOldest<K>(shard: map<K, BucketState>) returns (oldest: K)
    requires shard != map[]
    ensures Oldest(shard, oldest)
    decreases shard.Keys
  {
    var k :| k in shard;
    oldest := k;
    var rest := shard - {k};
    assert forall k' :: k' in shard && k' != k ==> k' in rest && rest[k'] == shard[k'];
    if rest != map[] {
      assert rest.Keys == shard.Keys - {k};
      var other := HasOldest(rest);
      if shard[other].updatedAt < shard[k].updatedAt { oldest := other; }
    }
  }

  lemma RoomExists<K>(rate: Rate, cap: nat, shard: map<K, BucketState>, now: int)
    returns (evicted: Option<K>, room: map<K, BucketState>)
    ensures MakesRoom(rate, cap, shard, now, evicted, room) && room.Keys <= shard.Keys
  {
    evicted, room := None, shard;
    if |shard| >= cap {
      if |Swept(rate, shard, now)| < |shard| {
        room := Swept(rate, shard, now);
      } else if shard != map[] {
        var oldest := HasOldest(shard);
        evicted, room := Some(oldest), shard - {oldest};
      }
    }
  }

  lemma StepExists<K>(setup: Setup<K>, s: Shards<K>, call: Call<K>) returns (s': Shards<K>, out: Outcome<K>)
    requires |s| == setup.ShardCount()
    ensures CheckStep(setup, s, call, s', out)
  {
    var i := setup.ShardOf(call.key);
    if call.key in s[i] {
      KnownKeyStep(setup, s, call);
      var b := s[i][call.key];
      s' := s[i := s[i][call.key := After(setup.rate, b, call.now)]];
      out := Outcome(Verdict(setup.rate, b, call.now), None);
    } else {
      var evicted, room := RoomExists(setup.rate, setup.PerShardMaxKeys(), s[i], call.now);
      NewKeyStep(setup, s, call, evicted, room);
      var b := Fresh(setup.rate, call.now);
      s' := s[i := room[call.key := After(setup.rate, b, call.now)]];
      out := Outcome(Verdict(setup.rate, b, call.now), evicted);
    }
  }

  lemma {:induction false} RunExists<K>(setup: Setup<K>, calls: seq<Call<K>>) returns (r: Run<K>)
    ensures ValidRun(setup, r) && r.calls == calls
    decreases |calls|
  {
    if calls == [] {
      r := Run([], [], [seq(setup.ShardCount(), _ => map[])]);
    } else {
      var n := |calls| - 1;
      var front := RunExists(setup, calls[..n]);
      Reachable(setup, front, n);
      var s', out := StepExists(setup, front.states[n], calls[n]);
      r := Run(calls, front.outs + [out], front.states + [s']);
      forall m | 0 <= m < |calls| ensures StepAt(setup, r, m) {
        if m < n { assert StepAt(setup, front, m); }
      }
    }
  }

  /* ---------- The keys held at once are those some set of keys fits ---------- */

  lemma {:induction false} CallEach<K>(keys: set<K>) returns (calls: seq<Call<K>>)
    ensures KeysCalled(calls, |calls|) == keys
    decreases keys
  {
    calls := [];
    if keys != {} {
      var k :| k in keys;
      var rest := CallEach(keys - {k});
      calls := rest + [Call(k, 0)];
      assert forall i :: 0 <= i < |rest| ==> calls[i] == rest[i];
      KeysCalledGrow(calls, |calls|);
      SameKeysCalled(rest, calls);
    }
  }

  lemma SameKeysCalled<K>(part: seq<Call<K>>, whole: seq<Call<K>>)
    requires part <= whole
    ensures KeysCalled(whole, |part|) == KeysCalled(part, |part|)
  {
    assert forall i :: 0 <= i < |part| ==> part[i].key == whole[i].key;
  }

  // Keys that fit can all be held at once.
  lemma FitsIsReached<K>(setup: Setup<K>, keys: set<K>) returns (r: Run<K>)
    requires Fits(setup, keys)
    ensures ValidRun(setup, r) && TotalKeys(r.states[|r.calls|]) == |keys|
  {
    var calls := CallEach(keys);
    r := RunExists(setup, calls);
    HeldExactly(setup, r, |calls|);
  }

  ghost function Held<K>(s: Shards<K>): set<K> {
    if s == [] then {} else s[0].Keys + Held(s[1..])
  }

  ghost predicate Apart<K>(s: Shards<K>) {
    forall i, j, k :: 0 <= i < j < |s| && k in s[i] ==> k !in s[j]
  }

  lemma {:induction false} HeldCount<K>(s: Shards<K>)
    requires Apart(s)
    ensures |Held(s)| == TotalKeys(s)
    ensures forall k :: k in Held(s) ==> exists i :: 0 <= i < |s| && k in s[i]
  {
    if s != [] {
      var rest := s[1..];
      assert forall i :: 0 <= i < |rest| ==> rest[i] == s[i + 1];
      HeldCount(rest);
      assert s[0].Keys !! Held(rest);
      assert |s[0].Keys| == |s[0]|;
      forall k | k in Held(s) ensures exists i :: 0 <= i < |s| && k in s[i] {
        if k in Held(rest) {
          var i :| 0 <= i < |rest| && k in rest[i];
          assert k in s[i + 1];
        }
      }
    }
  }

  lemma LocatedApart<K>(setup: Setup<K>, s: Shards<K>)
    requires Located(setup, s)
    ensures Apart(s)
  {
    forall i, j, k | 0 <= i < j < |s| && k in s[i] ensures k !in s[j] { assert setup.ShardOf(k) == i; }
  }

  lemma HeldInShard<K>(setup: Setup<K>, s: Shards<K>, i: nat)
    requires Located(setup, s) && i < |s|
    ensures |InShard(setup, Held(s), i)| <= |s[i]|
  {
    LocatedApart(setup, s);
    HeldCount(s);
    assert InShard(setup, Held(s), i) <= s[i].Keys;
    SubsetSize(InShard(setup, Held(s), i), s[i].Keys);
    assert |s[i].Keys| == |s[i]|;
  }

  // And the keys held at once fit.
  lemma HeldFits<K>(setup: Setup<K>, r: Run<K>, n: nat)
    requires ValidRun(setup, r) && n <= |r.calls| && setup.maxKeys >= 1
    ensures Fits(setup, Held(r.states[n]))
  {
    ReachableStatesAreBounded(setup, r, n);
    CapInRange(setup.maxKeys, setup.ShardCount());
    forall i: nat | i < setup.ShardCount() ensures |InShard(setup, Held(r.states[n]), i)| <= setup.PerShardMaxKeys() {
      HeldInShard(setup, r.states[n], i);
    }
  }

  lemma HeldTotal<K>(setup: Setup<K>, r: Run<K>, n: nat)
    requires ValidRun(setup, r) && n <= |r.calls|
    ensures |Held(r.states[n])| == TotalKeys(r.states[n])
  {
    Reachable(setup, r, n);
    LocatedApart(setup, r.states[n]);
    HeldCount(r.states[n]);
  }

  /* ---------- When `maxKeys` is a hard cap ---------- */

  ghost predicate HardCap<K(!new)>(setup: Setup<K>) {
    forall r: Run<K>, n: nat :: ValidRun(setup, r) && n <= |r.calls| ==> TotalKeys(r.states[n]) <= setup.maxKeys
  }

  // Every shard has enough keys to fill it.
  ghost predicate Spread<K(!new)>(setup: Setup<K>) {
    forall i: nat :: i < setup.ShardCount() ==> CanFill(setup, i)
  }

  ghost predicate CanFill<K(!new)>(setup: Setup<K>, i: nat) {
    exists keys: set<K> :: Fills(setup, keys, i)
  }

  ghost predicate Fills<K>(setup: Setup<K>, keys: set<K>, i: nat) {
    |keys| == setup.PerShardMaxKeys() && forall k :: k in keys ==> setup.ShardOf(k) == i
  }

  lemma OneMore(n: nat, c: nat)
    ensures (n + 1) * c == n * c + c
  {}

  // Keys of the shards below `last`, and more of that shard itself.
  lemma FitsOneMore<K>(setup: Setup<K>, below: set<K>, more: set<K>, last: nat)
    requires Fits(setup, below) && Fills(setup, more, last) && forall k :: k in below ==> setup.ShardOf(k) < last
    ensures Fits(setup, below + more) && |below + more| == |below| + |more|
  {
    assert below !! more;
    forall i: nat | i < setup.ShardCount() ensures |InShard(setup, below + more, i)| <= setup.PerShardMaxKeys() {
      assert InShard(setup, below + more, i) == if i == last then more else InShard(setup, below, i);
    }
  }

  lemma {:induction false} FillShards<K(!new)>(setup: Setup<K>, n: nat) returns (keys: set<K>)
    requires Spread(setup) && n <= setup.ShardCount()
    ensures |keys| == n * setup.PerShardMaxKeys()
    ensures forall k :: k in keys ==> setup.ShardOf(k) < n
    ensures Fits(setup, keys)
  {
    keys := {};
    if n > 0 {
      var last: nat := n - 1;
      var below := FillShards(setup, last);
      assert CanFill(setup, last);
      var more: set<K> :| Fills(setup, more, last);
      FitsOneMore(setup, below, more, last);
      keys := below + more;
      OneMore(last, setup.PerShardMaxKeys());
    } else {
      assert forall i: nat :: i < setup.ShardCount() ==> InShard(setup, keys, i) == {};
    }
  }

  // `maxKeys` bounds every reachable state if, and only if, the hash fits no larger set of keys into the shards. Even
  // division is always enough, and needed as soon as every shard has keys to fill it.
  lemma MaxKeysIsHardIff<K(!new)>(setup: Setup<K>)
    requires setup.maxKeys >= 1
    ensures HardCap(setup) <==> forall keys: set<K> :: Fits(setup, keys) ==> |keys| <= setup.maxKeys
    ensures setup.maxKeys % setup.ShardCount() == 0 ==> HardCap(setup)
    ensures Spread(setup) ==> (HardCap(setup) <==> setup.maxKeys % setup.ShardCount() == 0)
  {
    RoundingUp(setup.maxKeys, setup.ShardCount());
    forall keys: set<K> | Fits(setup, keys) && HardCap(setup) ensures |keys| <= setup.maxKeys {
      var r := FitsIsReached(setup, keys);
    }
    forall r: Run<K>, n: nat | ValidRun(setup, r) && n <= |r.calls|
      ensures Fits(setup, Held(r.states[n])) && |Held(r.states[n])| == TotalKeys(r.states[n])
      ensures setup.maxKeys % setup.ShardCount() == 0 ==> TotalKeys(r.states[n]) <= setup.maxKeys
    {
      HeldFits(setup, r, n);
      HeldTotal(setup, r, n);
      ReachableStatesAreBounded(setup, r, n);
    }
    if Spread(setup) {
      var keys := FillShards(setup, setup.ShardCount());
    }
  }

  /* ---------- Two instances with 129 keys and two shards ---------- */

  ghost function Range(from: nat, n: nat): (keys: set<nat>)
    ensures |keys| == n && forall k :: k in keys <==> from <= k < from + n
  {
    if n == 0 then {} else Range(from, n - 1) + {from + n - 1}
  }

  ghost function HalfAndHalf(): Setup<nat> { Setup(Rate(1, 1), 129, (k: nat) => if k < 65 then 0 else 1) }

  lemma HalfAndHalfShards(k: nat)
    ensures HalfAndHalf().ShardCount() == 2 && HalfAndHalf().PerShardMaxKeys() == 65
    ensures HalfAndHalf().ShardOf(k) == if k < 65 then 0 else 1
  {
    assert HalfAndHalf().ShardCount() == 2;
    assert HalfAndHalf().ShardOf(k) == ((if k < 65 then 0 else 1) & MaskFor(2)) as int;
  }

  lemma HalfFits(setup: Setup<nat>, half: nat, i: nat)
    requires setup.ShardCount() == 2 && i < 2
    requires forall k: nat :: setup.ShardOf(k) == if k < half then 0 else 1
    ensures |InShard(setup, Range(0, half + half), i)| == half
  {
    assert InShard(setup, Range(0, half + half), i) == Range(if i == 0 then 0 else half, half);
  }

  lemma HalvesFit(setup: Setup<nat>, half: nat)
    requires setup.ShardCount() == 2 && setup.PerShardMaxKeys() == half
    requires forall k: nat :: setup.ShardOf(k) == if k < half then 0 else 1
    ensures Fits(setup, Range(0, half + half))
  {
    HalfFits(setup, half, 0);
    HalfFits(setup, half, 1);
  }

  // A hash that spreads its keys over both shards lets 130 be held.
  lemma SpreadHashExceedsTheCap() returns (r: Run<nat>)
    ensures ValidRun(HalfAndHalf(), r) && TotalKeys(r.states[|r.calls|]) == 130 == HalfAndHalf().maxKeys + 1
  {
    forall k: nat
      ensures HalfAndHalf().ShardCount() == 2 && HalfAndHalf().PerShardMaxKeys() == 65
      ensures HalfAndHalf().ShardOf(k) == if k < 65 then 0 else 1
    {
      HalfAndHalfShards(k);
    }
    var half := HalfAndHalf().PerShardMaxKeys();
    HalvesFit(HalfAndHalf(), half);
    r := FitsIsReached(HalfAndHalf(), Range(0, half + half));
  }

  // A hash that sends every key to one shard keeps any cap, evenly divided or not.
  lemma CrowdedHashKeepsTheCap<K(!new)>(setup: Setup<K>)
    requires setup.maxKeys >= 1 && forall k :: setup.hash(k) == 0
    ensures HardCap(setup)
  {
    forall keys: set<K> | Fits(setup, keys) ensures |keys| <= setup.maxKeys {
      assert InShard(setup, keys, 0) == keys;
      CapInRange(setup.maxKeys, setup.ShardCount());
    }
    MaxKeysIsHardIff(setup);
  }

  lemma CapInRange(m: nat, c: nat)
    requires m >= 1 && c >= 1
    ensures 1 <= (m + c - 1) / c <= m
  {
    var q := (m + c - 1) / c;
    assert m + c - 1 == q * c + (m + c - 1) % c;
    AtLeast(m, c);
    CancelFactor(q, m, c);
    CancelFactor(1, q, c);
  }

  // A product less than a factor's worth short of another is no shorter by a factor.
  lemma CancelFactor(a: nat, b: nat, c: nat)
    requires c >= 1 && a * c < b * c + c
    ensures a <= b
  {
    assert (a - b - 1) * c == a * c - b * c - c;
    assert a > b ==> (a - b - 1) * c >= 0;
  }
}
