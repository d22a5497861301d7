/** The keyed limiter: buckets sharded by key hash, a pristine sweep when a shard is full, and a fallback
    that evicts the bucket least recently touched.

    The class `Limiter` is the code; `CheckStep` is what one call does, on values. */
module Limiter {
  import opened Prelude
  import opened TokenBucket

  const MIN_KEYS_PER_SHARD: nat := 64
  const MAX_SHARDS: nat := 16

  predicate IsShardCount(n: nat) {
    n == 1 || n == 2 || n == 4 || n == 8 || n == 16
  }

  // `usize::next_power_of_two` on the range its argument is clamped to.
  function NextPowerOfTwo(n: nat): (p: nat)
    requires 1 <= n <= MAX_SHARDS
    ensures IsShardCount(p) && n <= p < 2 * n
  {
    if n == 1 then 1 else if n == 2 then 2 else if n <= 4 then 4 else if n <= 8 then 8 else 16
  }

  // `shard_mask`
  function MaskFor(count: nat): bv64
    requires IsShardCount(count)
  {
    if count == 1 then 0 else if count == 2 then 1 else if count == 4 then 3 else if count == 8 then 7 else 15
  }

  lemma MaskInBounds(h: bv64, count: nat)
    requires IsShardCount(count)
    ensures (h & MaskFor(count)) as int < count
  {}

  // The mask takes the remainder by the shard count, so every shard is some hash's.
  lemma MaskIsRemainder(h: bv64)
    ensures h & MaskFor(1) == 0
    ensures h & MaskFor(2) == h % 2
    ensures h & MaskFor(4) == h % 4
    ensures h & MaskFor(8) == h % 8
    ensures h & MaskFor(16) == h % 16
  {}

  // `hash & (count - 1)`: in bounds because `count` is a power of two.
  function Masked(h: bv64, count: nat): (i: nat)
    requires IsShardCount(count)
    ensures i < count
  {
    MaskInBounds(h, count);
    (h & MaskFor(count)) as int
  }

  datatype Setup<!K> = Setup(rate: Rate, maxKeys: nat, hash: K -> bv64) {
    function ShardCount(): (n: nat)
      ensures IsShardCount(n)
    {
      NextPowerOfTwo(Min(Max(maxKeys / MIN_KEYS_PER_SHARD, 1), MAX_SHARDS))
    }

    function PerShardMaxKeys(): nat { (maxKeys + ShardCount() - 1) / ShardCount() }

    function ShardOf(key: K): (i: nat)
      ensures i < ShardCount()
    {
      Masked(hash(key), ShardCount())
    }
  }

  // One shard for every 64 keys, at least one and at most 16, rounded up to a power of two; the keys are divided among
  // them, rounding up.
  lemma ShardsOf<K>(setup: Setup<K>)
    ensures var wanted, n, cap := setup.maxKeys / 64, setup.ShardCount(), setup.PerShardMaxKeys();
            && n in {1, 2, 4, 8, 16}
            && (if wanted <= 1 then n == 1 else if wanted >= 16 then n == 16 else wanted <= n < 2 * wanted)
            && n * cap - n < setup.maxKeys <= n * cap
  {
    var n := setup.ShardCount();
    assert setup.maxKeys + n - 1 == n * setup.PerShardMaxKeys() + (setup.maxKeys + n - 1) % n;
  }

  /* ---------- One call, on values ---------- */

  datatype Call<+K> = Call(key: K, now: int)

  // `evicted` names the key `evict_oldest` removed during the call, if it ran.
  datatype Outcome<+K> = Outcome(decision: Decision, evicted: Option<K>)

  type Shards<K> = seq<map<K, BucketState>>

  ghost predicate Located<K>(setup: Setup<K>, s: Shards<K>) {
    && |s| == setup.ShardCount()
    && forall i: nat, k :: i < |s| && k in s[i] ==> setup.ShardOf(k) == i
  }

  ghost function Look<K>(setup: Setup<K>, s: Shards<K>, k: K): Option<BucketState>
    requires |s| == setup.ShardCount()
  {
    var shard := s[setup.ShardOf(k)];
    if k in shard then Some(shard[k]) else None
  }

  ghost function Swept<K>(rate: Rate, shard: map<K, BucketState>, now: int): map<K, BucketState> {
    map k | k in shard && !Pristine(rate, shard[k], now) :: shard[k]
  }

  ghost predicate Oldest<K>(shard: map<K, BucketState>, k: K) {
    k in shard && forall k' :: k' in shard ==> shard[k].updatedAt <= shard[k'].updatedAt
  }

  // Making room for a new key: `room` is the shard afterwards. Which of several equally old buckets is
  // evicted is the hash map's choice.
  ghost predicate MakesRoom<K>(rate: Rate, cap: nat, shard: map<K, BucketState>, now: int,
                         evicted: Option<K>, room: map<K, BucketState>)
  {
    if |shard| < cap then evicted == None && room == shard
    else if |Swept(rate, shard, now)| < |shard| then evicted == None && room == Swept(rate, shard, now)
    else if shard == map[] then evicted == None && room == shard
    else evicted.Some? && Oldest(shard, evicted.value) && room == shard - {evicted.value}
  }

  ghost predicate ShardStep<K>(rate: Rate, cap: nat, shard: map<K, BucketState>, call: Call<K>,
                         shard': map<K, BucketState>, out: Outcome<K>)
  {
    if call.key in shard then
      && out == Outcome(Verdict(rate, shard[call.key], call.now), None)
      && shard' == shard[call.key := After(rate, shard[call.key], call.now)]
    else
      var b := Fresh(rate, call.now);
      && out.decision == Verdict(rate, b, call.now)
      && call.key in shard'
      && shard'[call.key] == After(rate, b, call.now)
      && MakesRoom(rate, cap, shard, call.now, out.evicted, shard' - {call.key})
  }

  ghost predicate CheckStep<K>(setup: Setup<K>, s: Shards<K>, call: Call<K>, s': Shards<K>, out: Outcome<K>) {
    && |s| == |s'| == setup.ShardCount()
    && var i := setup.ShardOf(call.key);
       && ShardStep(setup.rate, setup.PerShardMaxKeys(), s[i], call, s'[i], out)
       && s' == s[i := s'[i]]
  }

  /* ---------- What one call does to one key ---------- */

  ghost predicate KeyStep<K>(rate: Rate, k: K, look: Option<BucketState>, call: Call<K>,
                       look': Option<BucketState>, out: Outcome<K>)
  {
    if call.key == k then
      var b := look.GetOr(Fresh(rate, call.now));
      out.decision == Verdict(rate, b, call.now) && look' == Some(After(rate, b, call.now)) && out.evicted != Some(k)
    else if out.evicted == Some(k) then look.Some? && look' == None
    else look' == look || (look.Some? && look' == None && Pristine(rate, look.value, call.now))
  }

  lemma ShardProjects<K>(rate: Rate, cap: nat, shard: map<K, BucketState>, call: Call<K>,
                         shard': map<K, BucketState>, out: Outcome<K>, k: K)
    requires ShardStep(rate, cap, shard, call, shard', out)
    ensures KeyStep(rate, k, if k in shard then Some(shard[k]) else None, call,
                    if k in shard' then Some(shard'[k]) else None, out)
    ensures shard'.Keys <= shard.Keys + {call.key}
  {
    if call.key !in shard {
      var room := shard' - {call.key};
      assert k != call.key ==> (k in shard' <==> k in room) && (k in room ==> room[k] == shard'[k]);
      assert shard'.Keys == room.Keys + {call.key};
    }
  }

  // A call touches a key other than its own only by sweeping it when pristine or by evicting it.
  lemma CheckProjects<K>(setup: Setup<K>, s: Shards<K>, call: Call<K>, s': Shards<K>, out: Outcome<K>, k: K)
    requires Located(setup, s) && CheckStep(setup, s, call, s', out)
    ensures Located(setup, s')
    ensures KeyStep(setup.rate, k, Look(setup, s, k), call, Look(setup, s', k), out)
  {
    var i := setup.ShardOf(call.key);
    ShardProjects(setup.rate, setup.PerShardMaxKeys(), s[i], call, s'[i], out, k);
    assert out.evicted == Some(k) ==> k in s[i];
  }

  /* ---------- The limiter itself ---------- */

  ghost function ViewOf<K>(buckets: map<K, Bucket>): map<K, BucketState>
    reads buckets.Values
  {
    map k | k in buckets :: buckets[k].View()
  }

  // The bucket `evict_oldest` removes.
  method OldestKey<K(==)>(buckets: map<K, Bucket>) returns (oldest: K)
    requires buckets != map[]
    ensures Oldest(ViewOf(buckets), oldest)
  {
    var left := buckets.Keys;
    oldest :| oldest in left;
    while left != {}
      invariant left <= buckets.Keys && oldest in buckets
      invariant forall k :: k in buckets && k !in left ==> buckets[oldest].updatedAt <= buckets[k].updatedAt
      decreases |left|
    {
      var k :| k in left;
      if buckets[k].updatedAt < buckets[oldest].updatedAt || k == oldest {
        oldest := k;
      }
      left := left - {k};
    }
  }

  // A submap that is not smaller is the map.
  lemma NothingSwept<K, V>(m: map<K, V>, kept: map<K, V>)
    requires kept.Keys <= m.Keys && forall k :: k in kept ==> kept[k] == m[k]
    ensures |kept| <= |m| && (|kept| == |m| ==> kept == m)
  {
    SubsetSize(kept.Keys, m.Keys);
    assert |kept.Keys| == |kept| && |m.Keys| == |m|;
    if kept.Keys != m.Keys {
      var k :| k in m.Keys && k !in kept.Keys;
      SubsetSize(kept.Keys, m.Keys - {k});
    }
  }

  class Limiter<K(==)> {
    const setup: Setup<K>
    var shards: seq<map<K, Bucket>>
    // What the shards hold, as values; and the shard and key each bucket belongs to, so that none is shared.
    ghost var Contents: Shards<K>
    ghost var owner: map<Bucket, (nat, K)>

    ghost predicate Valid()
      reads this, owner.Keys
    {
      && |shards| == |Contents| == setup.ShardCount()
      && (forall i: nat :: i < |shards| ==> shards[i].Keys == Contents[i].Keys)
      && (forall i: nat, k :: i < |shards| && k in shards[i] ==> Placed(shards[i][k], i, k))
    }

    ghost predicate Placed(bucket: Bucket, i: nat, k: K)
      reads this, owner.Keys
    {
      && bucket in owner && owner[bucket] == (i, k)
      && i < |Contents| && k in Contents[i]
      && bucket.View() == Contents[i][k]
    }

    constructor (setup: Setup<K>)
      ensures this.setup == setup && Valid() && owner == map[]
      ensures Contents == seq(setup.ShardCount(), _ => map[])
    {
      this.setup := setup;
      shards := seq(setup.ShardCount(), _ => map[]);
      Contents := seq(setup.ShardCount(), _ => map[]);
      owner := map[];
    }

    method MakeRoom(buckets: map<K, Bucket>, now: int) returns (room: map<K, Bucket>, ghost evicted: Option<K>)
      ensures room.Keys <= buckets.Keys && forall k :: k in room ==> room[k] == buckets[k]
      ensures MakesRoom(setup.rate, setup.PerShardMaxKeys(), ViewOf(buckets), now, evicted, ViewOf(room))
    {
      room, evicted := buckets, None;
      ghost var shard := ViewOf(buckets);
      assert shard.Keys == buckets.Keys && |shard.Keys| == |shard| && |buckets.Keys| == |buckets|;
      if |buckets| >= setup.PerShardMaxKeys() {
        var before := |buckets|;
        room := map k | k in buckets && !buckets[k].IsPristine(setup.rate, now) :: buckets[k];
        assert ViewOf(room) == Swept(setup.rate, shard, now);
        assert |ViewOf(room).Keys| == |ViewOf(room)| && |room.Keys| == |room| && ViewOf(room).Keys == room.Keys;
        NothingSwept(buckets, room);
        if |room| == before {
          if |room| > 0 {
            var oldest := OldestKey(room);
            room := room - {oldest};
            evicted := Some(oldest);
          }
        }
      }
    }

    method Check(key: K, now: int) returns (decision: Decision, ghost evicted: Option<K>)
      requires Valid()
      modifies this, owner.Keys
      ensures Valid() && fresh(owner.Keys - old(owner.Keys))
      ensures CheckStep(setup, old(Contents), Call(key, now), Contents, Outcome(decision, evicted))
    {
      if key in shards[setup.ShardOf(key)] {
        decision := TakeKnown(key, now);
        evicted := None;
      } else {
        decision, evicted := TakeNew(key, now);
      }
    }

    // `buckets.get_mut(&key)` and its `take`
    method TakeKnown(key: K, now: int) returns (decision: Decision)
      requires Valid() && key in shards[setup.ShardOf(key)]
      modifies this`Contents, shards[setup.ShardOf(key)][key]
      ensures Valid()
      ensures CheckStep(setup, old(Contents), Call(key, now), Contents, Outcome(decision, None))
    {
      var index := setup.ShardOf(key);
      var bucket := shards[index][key];
      assert Placed(bucket, index, key);
      KnownKeyStep(setup, Contents, Call(key, now));
      decision := bucket.Take(setup.rate, now);
      Contents := Contents[index := Contents[index][key := bucket.View()]];
      forall i: nat, k | i < |shards| && k in shards[i] ensures Placed(shards[i][k], i, k) {
        assert old(Placed(shards[i][k], i, k));
      }
    }

    // A new key: make room, then let a fresh bucket answer the call and join the shard.
    method TakeNew(key: K, now: int) returns (decision: Decision, ghost evicted: Option<K>)
      requires Valid() && key !in shards[setup.ShardOf(key)]
      modifies this
      ensures Valid() && fresh(owner.Keys - old(owner.Keys))
      ensures CheckStep(setup, old(Contents), Call(key, now), Contents, Outcome(decision, evicted))
    {
      var index := setup.ShardOf(key);
      var buckets := shards[index];
      assert ViewOf(buckets) == Contents[index] by {
        assert forall k :: k in buckets ==> Placed(buckets[k], index, k);
      }
      var room, gone := MakeRoom(buckets, now);
      evicted := gone;
      NewKeyStep(setup, Contents, Call(key, now), evicted, ViewOf(room));
      decision := Insert(index, room, key, now);
    }

    method Insert(index: nat, room: map<K, Bucket>, key: K, now: int) returns (decision: Decision)
      requires Valid() && index < |shards| && key !in room
      requires room.Keys <= shards[index].Keys && forall k :: k in room ==> room[k] == shards[index][k]
      modifies this
      ensures Valid() && fresh(owner.Keys - old(owner.Keys))
      ensures var b := Fresh(setup.rate, now);
              && decision == Verdict(setup.rate, b, now)
              && Contents == old(Contents)[index := old(ViewOf(room))[key := After(setup.rate, b, now)]]
    {
      ghost var roomView := ViewOf(room);
      assert forall k :: k in room ==> Placed(room[k], index, k);
      var bucket := new Bucket(setup.rate.Capacity(), now);
      decision := bucket.Take(setup.rate, now);
      shards := shards[index := room[key := bucket]];
      Contents := Contents[index := roomView[key := bucket.View()]];
      owner := owner[bucket := (index, key)];
      forall i: nat, k | i < |shards| && k in shards[i] ensures Placed(shards[i][k], i, k) {
        assert i != index ==> old(Placed(shards[i][k], i, k));
        assert i == index && k != key ==> old(Placed(room[k], i, k));
      }
    }
  }

  lemma KnownKeyStep<K>(setup: Setup<K>, s: Shards<K>, call: Call<K>)
    requires |s| == setup.ShardCount() && call.key in s[setup.ShardOf(call.key)]
    ensures var i := setup.ShardOf(call.key);
            var b := s[i][call.key];
            CheckStep(setup, s, call, s[i := s[i][call.key := After(setup.rate, b, call.now)]],
                      Outcome(Verdict(setup.rate, b, call.now), None))
  {}

  lemma NewKeyStep<K>(setup: Setup<K>, s: Shards<K>, call: Call<K>, evicted: Option<K>, room: map<K, BucketState>)
    requires |s| == setup.ShardCount() && call.key !in s[setup.ShardOf(call.key)] && call.key !in room
    requires MakesRoom(setup.rate, setup.PerShardMaxKeys(), s[setup.ShardOf(call.key)], call.now, evicted, room)
    ensures var i := setup.ShardOf(call.key);
            var b := Fresh(setup.rate, call.now);
            CheckStep(setup, s, call, s[i := room[call.key := After(setup.rate, b, call.now)]],
                      Outcome(Verdict(setup.rate, b, call.now), evicted))
  {}
}
