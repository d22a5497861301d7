/** Concurrent verifications sharing one token cache.

    A `verify` is three atomic sections with an upstream request in between, so other verifications, purges and
    cancellations may run between any two of them. */
module TokenCacheRuns {
  import opened Prelude
  import opened TokenCache

  datatype Setup = Setup(ttl: nat, horizon: int, digest: Token -> Digest)

  // A verification waiting for its introspection response, or holding one not yet cached.
  datatype Task = Introspecting(token: Token) | Resolved(token: Token, i: Introspection, answer: Answer, wall: int)

  // Where a cache entry came from: the response, the wall clock when it was judged, both clocks when stored.
  datatype Origin = Origin(token: Token, i: Introspection, judged: int, wall: int, mono: int)

  // `seen` and `origin` are history: every response received, and the source of each entry.
  datatype State = State(cache: Cache, tasks: map<nat, Task>,
                         seen: set<(Token, Introspection)>, origin: map<Digest, Origin>)

  datatype Action =
    | Lookup(task: nat, token: Token, mono: int, wall: int, hit: Option<Answer>)
    | Respond(task: nat, outcome: Result<Introspection, AuthError>, wall: int, answer: Answer)
    | Put(task: nat, wall: int, mono: int)
    | Purge(token: Token)
    | Cancel(task: nat)

  ghost predicate Stores(setup: Setup, s: State, t: Task, wall: int, mono: int)
    requires t.Resolved?
  {
    var kept := Unexpired(s.cache, mono);
    EffectiveTtl(setup.ttl, t.i, t.answer, wall) > 0 && (|kept| < CACHE_CAPACITY || setup.digest(t.token) in kept)
  }

  ghost predicate Step(setup: Setup, s: State, a: Action, s': State) {
    match a
    case Lookup(task, token, mono, wall, hit) =>
      && task !in s.tasks
      && var (cache', hit') := if setup.ttl == 0 then (s.cache, None)
                               else Fetched(s.cache, setup.digest(token), mono, wall);
         && hit == hit'
         && s' == s.(cache := cache', tasks := if hit.Some? then s.tasks else s.tasks[task := Introspecting(token)])
    case Respond(task, outcome, wall, answer) =>
      && task in s.tasks && s.tasks[task].Introspecting?
      && var token := s.tasks[task].token;
         if outcome.Err? then
           // `introspect` itself never reports an invalid token.
           !outcome.error.InvalidToken? && answer == Err(outcome.error) && s' == s.(tasks := s.tasks - {task})
         else
           var i := outcome.value;
           && answer == ContextFrom(i, token, wall)
           && s' == s.(seen := s.seen + {(token, i)},
                       tasks := if setup.ttl == 0 then s.tasks - {task}
                                else s.tasks[task := Resolved(token, i, answer, wall)])
    case Put(task, wall, mono) =>
      && task in s.tasks && s.tasks[task].Resolved?
      && var t := s.tasks[task];
         var d := setup.digest(t.token);
         s' == s.(cache := Stored(s.cache, setup.ttl, setup.horizon, d, t.i, t.answer, wall, mono),
                  tasks := s.tasks - {task},
                  origin := if Stores(setup, s, t, wall, mono)
                            then s.origin[d := Origin(t.token, t.i, t.wall, wall, mono)] else s.origin)
    case Purge(token) => s' == s.(cache := s.cache - {setup.digest(token)})
    case Cancel(task) => s' == s.(tasks := s.tasks - {task})
  }

  /* ---------- The invariant ---------- */

  // An entry stands for a response really received for a token with this digest, and lives no longer than the
  // time to live computed from that response when it was stored.
  ghost predicate Backed(setup: Setup, s: State, d: Digest)
    requires d in s.cache
  {
    && d in s.origin
    && var o, e := s.origin[d], s.cache[d];
       var judged := ContextFrom(o.i, o.token, o.judged);
       && setup.digest(o.token) == d
       && (o.token, o.i) in s.seen
       && e.value == (if judged.Ok? then Valid(judged.value) else Invalid)
       && var life := EffectiveTtl(setup.ttl, o.i, judged, o.wall);
          life > 0 && e.expiresAt <= o.mono + life
  }

  ghost predicate Genuine(s: State, task: nat)
    requires task in s.tasks
  {
    var t := s.tasks[task];
    t.Resolved? ==> (t.token, t.i) in s.seen && t.answer == ContextFrom(t.i, t.token, t.wall)
  }

  ghost predicate Inv(setup: Setup, s: State) {
    && |s.cache| <= 1024
    && (forall d :: d in s.cache ==> Backed(setup, s, d))
    && (forall task :: task in s.tasks ==> Genuine(s, task))
  }

  lemma SubmapSize(part: Cache, whole: Cache)
    requires part.Keys <= whole.Keys
    ensures |part| <= |whole|
  {
    SubsetSize(part.Keys, whole.Keys);
    assert |part.Keys| == |part| && |whole.Keys| == |whole|;
  }

  // Storing one token's result never removes or changes another token's unexpired entry, adds no other, and
  // keeps the cache within its capacity.
  lemma StoringIsLocal(cache: Cache, ttl: nat, horizon: int, d: Digest, i: Introspection, answer: Answer,
                       wall: int, mono: int, other: Digest)
    requires |cache| <= 1024 && other != d
    ensures var cache' := Stored(cache, ttl, horizon, d, i, answer, wall, mono);
            && |cache'| <= 1024
            && (other in cache && cache[other].expiresAt > mono ==> other in cache' && cache'[other] == cache[other])
            && (other in cache' ==> other in cache && cache'[other] == cache[other])
  {
    var kept := Unexpired(cache, mono);
    SubmapSize(kept, cache);
    var cache' := Stored(cache, ttl, horizon, d, i, answer, wall, mono);
    assert cache'.Keys <= kept.Keys + {d} || cache' == cache;
    assert |cache'.Keys| == |cache'| && |kept.Keys| == |kept|;
    if d in kept { assert kept.Keys + {d} == kept.Keys; }
    if cache' != cache { SubsetSize(cache'.Keys, kept.Keys + {d}); }
  }

  lemma PutKeepsInv(setup: Setup, s: State, a: Action, s': State)
    requires Inv(setup, s) && a.Put? && Step(setup, s, a, s')
    ensures Inv(setup, s')
  {
    var t := s.tasks[a.task];
    var d := setup.digest(t.token);
    assert Genuine(s, a.task);
    StoringIsLocal(s.cache, setup.ttl, setup.horizon, d, t.i, t.answer, a.wall, a.mono, d + 1);
    forall d' | d' in s'.cache ensures Backed(setup, s', d') {
      var other := if d' != d then d' else d + 1;
      StoringIsLocal(s.cache, setup.ttl, setup.horizon, d, t.i, t.answer, a.wall, a.mono, other);
      assert d' != d ==> Backed(setup, s, d');
      if d' == d && !Stores(setup, s, t, a.wall, a.mono) {
        assert Backed(setup, s, d);
      }
    }
    forall task | task in s'.tasks ensures Genuine(s', task) { assert Genuine(s, task); }
  }

  lemma StepKeepsInv(setup: Setup, s: State, a: Action, s': State)
    requires Inv(setup, s) && Step(setup, s, a, s')
    ensures Inv(setup, s')
  {
    if a.Put? {
      PutKeepsInv(setup, s, a, s');
    } else {
      assert s'.cache.Keys <= s.cache.Keys;
      SubmapSize(s'.cache, s.cache);
      forall d | d in s'.cache ensures Backed(setup, s', d) { assert Backed(setup, s, d); }
      forall task | task in s'.tasks ensures Genuine(s', task) { assert task in s.tasks ==> Genuine(s, task); }
    }
  }

  /* ---------- Every interleaving ---------- */

  datatype Run = Run(actions: seq<Action>, states: seq<State>)

  // A run from any state; `ValidRun` is one from the empty cache.
  ghost predicate Steps(setup: Setup, r: Run) {
    && |r.states| == |r.actions| + 1
    && forall n :: 0 <= n < |r.actions| ==> StepAt(setup, r, n)
  }

  ghost predicate ValidRun(setup: Setup, r: Run) {
    Steps(setup, r) && r.states[0] == State(map[], map[], {}, map[])
  }

  ghost predicate StepAt(setup: Setup, r: Run, n: nat)
    requires n < |r.actions| && |r.states| == |r.actions| + 1
  {
    Step(setup, r.states[n], r.actions[n], r.states[n + 1])
  }

  lemma RunKeepsInv(setup: Setup, r: Run, n: nat)
    requires Steps(setup, r) && n < |r.actions| && Inv(setup, r.states[n])
    ensures Inv(setup, r.states[n + 1])
  {
    assert StepAt(setup, r, n);
    StepKeepsInv(setup, r.states[n], r.actions[n], r.states[n + 1]);
  }

  lemma {:induction false} Reachable(setup: Setup, r: Run, n: nat)
    requires ValidRun(setup, r) && n <= |r.actions|
    ensures Inv(setup, r.states[n])
  {
    if n != 0 {
      Reachable(setup, r, n - 1);
      RunKeepsInv(setup, r, n - 1);
    }
  }

  ghost predicate Injective(digest: Token -> Digest) {
    forall s, t :: digest(s) == digest(t) ==> s == t
  }

  // An `exp` more than five seconds after the wall clock, whose sum saturates at 64 bits.
  ghost predicate Lasts(exp: Option<int>, wall: int) {
    exp.Some? ==> exp.value > Max(I64_MIN, Min(wall + 5, I64_MAX))
  }

  // A response is accepted when active and lasting, and the context is the response's own data.
  ghost predicate Accepts(i: Introspection, token: Token, wall: int, context: AuthContext) {
    && i.active && Lasts(i.exp, wall)
    && context.token == token && context.scopes == i.scopes && context.expiresAt == i.exp
    && context.subject == (if i.sub.Some? then i.sub else i.username)
  }

  lemma VerdictOf(i: Introspection, token: Token, wall: int)
    ensures match ContextFrom(i, token, wall)
            case Ok(context) => Accepts(i, token, wall, context)
            case Err(e) =>
              && !(i.active && Lasts(i.exp, wall))
              && e == InvalidToken(if i.active then "token is expired" else "token is not active")
  {}

  // `answer`, given at `mono`/`wall`, is the class of the response `o.i` received for `token` and cached since.
  ghost predicate FreshEnough(setup: Setup, s: State, o: Origin, token: Token, answer: Answer, mono: int, wall: int) {
    && o.token == token && (token, o.i) in s.seen
    && match answer
       case Ok(context) =>
         && Accepts(o.i, token, o.judged, context)
         && Lasts(o.i.exp, wall)
         && mono - o.mono < setup.ttl
         && (o.i.exp.Some? ==> mono - o.mono < (o.i.exp.value - 5 - o.wall) * 1_000_000_000)
       case Err(e) =>
         && e.InvalidToken? && !(o.i.active && Lasts(o.i.exp, o.judged))
         && mono - o.mono < 5_000_000_000
  }

  lemma LifeIsCapped(ttl: nat, i: Introspection, context: AuthContext, wall: int)
    requires EffectiveTtl(ttl, i, Ok(context), wall) > 0
    ensures EffectiveTtl(ttl, i, Ok(context), wall) <= ttl
    ensures i.exp.Some? ==> EffectiveTtl(ttl, i, Ok(context), wall) <= (i.exp.value - CLOCK_SKEW_SECS - wall) * SECOND
  {}

  // A cache hit repeats the verdict of a response received for that very token, stored less than its permitted
  // lifetime ago; an accepted context is never within the clock skew of its expiry.
  lemma HitsAreRecentIntrospections(setup: Setup, r: Run, n: nat)
    requires ValidRun(setup, r) && Injective(setup.digest) && n < |r.actions|
    requires r.actions[n].Lookup? && r.actions[n].hit.Some?
    ensures var a, s := r.actions[n], r.states[n];
            && setup.digest(a.token) in s.origin
            && FreshEnough(setup, s, s.origin[setup.digest(a.token)], a.token, a.hit.value, a.mono, a.wall)
  {
    var a, s := r.actions[n], r.states[n];
    Reachable(setup, r, n);
    assert StepAt(setup, r, n);
    var d := setup.digest(a.token);
    assert Backed(setup, s, d);
    var o := s.origin[d];
    assert o.token == a.token;
    var judged := ContextFrom(o.i, o.token, o.judged);
    VerdictOf(o.i, o.token, o.judged);
    if judged.Ok? { LifeIsCapped(setup.ttl, o.i, judged.value, o.wall); }
  }

  // Every answer that is not a hit is the verdict of the response just received, or an outage reported as such;
  // neither an outage nor any other response touches the cache.
  lemma MissesAreIntrospections(setup: Setup, r: Run, n: nat)
    requires ValidRun(setup, r) && n < |r.actions| && r.actions[n].Respond?
    ensures var a := r.actions[n];
            && a.task in r.states[n].tasks && r.states[n].tasks[a.task].Introspecting?
            && var token := r.states[n].tasks[a.task].token;
               && r.states[n + 1].cache == r.states[n].cache
               && (a.outcome.Err? ==> a.answer == Err(a.outcome.error) && !a.answer.error.InvalidToken?)
               && (a.outcome.Ok? ==> (token, a.outcome.value) in r.states[n + 1].seen)
               && (a.answer.Ok? <==> a.outcome.Ok? && a.outcome.value.active && Lasts(a.outcome.value.exp, a.wall))
               && (a.answer.Ok? ==> Accepts(a.outcome.value, token, a.wall, a.answer.value))
  {
    assert StepAt(setup, r, n);
  }

  /* ---------- How long a result is served ---------- */

  // The lifetime of a result in nanoseconds: for an acceptance the configured time, but never into the last five
  // seconds before `exp`; for a rejection five seconds.
  ghost function Lifetime(ttl: nat, i: Introspection, accepted: bool, wall: int): int {
    if !accepted then 5_000_000_000
    else if i.exp.None? then ttl
    else Min(ttl, (i.exp.value - wall - 5) * 1_000_000_000)
  }

  // A result put in a cache with room is served exactly until its lifetime is over, and for an acceptance only while
  // the token lasts by the wall clock; a result without lifetime is not put.
  lemma ServedExactlyForLifetime(cache: Cache, ttl: nat, horizon: int, d: Digest, i: Introspection, token: Token,
                                 judged: int, wall: int, mono: int, later: int, laterWall: int)
    requires ttl > 0 && mono + Max(ttl, NEGATIVE_CACHE_TTL) <= horizon
    requires 0 <= wall <= I64_MAX && (i.exp.Some? ==> 0 <= i.exp.value <= I64_MAX)
    requires |Unexpired(cache, mono)| < 1024 || d in Unexpired(cache, mono)
    ensures var accepted := i.active && Lasts(i.exp, judged);
            var life := Lifetime(ttl, i, accepted, wall);
            var cache' := Stored(cache, ttl, horizon, d, i, ContextFrom(i, token, judged), wall, mono);
            if life <= 0 then cache' == cache
            else
              var hit := Fetched(cache', d, later, laterWall).1;
              && (hit.Some? <==> later < mono + life && (accepted ==> Lasts(i.exp, laterWall)))
              && (hit.Some? ==> if accepted then hit.value.Ok? && Accepts(i, token, judged, hit.value.value)
                                else hit.value == Err(InvalidToken("token is not active")))
  {
    VerdictOf(i, token, judged);
  }

  // An entry is lost only to a purge of its token, to a lookup of its token that finds it over, or to a store, of any
  // token, once it is over.
  ghost predicate Loses(setup: Setup, s: State, a: Action, d: Digest)
    requires d in s.cache
  {
    match a
    case Lookup(_, token, mono, wall, _) =>
      && setup.digest(token) == d
      && (s.cache[d].expiresAt <= mono
          || (s.cache[d].value.Valid? && !Lasts(s.cache[d].value.context.expiresAt, wall)))
    case Put(task, _, mono) =>
      s.cache[d].expiresAt <= mono || (task in s.tasks && setup.digest(s.tasks[task].token) == d)
    case Purge(token) => setup.digest(token) == d
    case _ => false
  }

  lemma OthersAreKept(setup: Setup, s: State, a: Action, s': State, d: Digest)
    requires |s.cache| <= 1024 && Step(setup, s, a, s') && d in s.cache && !Loses(setup, s, a, d)
    ensures d in s'.cache && s'.cache[d] == s.cache[d]
  {
    if a.Put? {
      var t := s.tasks[a.task];
      StoringIsLocal(s.cache, setup.ttl, setup.horizon, setup.digest(t.token), t.i, t.answer, a.wall, a.mono, d);
    }
  }

  /* ---------- Purging ---------- */

  // Some verification stores a result for `token` at a step in `[i, j)`.
  ghost predicate StoredBetween(setup: Setup, r: Run, token: Token, i: nat, j: nat)
    requires j <= |r.actions| && |r.states| == |r.actions| + 1
  {
    exists m :: i <= m < j && PutsFor(r, m, token)
  }

  ghost predicate PutsFor(r: Run, m: nat, token: Token)
    requires m < |r.actions| && |r.states| == |r.actions| + 1
  {
    var a := r.actions[m];
    a.Put? && a.task in r.states[m].tasks && r.states[m].tasks[a.task].token == token
  }

  lemma {:induction false} AbsentUntilStored(setup: Setup, r: Run, token: Token, i: nat, j: nat)
    requires Steps(setup, r) && Injective(setup.digest) && i < j <= |r.actions|
    requires r.actions[i] == Purge(token) && !StoredBetween(setup, r, token, i + 1, j)
    ensures setup.digest(token) !in r.states[j].cache
    decreases j
  {
    assert StepAt(setup, r, j - 1);
    if j > i + 1 {
      AbsentUntilStored(setup, r, token, i, j - 1);
      assert !PutsFor(r, j - 1, token);
    }
  }

  // After a purge no lookup of that token hits until a verification stores a result for it again.
  lemma NoHitAfterPurge(setup: Setup, r: Run, token: Token, i: nat, j: nat)
    requires Steps(setup, r) && Injective(setup.digest) && i < j < |r.actions|
    requires r.actions[i] == Purge(token) && r.actions[j].Lookup? && r.actions[j].token == token
    requires r.actions[j].hit.Some?
    ensures StoredBetween(setup, r, token, i + 1, j)
  {
    assert StepAt(setup, r, j);
    if !StoredBetween(setup, r, token, i + 1, j) {
      AbsentUntilStored(setup, r, token, i, j);
    }
  }

  // A verification of `token` has its response but has not stored it yet.
  ghost predicate Unstored(s: State, token: Token) {
    exists task :: task in s.tasks && s.tasks[task].Resolved? && s.tasks[task].token == token
  }

  ghost predicate RespondsFor(r: Run, m: nat, token: Token)
    requires m < |r.actions| && |r.states| == |r.actions| + 1
  {
    var a := r.actions[m];
    a.Respond? && a.task in r.states[m].tasks && r.states[m].tasks[a.task].token == token
  }

  lemma {:induction false} QuietUntilResponse(setup: Setup, r: Run, token: Token, i: nat, j: nat)
    requires Steps(setup, r) && Injective(setup.digest) && i < j <= |r.actions|
    requires r.actions[i] == Purge(token) && !Unstored(r.states[i], token)
    requires forall m :: i < m < j ==> !RespondsFor(r, m, token)
    ensures setup.digest(token) !in r.states[j].cache && !Unstored(r.states[j], token)
    decreases j
  {
    assert StepAt(setup, r, j - 1);
    if j > i + 1 {
      QuietUntilResponse(setup, r, token, i, j - 1);
      assert !RespondsFor(r, j - 1, token);
    }
    forall task | task in r.states[j].tasks && r.states[j].tasks[task].Resolved?
      ensures r.states[j].tasks[task].token != token
    {
      if task in r.states[j - 1].tasks && r.states[j - 1].tasks[task].Resolved? {
        assert r.states[j - 1].tasks[task].token == r.states[j].tasks[task].token;
      }
    }
  }

  // With no response held across the purge every later hit rests on a response received after it. Upstream may still
  // have formed that response before: only `PurgeIsFinal` rules that out.
  lemma HitNeedsNewResponse(setup: Setup, r: Run, token: Token, i: nat, j: nat)
    requires Steps(setup, r) && Injective(setup.digest) && i < j < |r.actions|
    requires r.actions[i] == Purge(token) && !Unstored(r.states[i], token)
    requires r.actions[j].Lookup? && r.actions[j].token == token && r.actions[j].hit.Some?
    ensures exists m :: i < m < j && RespondsFor(r, m, token)
  {
    assert StepAt(setup, r, j);
    if forall m :: i < m < j ==> !RespondsFor(r, m, token) {
      QuietUntilResponse(setup, r, token, i, j);
    }
  }

  // Some verification of `token` has looked it up in vain and has not finished.
  ghost predicate InFlight(s: State, token: Token) {
    exists task :: task in s.tasks && s.tasks[task].token == token
  }

  // A verification of `token` begins: its lookup misses.
  ghost predicate Begins(r: Run, m: nat, token: Token)
    requires m < |r.actions|
  {
    r.actions[m].Lookup? && r.actions[m].token == token && r.actions[m].hit.None?
  }

  lemma {:induction false} QuietUntilBegun(setup: Setup, r: Run, token: Token, i: nat, j: nat)
    requires Steps(setup, r) && Injective(setup.digest) && i < j <= |r.actions|
    requires r.actions[i] == Purge(token) && !InFlight(r.states[i], token)
    requires forall m :: i < m < j ==> !Begins(r, m, token)
    ensures setup.digest(token) !in r.states[j].cache && !InFlight(r.states[j], token)
    decreases j
  {
    assert StepAt(setup, r, j - 1);
    if j > i + 1 {
      QuietUntilBegun(setup, r, token, i, j - 1);
      assert !Begins(r, j - 1, token);
    }
    forall task | task in r.states[j].tasks ensures r.states[j].tasks[task].token != token {
      if task in r.states[j - 1].tasks {
        assert r.states[j - 1].tasks[task].token == r.states[j].tasks[task].token != token;
      }
    }
  }

  // A purge is final when no verification of the token is in flight across it: every later hit then follows a
  // verification begun after the purge.
  lemma PurgeIsFinal(setup: Setup, r: Run, token: Token, i: nat, j: nat)
    requires Steps(setup, r) && Injective(setup.digest) && i < j < |r.actions|
    requires r.actions[i] == Purge(token) && !InFlight(r.states[i], token)
    requires r.actions[j].Lookup? && r.actions[j].token == token && r.actions[j].hit.Some?
    ensures exists m :: i < m < j && Begins(r, m, token)
  {
    assert StepAt(setup, r, j);
    if forall m :: i < m < j ==> !Begins(r, m, token) {
      QuietUntilBegun(setup, r, token, i, j);
    }
  }

  // A purge of `token`, then a hit for it with no verification of it begun in between.
  ghost predicate Undoes(setup: Setup, s: State, token: Token, r: Run) {
    && Steps(setup, r) && r.states[0] == s && |r.actions| >= 2
    && r.actions[0] == Purge(token)
    && var last := |r.actions| - 1;
       && r.actions[last].Lookup? && r.actions[last].token == token && r.actions[last].hit.Some?
       && forall m :: 0 < m < last ==> !Begins(r, m, token)
  }

  // The clocks have room: at `mono` every entry has expired and a new one still fits before `horizon`, and responses
  // held were judged at times that a 64-bit wall clock can show.
  ghost predicate ClocksHaveRoom(setup: Setup, s: State, mono: int) {
    && mono + Max(setup.ttl, NEGATIVE_CACHE_TTL) <= setup.horizon
    && (forall d :: d in s.cache ==> s.cache[d].expiresAt <= mono)
    && (forall task :: task in s.tasks && s.tasks[task].Resolved? ==>
          0 <= s.tasks[task].wall <= I64_MAX - CLOCK_SKEW_SECS)
  }

  lemma {:induction false} AboveAll(ids: set<nat>) returns (id: nat)
    ensures forall x :: x in ids ==> x < id
  {
    id := 0;
    if ids != {} {
      var x :| x in ids;
      var above := AboveAll(ids - {x});
      assert forall y :: y in ids ==> y == x || y in ids - {x};
      id := if above > x then above else x + 1;
    }
  }

  // A response held may always be cached for a while.
  lemma HeldIsStorable(setup: Setup, s: State, task: nat)
    requires setup.ttl > 0 && task in s.tasks && s.tasks[task].Resolved? && Genuine(s, task)
    requires 0 <= s.tasks[task].wall <= I64_MAX - CLOCK_SKEW_SECS
    ensures var t := s.tasks[task];
            0 < EffectiveTtl(setup.ttl, t.i, t.answer, t.wall) <= Max(setup.ttl, NEGATIVE_CACHE_TTL)
  {}

  lemma StoreThenHit(setup: Setup, s: State, task: nat, other: nat, mono: int)
    returns (stored: State, hit: Answer)
    requires setup.ttl > 0 && ClocksHaveRoom(setup, s, mono) && other !in s.tasks
    requires task in s.tasks && s.tasks[task].Resolved? && Genuine(s, task)
    ensures var t := s.tasks[task];
            && Step(setup, s, Put(task, t.wall, mono), stored)
            && Step(setup, stored, Lookup(other, t.token, mono, t.wall, Some(hit)), stored)
            && (hit.Ok? <==> t.answer.Ok?)
  {
    var t := s.tasks[task];
    var d := setup.digest(t.token);
    HeldIsStorable(setup, s, task);
    assert Unexpired(s.cache, mono) == map[];
    hit := if t.answer.Ok? then t.answer else Err(InvalidToken("token is not active"));
    stored := s.(cache := Stored(s.cache, setup.ttl, setup.horizon, d, t.i, t.answer, t.wall, mono),
                 tasks := s.tasks - {task},
                 origin := s.origin[d := Origin(t.token, t.i, t.wall, t.wall, mono)]);
  }

  // A response held across the purge is stored and hit after it.
  lemma HeldUndoesPurge(setup: Setup, s: State, task: nat, mono: int) returns (r: Run)
    requires setup.ttl > 0 && ClocksHaveRoom(setup, s, mono)
    requires task in s.tasks && s.tasks[task].Resolved? && Genuine(s, task)
    ensures Undoes(setup, s, s.tasks[task].token, r)
  {
    var t := s.tasks[task];
    var purged := s.(cache := s.cache - {setup.digest(t.token)});
    var other := AboveAll(s.tasks.Keys);
    var stored, hit := StoreThenHit(setup, purged, task, other, mono);
    r := Run([Purge(t.token), Put(task, t.wall, mono), Lookup(other, t.token, mono, t.wall, Some(hit))],
             [s, purged, stored, stored]);
    assert StepAt(setup, r, 0) && StepAt(setup, r, 1) && StepAt(setup, r, 2);
  }

  lemma RequestIsAnswered(setup: Setup, s: State, task: nat, mono: int) returns (answered: State, i: Introspection)
    requires setup.ttl > 0 && ClocksHaveRoom(setup, s, mono)
    requires task in s.tasks && s.tasks[task].Introspecting?
    ensures Step(setup, s, Respond(task, Ok(i), 0, ContextFrom(i, s.tasks[task].token, 0)), answered)
    ensures ClocksHaveRoom(setup, answered, mono)
    ensures task in answered.tasks && answered.tasks[task].Resolved? && Genuine(answered, task)
    ensures answered.tasks[task].token == s.tasks[task].token && answered.tasks[task].wall == 0
    ensures answered.tasks[task].answer.Ok?
  {
    var token := s.tasks[task].token;
    i := Introspection(true, {}, None, None, None);
    answered := s.(seen := s.seen + {(token, i)},
                   tasks := s.tasks[task := Resolved(token, i, ContextFrom(i, token, 0), 0)]);
  }

  // So is one still on its way, which upstream may have formed before the token was revoked.
  lemma RequestUndoesPurge(setup: Setup, s: State, task: nat, mono: int) returns (r: Run)
    requires setup.ttl > 0 && ClocksHaveRoom(setup, s, mono)
    requires task in s.tasks && s.tasks[task].Introspecting?
    ensures Undoes(setup, s, s.tasks[task].token, r) && r.actions[|r.actions| - 1].hit.value.Ok?
  {
    var token := s.tasks[task].token;
    var purged := s.(cache := s.cache - {setup.digest(token)});
    var answered, i := RequestIsAnswered(setup, purged, task, mono);
    var other := AboveAll(answered.tasks.Keys);
    var stored, hit := StoreThenHit(setup, answered, task, other, mono);
    var a0, a1, a2, a3 := Purge(token), Respond(task, Ok(i), 0, ContextFrom(i, token, 0)), Put(task, 0, mono),
                          Lookup(other, token, mono, 0, Some(hit));
    FourSteps(setup, s, a0, purged, a1, answered, a2, stored, a3);
    r := Run([a0, a1, a2, a3], [s, purged, answered, stored, stored]);
  }

  lemma FourSteps(setup: Setup, s0: State, a0: Action, s1: State, a1: Action, s2: State, a2: Action,
                  s3: State, a3: Action)
    requires Step(setup, s0, a0, s1) && Step(setup, s1, a1, s2) && Step(setup, s2, a2, s3) && Step(setup, s3, a3, s3)
    ensures Steps(setup, Run([a0, a1, a2, a3], [s0, s1, s2, s3, s3]))
  {}

  // With caching on, a purge can be undone without a new verification if, and only if, one of the token is in flight.
  lemma PurgeIsUndoneIff(setup: Setup, s: State, token: Token, mono: int)
    requires setup.ttl > 0 && Injective(setup.digest) && Inv(setup, s) && ClocksHaveRoom(setup, s, mono)
    ensures InFlight(s, token) <==> exists r :: Undoes(setup, s, token, r)
  {
    if InFlight(s, token) {
      var task :| task in s.tasks && s.tasks[task].token == token;
      assert Genuine(s, task);
      var r: Run;
      if s.tasks[task].Resolved? {
        r := HeldUndoesPurge(setup, s, task, mono);
      } else {
        r := RequestUndoesPurge(setup, s, task, mono);
      }
      assert Undoes(setup, s, token, r);
    } else {
      forall r ensures !Undoes(setup, s, token, r) {
        if Undoes(setup, s, token, r) { PurgeIsFinal(setup, r, token, 0, |r.actions| - 1); }
      }
    }
  }
}
