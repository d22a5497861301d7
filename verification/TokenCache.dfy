/** Bearer-token verification with a cache of introspection results (RFC 7662 section 2.2).

    Two clocks are read: a monotonic one in nanoseconds for cache expiry, and the wall clock in whole seconds
    for a token's own `exp`. The digest of a token is an arbitrary function; theorems that need it say that it
    is injective on the tokens involved. */
module TokenCache {
  import opened Prelude

  type Token = string
  type Digest = nat

  const SECOND: nat := 1_000_000_000
  const CLOCK_SKEW_SECS: int := 5
  const NEGATIVE_CACHE_TTL: nat := 5 * SECOND
  const CACHE_CAPACITY: nat := 1024
  const I64_MAX: int := 0x7FFF_FFFF_FFFF_FFFF
  const I64_MIN: int := -0x8000_0000_0000_0000

  function Clamp64(x: int): int { Max(I64_MIN, Min(x, I64_MAX)) }

  datatype Introspection = Introspection(active: bool, scopes: set<string>, sub: Option<string>,
                                         username: Option<string>, exp: Option<int>)

  datatype AuthContext = AuthContext(token: Token, subject: Option<string>, scopes: set<string>, expiresAt: Option<int>)

  datatype AuthError = InvalidToken(reason: string) | Unavailable | Misconfigured

  type Answer = Result<AuthContext, AuthError>

  datatype CacheValue = Valid(context: AuthContext) | Invalid

  datatype CachedEntry = CachedEntry(value: CacheValue, expiresAt: int)

  type Cache = map<Digest, CachedEntry>

  // `exp` within the skew of the wall clock counts as expired.
  predicate IsExpired(exp: Option<int>, wall: int) {
    exp.Some? && exp.value <= Clamp64(wall + CLOCK_SKEW_SECS)
  }

  function ContextFrom(i: Introspection, token: Token, wall: int): Answer {
    if !i.active then Err(InvalidToken("token is not active"))
    else if IsExpired(i.exp, wall) then Err(InvalidToken("token is expired"))
    else Ok(AuthContext(token, if i.sub.Some? then i.sub else i.username, i.scopes, i.exp))
  }

  // How long a result may be cached; zero means not at all.
  function EffectiveTtl(ttl: nat, i: Introspection, answer: Answer, wall: int): nat {
    match answer
    case Ok(_) =>
      if i.exp.None? then ttl
      else
        var remaining := Clamp64(Clamp64(i.exp.value - wall) - CLOCK_SKEW_SECS);
        if remaining <= 0 then 0 else Min(ttl, remaining * SECOND)
    case Err(InvalidToken(_)) => NEGATIVE_CACHE_TTL
    case Err(_) => 0
  }

  // A lookup: the cache afterwards, and the answer on a hit. `wall` is read only for a live positive entry.
  function Fetched(cache: Cache, d: Digest, mono: int, wall: int): (Cache, Option<Answer>) {
    if d !in cache then (cache, None)
    else if cache[d].expiresAt <= mono then (cache - {d}, None)
    else match cache[d].value
         case Valid(context) =>
           if IsExpired(context.expiresAt, wall) then (cache - {d}, None) else (cache, Some(Ok(context)))
         case Invalid => (cache, Some(Err(InvalidToken("token is not active"))))
  }

  function Unexpired(cache: Cache, mono: int): Cache {
    map d | d in cache && cache[d].expiresAt > mono :: cache[d]
  }

  // `horizon` is the last instant the monotonic clock can represent.
  function Stored(cache: Cache, ttl: nat, horizon: int, d: Digest, i: Introspection, answer: Answer,
                  wall: int, mono: int): Cache
  {
    var life := EffectiveTtl(ttl, i, answer, wall);
    if life == 0 then cache
    else
      var kept := Unexpired(cache, mono);
      if |kept| >= CACHE_CAPACITY && d !in kept then kept
      else
        var value := if answer.Ok? then Valid(answer.value) else Invalid;
        kept[d := CachedEntry(value, if mono + life > horizon then mono else mono + life)]
  }

  class TokenVerifier {
    const ttl: nat
    const horizon: int
    const digest: Token -> Digest
    var cache: Cache

    constructor (ttl: nat, horizon: int, digest: Token -> Digest)
      ensures cache == map[] && this.ttl == ttl && this.horizon == horizon && this.digest == digest
    {
      this.ttl, this.horizon, this.digest, cache := ttl, horizon, digest, map[];
    }

    method CacheGet(d: Digest, mono: int, wall: int) returns (hit: Option<Answer>)
      modifies this
      ensures (cache, hit) == Fetched(old(cache), d, mono, wall)
    {
      if d !in cache { return None; }
      var entry := cache[d];
      if entry.expiresAt <= mono {
        cache := cache - {d};
        return None;
      }
      match entry.value {
        case Valid(context) =>
          if IsExpired(context.expiresAt, wall) {
            cache := cache - {d};
            return None;
          }
          return Some(Ok(context));
        case Invalid =>
          return Some(Err(InvalidToken("token is not active")));
      }
    }

    method CachePut(d: Digest, i: Introspection, answer: Answer, wall: int, mono: int)
      modifies this
      ensures cache == Stored(old(cache), ttl, horizon, d, i, answer, wall, mono)
    {
      var life: nat;
      match answer {
        case Ok(_) =>
          life := ttl;
          if i.exp.Some? {
            var remaining := Clamp64(Clamp64(i.exp.value - wall) - CLOCK_SKEW_SECS);
            if remaining <= 0 { return; }
            life := Min(life, remaining * SECOND);
          }
        case Err(InvalidToken(_)) => life := NEGATIVE_CACHE_TTL;
        case Err(_) => return;
      }
      if life == 0 { return; }
      cache := map k | k in cache && cache[k].expiresAt > mono :: cache[k];
      if |cache| >= CACHE_CAPACITY && d !in cache { return; }
      var value := if answer.Ok? then Valid(answer.value) else Invalid;
      cache := cache[d := CachedEntry(value, if mono + life > horizon then mono else mono + life)];
    }

    // `verify` run without interference. `upstream` is what introspection would answer; the clock is read once
    // for the lookup, once to judge the response and once to store it.
    method Verify(token: Token, upstream: Result<Introspection, AuthError>, mono: int, wall: int,
                  judged: int, putMono: int, putWall: int) returns (answer: Answer)
      modifies this
      ensures var (looked, hit) :=
                if ttl == 0 then (old(cache), None) else Fetched(old(cache), digest(token), mono, wall);
              if hit.Some? then answer == hit.value && cache == looked
              else if upstream.Err? then answer == Err(upstream.error) && cache == looked
              else && answer == ContextFrom(upstream.value, token, judged)
                   && cache == if ttl == 0 then looked
                               else Stored(looked, ttl, horizon, digest(token), upstream.value, answer, putWall,
                                           putMono)
    {
      if ttl != 0 {
        var cached := CacheGet(digest(token), mono, wall);
        if cached.Some? { return cached.value; }
      }
      if upstream.Err? { return Err(upstream.error); }
      answer := ContextFrom(upstream.value, token, judged);
      if ttl != 0 {
        CachePut(digest(token), upstream.value, answer, putWall, putMono);
      }
    }

    method Purge(token: Token)
      modifies this
      ensures cache == old(cache) - {digest(token)}
    {
      cache := cache - {digest(token)};
    }
  }
}
