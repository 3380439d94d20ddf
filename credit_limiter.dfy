/**
 * The credit limiter of 6.Simple_Rate_Limiter/java/1.imp/RateLimiter.java:
 * per endpoint a budget of `maxCredits` credits over a sliding window of
 * `windowSeconds`; every request spends `creditCost` credits, each recorded
 * in a Redis sorted set under the user's key with the request's second as
 * its score.  A second key remembers when the user's credits were last wiped;
 * they are wiped again once a day has passed.
 *
 * Redis is modelled as a value: the sorted sets by key (member to score) and
 * the string keys, whose values, written by `String.valueOf` and read back by
 * `Long.parseLong`, are held as the numbers themselves.  Time is the epoch
 * second, passed in.
 */
module CreditRateLimiter {
  import opened Wrappers
  import opened LimiterBase

  const DefaultWindowSeconds: int := 24 * 60 * 60
  const OneDayInSeconds: int := 24 * 60 * 60

  datatype EndpointConfig = EndpointConfig(maxCredits: int, windowSeconds: int, creditCost: int)

  /** A sorted-set member `second + "-" + index`.  With a non-negative index
    * the text determines the pair (the index follows the last '-'), so
    * equal pairs are exactly equal members. */
  datatype Member = Member(second: int, index: int)

  /** The Redis data the limiter touches. */
  datatype Redis = Redis(zsets: map<string, map<Member, int>>, strings: map<string, int>)

  /** The sorted set under `key`; Redis treats a missing key as empty. */
  function ZSetOf(r: Redis, key: string): map<Member, int>
  {
    if key in r.zsets then r.zsets[key] else map[]
  }

  /** Storing a sorted set: Redis deletes a key whose set becomes empty. */
  function StoreZSet(r: Redis, key: string, z: map<Member, int>): (r': Redis)
    ensures ZSetOf(r', key) == z && r'.strings == r.strings
    ensures key in r'.zsets ==> r'.zsets[key] != map[]
  {
    if z == map[] then r.(zsets := r.zsets - {key}) else r.(zsets := r.zsets[key := z])
  }

  /** Storing a set under one key leaves the sets under the other keys. */
  lemma StoreOthers(r: Redis, key: string, z: map<Member, int>, other: string)
    requires other != key
    ensures ZSetOf(StoreZSet(r, key, z), other) == ZSetOf(r, other)
  {
  }

  /** Storing back the set a key holds changes nothing, as Redis keeps no
    * empty set under a key. */
  lemma StoreUnchanged(r: Redis, key: string)
    requires key in r.zsets ==> r.zsets[key] != map[]
    ensures StoreZSet(r, key, ZSetOf(r, key)) == r
  {
    if key in r.zsets {
      assert r.zsets[key := r.zsets[key]] == r.zsets;
    } else {
      assert r.zsets - {key} == r.zsets;
    }
  }

  /** Storing twice under one key keeps only the second store. */
  lemma StoreTwice(r: Redis, key: string, a: map<Member, int>, b: map<Member, int>)
    ensures StoreZSet(StoreZSet(r, key, a), key, b) == StoreZSet(r, key, b)
  {
    var once := StoreZSet(r, key, a).zsets;
    if b == map[] {
      assert once - {key} == r.zsets - {key};
    } else {
      assert once[key := b] == r.zsets[key := b];
    }
  }

  function RedisKey(endpoint: string, userId: string): string
  {
    "api_credits:" + endpoint + ":" + userId
  }

  function ResetKey(endpoint: string, userId: string): string
  {
    "reset_time:" + endpoint + ":" + userId
  }

  /** The keys are built by plain concatenation, so two different
    * endpoint/user pairs share their keys when a ':' moves across the
    * boundary. */
  lemma SharedKeys()
    ensures RedisKey("a:b", "c") == RedisKey("a", "b:c") && ResetKey("a:b", "c") == ResetKey("a", "b:c")
  {
  }

  /** `isNextDay`: a full day or more separates the two instants. */
  predicate IsNextDay(lastResetTime: int, currentTime: int)
  {
    currentTime - lastResetTime >= OneDayInSeconds
  }

  /** `refreshDailyCredits` on Redis's value: with no reset time stored, or
    * one a day or more old, the user's credits are wiped and the reset time
    * becomes now; otherwise nothing changes. */
  function Refresh(r: Redis, resetKey: string, redisKey: string, now: int): (r': Redis)
    ensures (resetKey !in r.strings || IsNextDay(r.strings[resetKey], now)) ==>
      ZSetOf(r', redisKey) == map[] && r'.strings == r.strings[resetKey := now]
    ensures resetKey in r.strings && !IsNextDay(r.strings[resetKey], now) ==> r' == r
  {
    if resetKey !in r.strings || IsNextDay(r.strings[resetKey], now) then
      Redis(r.zsets - {redisKey}, r.strings[resetKey := now])
    else r
  }

  /** A refresh touches no other user's set. */
  lemma RefreshOthers(r: Redis, resetKey: string, redisKey: string, now: int, other: string)
    requires other != redisKey
    ensures ZSetOf(Refresh(r, resetKey, redisKey, now), other) == ZSetOf(r, other)
  {
  }

  /** `zremrangeByScore(key, 0, windowStart)`: the members scored from 0 to
    * `windowStart` inclusive go, the others stay with their scores. */
  function Prune(z: map<Member, int>, windowStart: int): (r: map<Member, int>)
    ensures forall m :: m in r <==> m in z && !(0 <= z[m] <= windowStart)
    ensures forall m :: m in r ==> r[m] == z[m]
  {
    map m | m in z && !(0 <= z[m] <= windowStart) :: z[m]
  }

  /** The `zadd … nx` loop on the set's value: the members `now-0` …
    * `now-(n-1)` are added with score `now`, but a member already present
    * keeps its score. */
  function AddCredits(z: map<Member, int>, now: int, n: int): (r: map<Member, int>)
    ensures forall m :: m in r <==> m in z || (m.second == now && 0 <= m.index < n)
    ensures forall m :: m in z ==> r[m] == z[m]
    ensures forall m :: m in r && m !in z ==> r[m] == now
    ensures n <= 0 ==> r == z
    decreases Max(0, n)
  {
    if n <= 0 then z
    else
      var a := AddCredits(z, now, n - 1);
      if Member(now, n - 1) in a then a else a[Member(now, n - 1) := now]
  }

  /** The loop adds at most `n` members. */
  lemma {:induction false} AddCreditsSize(z: map<Member, int>, now: int, n: int)
    ensures |AddCredits(z, now, n)| <= |z| + Max(0, n)
    decreases Max(0, n)
  {
    if n > 0 {
      var m := n - 1;
      AddCreditsSize(z, now, m);
      AddOneCredit(z, now, m, n);
    }
  }

  /** One round of the loop adds at most one member. */
  lemma AddOneCredit(z: map<Member, int>, now: int, m: int, n: int)
    requires 0 <= m && n == m + 1
    ensures |AddCredits(z, now, n)| <= |AddCredits(z, now, m)| + 1
  {
    var a := AddCredits(z, now, m);
    var k := Member(now, m);
    assert AddCredits(z, now, n) == if k in a then a else a[k := now];
    if k !in a {
      assert |a[k := now]| == |a| + 1 by {
        assert a[k := now].Keys == a.Keys + {k};
      }
    }
  }

  /** NX makes the loop idempotent: the same request again in the same
    * second adds nothing. */
  lemma AddCreditsIdempotent(z: map<Member, int>, now: int, n: int)
    ensures AddCredits(AddCredits(z, now, n), now, n) == AddCredits(z, now, n)
  {
    var once := AddCredits(z, now, n);
    var twice := AddCredits(once, now, n);
    assert twice.Keys == once.Keys;
  }

  /** The `X-RateLimit-*` headers. */
  datatype Headers = Headers(limit: int, remaining: int, reset: int)

  /** `setRateLimitHeaders`: the remaining credits are never negative and
    * never above the limit when `used` is not negative. */
  function RateLimitHeaders(maxCredits: int, usedCredits: int, resetTime: int): (h: Headers)
    ensures h.limit == maxCredits && h.reset == resetTime
    ensures 0 <= h.remaining && (h.remaining == 0 || h.remaining == maxCredits - usedCredits)
    ensures 0 <= usedCredits ==> h.remaining <= Max(0, maxCredits)
  {
    Headers(maxCredits, Max(0, maxCredits - usedCredits), resetTime)
  }

  /** What `allow` tells the caller: the answer, the headers it set, and the
    * status it set (429 on refusal; none on acceptance). */
  datatype Outcome = Outcome(allowed: bool, headers: Headers, status: Option<int>)

  /** Why `allow` throws. */
  datatype AllowError = EndpointNotConfigured

  const TooManyRequests: int := 429

  /** `allow` on the state's value: the new Redis data and the outcome, or
    * the exception for an endpoint never configured. */
  function Spend(configs: map<string, EndpointConfig>, r: Redis, endpoint: string, userId: string, now: int)
    : (res: Result<(Redis, Outcome), AllowError>)
    ensures endpoint !in configs <==> res == Failure(EndpointNotConfigured)
  {
    if endpoint !in configs then Failure(EndpointNotConfigured)
    else
      var key := RedisKey(endpoint, userId);
      Success(Decide(configs[endpoint], key, Refresh(r, ResetKey(endpoint, userId), key, now), now))
  }

  /** What `allow` does once the credits are refreshed: prune the window,
    * then refuse, or accept and record the cost. */
  function Decide(c: EndpointConfig, key: string, refreshed: Redis, now: int): (Redis, Outcome)
  {
    var windowStartTime := now - c.windowSeconds;
    var pruned := Prune(ZSetOf(refreshed, key), windowStartTime);
    var r1 := StoreZSet(refreshed, key, pruned);
    var used := |pruned|;
    if used + c.creditCost > c.maxCredits then
      (r1, Outcome(false, RateLimitHeaders(c.maxCredits, used, windowStartTime + c.windowSeconds),
                   Some(TooManyRequests)))
    else
      (StoreZSet(r1, key, AddCredits(pruned, now, c.creditCost)),
       Outcome(true, RateLimitHeaders(c.maxCredits, used + c.creditCost, windowStartTime + c.windowSeconds),
               None))
  }

  /** `Decide` on a refused call. */
  lemma DecideRefused(c: EndpointConfig, key: string, refreshed: Redis, now: int, pruned: map<Member, int>)
    requires pruned == Prune(ZSetOf(refreshed, key), now - c.windowSeconds)
    requires |pruned| + c.creditCost > c.maxCredits
    ensures Decide(c, key, refreshed, now) ==
      (StoreZSet(refreshed, key, pruned), Outcome(false, RateLimitHeaders(c.maxCredits, |pruned|, now), Some(TooManyRequests)))
  {
  }

  /** `Decide` on an accepted call. */
  lemma DecideAccepted(c: EndpointConfig, key: string, refreshed: Redis, now: int, pruned: map<Member, int>)
    requires pruned == Prune(ZSetOf(refreshed, key), now - c.windowSeconds)
    requires |pruned| + c.creditCost <= c.maxCredits
    ensures Decide(c, key, refreshed, now) ==
      (StoreZSet(StoreZSet(refreshed, key, pruned), key, AddCredits(pruned, now, c.creditCost)),
       Outcome(true, RateLimitHeaders(c.maxCredits, |pruned| + c.creditCost, now), None))
  {
    var r1 := StoreZSet(refreshed, key, pruned);
    var added := AddCredits(pruned, now, c.creditCost);
    assert now - c.windowSeconds + c.windowSeconds == now;
    assert Decide(c, key, refreshed, now).0 == StoreZSet(r1, key, added);
  }

  /** `Spend` spelled out over the refreshed data and the pruned set. */
  lemma SpendIs(configs: map<string, EndpointConfig>, r: Redis, endpoint: string, userId: string, now: int,
                refreshed: Redis, pruned: map<Member, int>)
    requires endpoint in configs
    requires refreshed == Refresh(r, ResetKey(endpoint, userId), RedisKey(endpoint, userId), now)
    requires pruned == Prune(ZSetOf(refreshed, RedisKey(endpoint, userId)), now - configs[endpoint].windowSeconds)
    ensures var c := configs[endpoint];
      var r1 := StoreZSet(refreshed, RedisKey(endpoint, userId), pruned);
      Spend(configs, r, endpoint, userId, now) ==
        if |pruned| + c.creditCost > c.maxCredits then
          Success((r1, Outcome(false, RateLimitHeaders(c.maxCredits, |pruned|, now - c.windowSeconds + c.windowSeconds),
                               Some(TooManyRequests))))
        else
          Success((StoreZSet(r1, RedisKey(endpoint, userId), AddCredits(pruned, now, c.creditCost)),
                   Outcome(true, RateLimitHeaders(c.maxCredits, |pruned| + c.creditCost, now - c.windowSeconds + c.windowSeconds),
                           None)))
  {
  }

  /** What a successful `allow` decides: it accepts iff the credits still
    * in the window after the daily refresh, plus the cost, are within the
    * budget; the headers report the credits used (the cost included only on
    * acceptance) and a reset time equal to now; the status is 429 exactly on
    * refusal; and the user's set ends up pruned, and on acceptance holds the
    * new credits. */
  lemma SpendOutcome(configs: map<string, EndpointConfig>, r: Redis, endpoint: string, userId: string, now: int)
    requires endpoint in configs
    ensures var c := configs[endpoint];
      var key := RedisKey(endpoint, userId);
      var pruned := Prune(ZSetOf(Refresh(r, ResetKey(endpoint, userId), key, now), key), now - c.windowSeconds);
      var res := Spend(configs, r, endpoint, userId, now);
      res.Success? &&
      (res.value.1.allowed <==> |pruned| + c.creditCost <= c.maxCredits) &&
      res.value.1.headers == RateLimitHeaders(c.maxCredits, |pruned| + (if res.value.1.allowed then c.creditCost else 0), now) &&
      res.value.1.status == (if res.value.1.allowed then None else Some(TooManyRequests)) &&
      ZSetOf(res.value.0, key) == (if res.value.1.allowed then AddCredits(pruned, now, c.creditCost) else pruned)
  {
  }

  /** The budget holds: with a non-negative cost, after any successful call
    * the user's set holds at most `maxCredits` members unless it held more
    * before and the call was refused; an accepted call always leaves at most
    * `maxCredits`. */
  lemma CreditBound(configs: map<string, EndpointConfig>, r: Redis, endpoint: string, userId: string, now: int)
    requires endpoint in configs && 0 <= configs[endpoint].creditCost
    ensures var res := Spend(configs, r, endpoint, userId, now).value;
      var key := RedisKey(endpoint, userId);
      (res.1.allowed ==> |ZSetOf(res.0, key)| <= configs[endpoint].maxCredits) &&
      (|ZSetOf(r, key)| <= configs[endpoint].maxCredits ==> |ZSetOf(res.0, key)| <= configs[endpoint].maxCredits)
  {
    var c := configs[endpoint];
    var key := RedisKey(endpoint, userId);
    var refreshed := Refresh(r, ResetKey(endpoint, userId), key, now);
    var z := ZSetOf(refreshed, key);
    var pruned := Prune(z, now - c.windowSeconds);
    SpendIs(configs, r, endpoint, userId, now, refreshed, pruned);
    assert pruned.Keys <= z.Keys;
    SubsetCardinality(pruned.Keys, z.Keys);
    assert |z| <= |ZSetOf(r, key)|;
    var r1 := StoreZSet(refreshed, key, pruned);
    var res := Spend(configs, r, endpoint, userId, now).value;
    if |pruned| + c.creditCost > c.maxCredits {
      assert ZSetOf(res.0, key) == pruned;
    } else {
      AddCreditsSize(pruned, now, c.creditCost);
      assert ZSetOf(res.0, key) == AddCredits(pruned, now, c.creditCost);
    }
  }

  /** A call touches only the calling user's set of credits. */
  lemma CreditOthers(configs: map<string, EndpointConfig>, r: Redis, endpoint: string, userId: string, now: int,
                     other: string)
    requires endpoint in configs && other != RedisKey(endpoint, userId)
    ensures ZSetOf(Spend(configs, r, endpoint, userId, now).value.0, other) == ZSetOf(r, other)
  {
    var c := configs[endpoint];
    var key := RedisKey(endpoint, userId);
    var refreshed := Refresh(r, ResetKey(endpoint, userId), key, now);
    var pruned := Prune(ZSetOf(refreshed, key), now - c.windowSeconds);
    SpendIs(configs, r, endpoint, userId, now, refreshed, pruned);
    var r1 := StoreZSet(refreshed, key, pruned);
    RefreshOthers(r, ResetKey(endpoint, userId), key, now, other);
    StoreOthers(refreshed, key, pruned, other);
    StoreOthers(r1, key, AddCredits(pruned, now, c.creditCost), other);
  }

  lemma SubsetCardinality<T>(a: set<T>, b: set<T>)
    requires a <= b
    ensures |a| <= |b|
  {
    assert b == a + (b - a);
  }

  /** The limiter, with the Redis data its connection reaches. */
  class RateLimiter {
    var endpointConfigs: map<string, EndpointConfig>
    var redis: Redis

    /** A limiter with no endpoint configured, over the given Redis data. */
    constructor (redis: Redis)
      ensures endpointConfigs == map[] && this.redis == redis
    {
      endpointConfigs := map[];
      this.redis := redis;
    }

    /** The three-argument `configure`: a one-day window. */
    method Configure(endpoint: string, maxCredits: int, creditCost: int)
      modifies this
      ensures endpointConfigs == old(endpointConfigs)[endpoint := EndpointConfig(maxCredits, DefaultWindowSeconds, creditCost)]
      ensures redis == old(redis)
    {
      ConfigureWindow(endpoint, maxCredits, DefaultWindowSeconds, creditCost);
    }

    /** `configure`: replaces any earlier configuration of the endpoint. */
    method ConfigureWindow(endpoint: string, maxCredits: int, windowSeconds: int, creditCost: int)
      modifies this
      ensures endpointConfigs == old(endpointConfigs)[endpoint := EndpointConfig(maxCredits, windowSeconds, creditCost)]
      ensures redis == old(redis)
    {
      endpointConfigs := endpointConfigs[endpoint := EndpointConfig(maxCredits, windowSeconds, creditCost)];
    }

    /** `refreshDailyCredits`. */
    method RefreshDailyCredits(resetKey: string, redisKey: string, now: int)
      modifies this
      ensures endpointConfigs == old(endpointConfigs)
      ensures redis == Refresh(old(redis), resetKey, redisKey, now)
    {
      if resetKey !in redis.strings || IsNextDay(redis.strings[resetKey], now) {
        redis := Redis(redis.zsets - {redisKey}, redis.strings[resetKey := now]);
      }
    }

    /** The `zadd … nx` loop of `allow`: members `now-0` … `now-(cost-1)`
      * with score `now`, each added only if absent.  Redis keeps no empty
      * set under a key. */
    method RecordCredits(redisKey: string, now: int, cost: int)
      requires redisKey in redis.zsets ==> redis.zsets[redisKey] != map[]
      modifies this
      ensures endpointConfigs == old(endpointConfigs)
      ensures redis == StoreZSet(old(redis), redisKey, AddCredits(ZSetOf(old(redis), redisKey), now, cost))
    {
      var z := ZSetOf(redis, redisKey);
      ghost var start := z;
      var i := 0;
      while i < cost
        invariant 0 <= i && (0 <= cost ==> i <= cost)
        invariant cost < 0 ==> i == 0
        invariant endpointConfigs == old(endpointConfigs)
        invariant z == AddCredits(start, now, i)
        invariant i == 0 ==> redis == old(redis)
        invariant i > 0 ==> redis == StoreZSet(old(redis), redisKey, z)
        decreases cost - i
      {
        if Member(now, i) !in z {
          z := z[Member(now, i) := now];
          StoreTwice(old(redis), redisKey, ZSetOf(redis, redisKey), z);
          redis := StoreZSet(redis, redisKey, z);
        } else if i == 0 {
          StoreUnchanged(redis, redisKey);
        }
        i := i + 1;
      }
      if i == 0 {
        StoreUnchanged(redis, redisKey);
      }
    }

    /** `allow` for `userId` on `endpoint` at epoch second `now`. */
    method Allow(endpoint: string, userId: string, now: int) returns (res: Result<Outcome, AllowError>)
      modifies this
      ensures endpointConfigs == old(endpointConfigs)
      ensures endpoint !in endpointConfigs ==> res == Failure(EndpointNotConfigured) && redis == old(redis)
      ensures endpoint in endpointConfigs ==>
        res.Success? && Spend(endpointConfigs, old(redis), endpoint, userId, now) == Success((redis, res.value))
    {
      if endpoint !in endpointConfigs {
        return Failure(EndpointNotConfigured);
      }
      var config := endpointConfigs[endpoint];
      var redisKey := RedisKey(endpoint, userId);
      var resetKey := ResetKey(endpoint, userId);
      RefreshDailyCredits(resetKey, redisKey, now);
      var outcome := SpendCredits(config, redisKey, now);
      res := Success(outcome);
    }

    /** The part of `allow` after the daily refresh: prune the window, count
      * the credits left in it, and refuse, or record the cost and accept. */
    method SpendCredits(config: EndpointConfig, redisKey: string, now: int) returns (outcome: Outcome)
      modifies this
      ensures endpointConfigs == old(endpointConfigs)
      ensures (redis, outcome) == Decide(config, redisKey, old(redis), now)
    {
      ghost var r0 := redis;
      var windowStartTime := now - config.windowSeconds;
      var pruned := Prune(ZSetOf(redis, redisKey), windowStartTime);
      redis := StoreZSet(redis, redisKey, pruned);
      ghost var r1 := redis;
      var usedCredits := |ZSetOf(redis, redisKey)|;
      assert usedCredits == |pruned|;
      var resetTime := windowStartTime + config.windowSeconds;
      assert resetTime == now;
      if usedCredits + config.creditCost > config.maxCredits {
        DecideRefused(config, redisKey, r0, now, pruned);
        outcome := Outcome(false, RateLimitHeaders(config.maxCredits, usedCredits, resetTime), Some(TooManyRequests));
        return;
      }
      DecideAccepted(config, redisKey, r0, now, pruned);
      RecordCredits(redisKey, now, config.creditCost);
      assert redis == StoreZSet(r1, redisKey, AddCredits(pruned, now, config.creditCost));
      outcome := Outcome(true, RateLimitHeaders(config.maxCredits, usedCredits + config.creditCost, resetTime), None);
    }
  }
}
