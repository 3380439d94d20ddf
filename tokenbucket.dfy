/**
 * The token bucket of 6.Simple_Rate_Limiter/go/tokenbucket.go: a bucket per
 * client IP, refilled by whole elapsed seconds, one token per request.
 *
 * `TokenBucket.AllowRequest` is proved against the value-level `Allow`, and
 * what a series of requests does is stated about `Run`.
 */
module TokenBucketLimiter {
  import opened LimiterBase

  /** One bucket's fields as a value. */
  datatype Bucket = Bucket(capacity: int, tokens: int, lastRefillTime: int, refillRate: int)

  /** The token count lies between zero and the capacity. */
  ghost predicate InRange(b: Bucket)
  {
    0 <= b.tokens <= b.capacity
  }

  /** Tokens earned since the last refill: whole elapsed seconds times the rate. */
  function Earned(b: Bucket, now: int): int
  {
    WholeSeconds(now - b.lastRefillTime) * b.refillRate
  }

  /** The refill at the start of `AllowRequest`: earned tokens are added up
    * to the capacity, and the refill time moves only when some were earned,
    * so a fraction of a second is not lost. */
  function Refill(b: Bucket, now: int): (r: Bucket)
    ensures r.capacity == b.capacity && r.refillRate == b.refillRate
    ensures InRange(b) ==> b.tokens <= r.tokens <= b.capacity
    ensures r.lastRefillTime == b.lastRefillTime ||
            (r.lastRefillTime == now && (now - b.lastRefillTime >= Second || now - b.lastRefillTime <= -Second))
    ensures -Second < now - b.lastRefillTime < Second ==> r == b
  {
    var earned := Earned(b, now);
    if earned > 0 then b.(tokens := Min(b.capacity, b.tokens + earned), lastRefillTime := now)
    else b
  }

  /** With `k` whole seconds elapsed (and a non-negative rate), a refill
    * that earns anything adds `k` times the rate, capped at the capacity. */
  lemma RefillAmount(b: Bucket, now: int, k: int)
    requires 0 <= b.refillRate && 0 <= k
    requires k * Second <= now - b.lastRefillTime < (k + 1) * Second
    requires k * b.refillRate > 0
    ensures Refill(b, now).tokens == Min(b.capacity, b.tokens + k * b.refillRate)
    ensures Refill(b, now).lastRefillTime == now
  {
  }

  /** `AllowRequest` on a bucket's value: refill, then take a token if one
    * is left. */
  function Allow(b: Bucket, now: int): (r: (Bucket, bool))
    ensures r.1 <==> Refill(b, now).tokens > 0
    ensures r.1 ==> r.0 == Refill(b, now).(tokens := Refill(b, now).tokens - 1)
    ensures !r.1 ==> r.0 == Refill(b, now)
    ensures InRange(b) ==> InRange(r.0)
  {
    var f := Refill(b, now);
    if f.tokens > 0 then (f.(tokens := f.tokens - 1), true) else (f, false)
  }

  /** Requests at the given instants, one after the other: the final bucket
    * and how many requests were allowed. */
  function Run(b: Bucket, times: seq<int>): (Bucket, nat)
    decreases |times|
  {
    if times == [] then (b, 0)
    else
      var (next, allowed) := Allow(b, times[0]);
      var (last, count) := Run(next, times[1..]);
      (last, count + if allowed then 1 else 0)
  }

  /** The token count stays between zero and the capacity across any series
    * of requests. */
  lemma {:induction false} RunInRange(b: Bucket, times: seq<int>)
    requires InRange(b)
    ensures InRange(Run(b, times).0)
    decreases |times|
  {
    if times != [] {
      RunInRange(Allow(b, times[0]).0, times[1..]);
    }
  }

  /** Within less than a second of the last refill nothing is refilled, so at
    * most the tokens left are granted, however many requests arrive. */
  lemma {:induction false} BurstBound(b: Bucket, times: seq<int>)
    requires InRange(b)
    requires forall k :: 0 <= k < |times| ==> -Second < times[k] - b.lastRefillTime < Second
    ensures Run(b, times).1 <= b.tokens
    ensures Run(b, times).0.lastRefillTime == b.lastRefillTime
    decreases |times|
  {
    if times != [] {
      var next := Allow(b, times[0]).0;
      assert forall k :: 0 <= k < |times[1..]| ==> times[1..][k] == times[k + 1];
      BurstBound(next, times[1..]);
    }
  }

  /** Two requests less than a second apart each, but a second or more apart
    * together, still earn a token: the first does not move the refill time. */
  lemma PartialSecondsAccumulate(b: Bucket, t1: int, t2: int)
    requires InRange(b) && b.tokens < b.capacity && 1 <= b.refillRate
    requires b.lastRefillTime <= t1 < b.lastRefillTime + Second <= t2 < b.lastRefillTime + 2 * Second
    ensures var first := Allow(b, t1).0;
      Refill(first, t2).lastRefillTime == t2 && Refill(first, t2).tokens > first.tokens
  {
    var first := Allow(b, t1).0;
    RefillAmount(first, t2, 1);
  }

  /** A bucket with its fields updated in place (the mutex is not modelled). */
  class TokenBucket {
    var capacity: int
    var tokens: int
    var lastRefillTime: int
    var refillRate: int

    constructor (capacity: int, tokens: int, lastRefillTime: int, refillRate: int)
      ensures State() == Bucket(capacity, tokens, lastRefillTime, refillRate)
    {
      this.capacity := capacity;
      this.tokens := tokens;
      this.lastRefillTime := lastRefillTime;
      this.refillRate := refillRate;
    }

    function State(): Bucket
      reads this
    {
      Bucket(capacity, tokens, lastRefillTime, refillRate)
    }

    /** `AllowRequest`, at instant `now`. */
    method AllowRequest(now: int) returns (allowed: bool)
      modifies this
      ensures (State(), allowed) == Allow(old(State()), now)
    {
      var elapsed := WholeSeconds(now - lastRefillTime);
      var refillTokens := elapsed * refillRate;
      if refillTokens > 0 {
        tokens := Min(capacity, tokens + refillTokens);
        lastRefillTime := now;
      }
      if tokens > 0 {
        tokens := tokens - 1;
        return true;
      }
      return false;
    }
  }

  /** A bucket is idle once its last refill is more than a minute old. */
  predicate Idle(lastRefillTime: int, now: int)
  {
    now - lastRefillTime > Minute
  }

  /** The buckets by client IP. */
  class TokenRateLimiter {
    var buckets: map<string, TokenBucket>
    var cleanupInterval: int

    /** `NewTokenBucketRateLimiter`. */
    constructor NewTokenBucketRateLimiter()
      ensures buckets == map[] && cleanupInterval == 10 * Second
    {
      buckets := map[];
      cleanupInterval := 10 * Second;
    }

    /** `GetBucket`: the client's bucket, created full (10 tokens, one per
      * second) on its first request. */
    method GetBucket(ip: string, now: int) returns (bucket: TokenBucket)
      modifies this
      ensures cleanupInterval == old(cleanupInterval)
      ensures ip in old(buckets) ==> bucket == old(buckets)[ip] && buckets == old(buckets)
      ensures ip !in old(buckets) ==>
        fresh(bucket) && bucket.State() == Bucket(10, 10, now, 1) && buckets == old(buckets)[ip := bucket]
    {
      if ip in buckets {
        return buckets[ip];
      }
      bucket := new TokenBucket(10, 10, now, 1);
      buckets := buckets[ip := bucket];
    }

    /** One pass of `CleanupExpiredBuckets` at instant `now`, visiting the
      * IPs in an unspecified order: the idle buckets are deleted. */
    method CleanupPass(now: int)
      modifies this
      ensures cleanupInterval == old(cleanupInterval)
      ensures buckets == map ip | ip in old(buckets) && !Idle(old(buckets)[ip].lastRefillTime, now) :: old(buckets)[ip]
    {
      var pending := buckets.Keys;
      while pending != {}
        invariant cleanupInterval == old(cleanupInterval)
        invariant pending <= old(buckets).Keys
        invariant forall ip :: ip in buckets ==> ip in old(buckets) && buckets[ip] == old(buckets)[ip]
        invariant forall ip :: ip in old(buckets) && (ip in pending || !Idle(old(buckets)[ip].lastRefillTime, now)) ==> ip in buckets
        invariant forall ip :: ip in buckets && ip !in pending ==> !Idle(old(buckets)[ip].lastRefillTime, now)
        decreases pending
      {
        var ip :| ip in pending;
        if Idle(buckets[ip].lastRefillTime, now) {
          buckets := buckets - {ip};
        }
        pending := pending - {ip};
      }
    }
  }
}
