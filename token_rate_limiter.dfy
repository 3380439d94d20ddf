/**
 * The token-bucket middleware of 6.Simple_Rate_Limiter/go/token_rate_limiter.go.
 *
 * The file declares its own `TokenBucket` and `TokenRateLimiter`, with the
 * same fields, `GetBucket` and `CleanupExpiredBuckets` as tokenbucket.go; only
 * the value type `Bucket` and the idleness test are shared with
 * `TokenBucketLimiter`.  What differs is the refill inside the middleware:
 * the refill time moves to `now` on every request, so a fraction of a second
 * since the last request is lost.
 */
module TokenRateMiddleware {
  import opened LimiterBase
  import opened ClientIp
  import opened TokenBucketLimiter

  /** The middleware's refill: earned tokens are added, the sum is cut down to
    * the capacity, and the refill time becomes `now` whatever was earned. */
  function MiddlewareRefill(b: Bucket, now: int): (r: Bucket)
    ensures r.capacity == b.capacity && r.refillRate == b.refillRate && r.lastRefillTime == now
    ensures InRange(b) && b.lastRefillTime <= now && 0 <= b.refillRate ==> b.tokens <= r.tokens <= b.capacity
    ensures b.lastRefillTime <= now < b.lastRefillTime + Second ==> r.tokens == Min(b.tokens, b.capacity)
  {
    var tokens := b.tokens + WholeSeconds(now - b.lastRefillTime) * b.refillRate;
    b.(tokens := if tokens > b.capacity then b.capacity else tokens, lastRefillTime := now)
  }

  /** The middleware's decision on a bucket's value: refill, then forward
    * the request and take a token if one is left. */
  function Admit(b: Bucket, now: int): (r: (Bucket, bool))
    ensures r.1 <==> MiddlewareRefill(b, now).tokens > 0
    ensures r.1 ==> r.0 == MiddlewareRefill(b, now).(tokens := MiddlewareRefill(b, now).tokens - 1)
    ensures !r.1 ==> r.0 == MiddlewareRefill(b, now)
    ensures InRange(b) && b.lastRefillTime <= now && 0 <= b.refillRate ==> InRange(r.0)
  {
    var f := MiddlewareRefill(b, now);
    if f.tokens > 0 then (f.(tokens := f.tokens - 1), true) else (f, false)
  }

  /** Requests at the given instants through the middleware: the final
    * bucket and how many were forwarded. */
  function AdmitRun(b: Bucket, times: seq<int>): (Bucket, nat)
    decreases |times|
  {
    if times == [] then (b, 0)
    else
      var (next, admitted) := Admit(b, times[0]);
      var (last, count) := AdmitRun(next, times[1..]);
      (last, count + if admitted then 1 else 0)
  }

  /** With a clock that does not go backwards and a non-negative rate, the
    * token count stays between zero and the capacity. */
  lemma {:induction false} AdmitRunInRange(b: Bucket, times: seq<int>)
    requires InRange(b) && 0 <= b.refillRate
    requires Monotone(times) && (times != [] ==> b.lastRefillTime <= times[0])
    ensures InRange(AdmitRun(b, times).0)
    decreases |times|
  {
    if times != [] {
      var next := Admit(b, times[0]).0;
      MonotoneTail(times);
      if |times| > 1 {
        assert times[1..][0] == times[1];
      }
      AdmitRunInRange(next, times[1..]);
    }
  }

  /** Unlike `TokenBucket.AllowRequest`, the middleware forgets fractions of a
    * second: two requests less than a second apart each earn nothing, even
    * when together they span more than a second since the last refill. */
  lemma FractionalSecondsLost(b: Bucket, t1: int, t2: int)
    requires InRange(b) && 1 <= b.refillRate
    requires b.lastRefillTime <= t1 < b.lastRefillTime + Second
    requires t1 <= t2 < t1 + Second
    ensures var first := Admit(b, t1).0;
      MiddlewareRefill(first, t2).tokens == first.tokens && first.tokens <= b.tokens
  {
  }

  const TooManyRequestsBody := "Too Many Requests\n"

  /** A client's bucket; this file gives it no methods of its own. */
  class TokenBucket {
    var capacity: int
    var tokens: int
    var lastRefillTime: int
    var refillRate: int

    constructor (capacity: int, tokens: int, lastRefillTime: int, refillRate: int)
      ensures State() == Bucket(capacity, tokens, lastRefillTime, refillRate)
    {
      this.capacity := capacity;
      this.tokens := tokens;
      this.lastRefillTime := lastRefillTime;
      this.refillRate := refillRate;
    }

    function State(): Bucket
      reads this
    {
      Bucket(capacity, tokens, lastRefillTime, refillRate)
    }
  }

  /** The buckets by client IP. */
  class TokenRateLimiter {
    var buckets: map<string, TokenBucket>
    var cleanupInterval: int

    /** `GetBucket`: the client's bucket, created full (10 tokens, one per
      * second) on its first request. */
    method GetBucket(ip: string, now: int) returns (bucket: TokenBucket)
      modifies this
      ensures cleanupInterval == old(cleanupInterval)
      ensures ip in old(buckets) ==> bucket == old(buckets)[ip] && buckets == old(buckets)
      ensures ip !in old(buckets) ==>
        fresh(bucket) && bucket.State() == Bucket(10, 10, now, 1) && buckets == old(buckets)[ip := bucket]
    {
      if ip in buckets {
        return buckets[ip];
      }
      bucket := new TokenBucket(10, 10, now, 1);
      buckets := buckets[ip := bucket];
    }

    /** One pass of `CleanupExpiredBuckets` at instant `now`, visiting the
      * IPs in an unspecified order: the idle buckets are deleted. */
    method CleanupPass(now: int)
      modifies this
      ensures cleanupInterval == old(cleanupInterval)
      ensures buckets == map ip | ip in old(buckets) && !Idle(old(buckets)[ip].lastRefillTime, now) :: old(buckets)[ip]
    {
      var pending := buckets.Keys;
      while pending != {}
        invariant cleanupInterval == old(cleanupInterval)
        invariant pending <= old(buckets).Keys
        invariant forall ip :: ip in buckets ==> ip in old(buckets) && buckets[ip] == old(buckets)[ip]
        invariant forall ip :: ip in old(buckets) && (ip in pending || !Idle(old(buckets)[ip].lastRefillTime, now)) ==> ip in buckets
        invariant forall ip :: ip in buckets && ip !in pending ==> !Idle(old(buckets)[ip].lastRefillTime, now)
        decreases pending
      {
        var ip :| ip in pending;
        if Idle(buckets[ip].lastRefillTime, now) {
          buckets := buckets - {ip};
        }
        pending := pending - {ip};
      }
    }

    /** One request through `TokenBucketMiddleware` at instant `now`: the
      * client's bucket (created full on first use) is refilled and either
      * gives a token and passes the request on, or the answer is 429.  No
      * other bucket changes. */
    method TokenBucketMiddleware(req: Request, now: int) returns (v: Verdict)
      modifies this, buckets.Values
      ensures var ip := ReadUserIP(req);
        ip in buckets &&
        (ip in old(buckets) ==> buckets == old(buckets)) &&
        (ip !in old(buckets) ==> buckets.Keys == old(buckets).Keys + {ip} && fresh(buckets[ip]))
      ensures var ip := ReadUserIP(req);
        var before := if ip in old(buckets) then old(buckets[ip].State()) else Bucket(10, 10, now, 1);
        (buckets[ip].State(), v == Next) == Admit(before, now)
      ensures v == Next || v == Rejected(TooManyRequestsStatus, TooManyRequestsBody)
      ensures forall b :: b in old(buckets.Values) && b != buckets[ReadUserIP(req)] ==> b.State() == old(b.State())
    {
      var ip := ReadUserIP(req);
      var bucket := GetBucket(ip, now);
      var elapsed := WholeSeconds(now - bucket.lastRefillTime);
      bucket.tokens := bucket.tokens + elapsed * bucket.refillRate;
      if bucket.tokens > bucket.capacity {
        bucket.tokens := bucket.capacity;
      }
      bucket.lastRefillTime := now;
      if bucket.tokens > 0 {
        bucket.tokens := bucket.tokens - 1;
        v := Next;
      } else {
        v := Rejected(TooManyRequestsStatus, TooManyRequestsBody);
      }
    }
  }
}
