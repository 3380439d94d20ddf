/**
 * The leaky bucket of 6.Simple_Rate_Limiter/go/leaky_bucket.go: a FIFO of the
 * instants of admitted requests per client, from which entries at least
 * `leakRate` old leak away at the front before each decision.
 *
 * `LeakyBucket.Allow` is proved against `Leak`; `LeakRun` strings requests
 * together, and `WindowBound` is the guarantee this buys: with a clock that
 * does not go backwards, no more than `capacity` admitted requests ever fall
 * within one `leakRate`.
 */
module LeakyBucketLimiter {
  import opened LimiterBase
  import opened ClientIp

  /** Ascending order. */
  ghost predicate Sorted(s: seq<int>)
  {
    forall i, j :: 0 <= i < j < |s| ==> s[i] <= s[j]
  }

  ghost predicate AllAtMost(s: seq<int>, t: int)
  {
    forall i :: 0 <= i < |s| ==> s[i] <= t
  }

  /** The leak loop: the front entry goes while it is at least `leakRate`
    * old; the first younger one stops it.  What is left is a suffix of the
    * queue, everything removed was old, and the new front is young. */
  function Drain(q: seq<int>, now: int, leakRate: int): (r: seq<int>)
    ensures |r| <= |q| && r == q[|q| - |r|..]
    ensures r != [] ==> now - r[0] < leakRate
    ensures forall k :: 0 <= k < |q| - |r| ==> now - q[k] >= leakRate
    decreases |q|
  {
    if q != [] && now - q[0] >= leakRate then
      var r := Drain(q[1..], now, leakRate);
      assert q[1..][|q| - 1 - |r|..] == q[|q| - |r|..];
      assert forall k :: 1 <= k < |q| - |r| ==> q[k] == q[1..][k - 1];
      r
    else q
  }

  /** `Allow` on the queue's value: leak, then admit and record `now` if the
    * queue is below capacity.  The queue never grows beyond the capacity,
    * and a refused request leaves the leaked queue as it is. */
  function Leak(q: seq<int>, capacity: int, leakRate: int, now: int): (r: (seq<int>, bool))
    ensures r.1 <==> |Drain(q, now, leakRate)| < capacity
    ensures r.0 == Drain(q, now, leakRate) + (if r.1 then [now] else [])
    ensures |q| <= capacity ==> |r.0| <= capacity
  {
    var d := Drain(q, now, leakRate);
    if |d| < capacity then (d + [now], true) else (d, false)
  }

  /** The requests at the given instants against one bucket: the final queue
    * and the instants that were admitted. */
  function LeakRun(q: seq<int>, capacity: int, leakRate: int, times: seq<int>): (seq<int>, seq<int>)
    decreases |times|
  {
    if times == [] then (q, [])
    else
      var (next, admitted) := Leak(q, capacity, leakRate, times[0]);
      var (last, rest) := LeakRun(next, capacity, leakRate, times[1..]);
      (last, (if admitted then [times[0]] else []) + rest)
  }

  /** The entries of `h` younger than `leakRate` at `now`, in order. */
  function Young(h: seq<int>, now: int, leakRate: int): (r: seq<int>)
    ensures |r| <= |h|
    decreases |h|
  {
    if h == [] then []
    else (if now - h[0] < leakRate then [h[0]] else []) + Young(h[1..], now, leakRate)
  }

  lemma {:induction false} YoungAppend(a: seq<int>, b: seq<int>, now: int, leakRate: int)
    ensures Young(a + b, now, leakRate) == Young(a, now, leakRate) + Young(b, now, leakRate)
    decreases |a|
  {
    if a == [] {
      assert a + b == b;
    } else {
      assert (a + b)[0] == a[0] && (a + b)[1..] == a[1..] + b;
      YoungAppend(a[1..], b, now, leakRate);
    }
  }

  /** What is young at a later instant was young at an earlier one. */
  lemma {:induction false} YoungLater(h: seq<int>, t0: int, t: int, leakRate: int)
    requires t0 <= t
    ensures Young(Young(h, t0, leakRate), t, leakRate) == Young(h, t, leakRate)
    decreases |h|
  {
    if h != [] {
      YoungLater(h[1..], t0, t, leakRate);
      var head := if t0 - h[0] < leakRate then [h[0]] else [];
      YoungAppend(head, Young(h[1..], t0, leakRate), t, leakRate);
    }
  }

  /** A sorted queue whose front is young is young throughout. */
  lemma {:induction false} SortedAllYoung(q: seq<int>, now: int, leakRate: int)
    requires Sorted(q) && q != [] && now - q[0] < leakRate
    ensures Young(q, now, leakRate) == q
    decreases |q|
  {
    if |q| > 1 {
      assert Sorted(q[1..]) by {
        forall i, j | 0 <= i < j < |q| - 1
          ensures q[1..][i] <= q[1..][j]
        {
          assert q[1..][i] == q[i + 1] && q[1..][j] == q[j + 1];
        }
      }
      assert q[1] == q[1..][0];
      SortedAllYoung(q[1..], now, leakRate);
    }
    assert q == [q[0]] + q[1..];
  }

  /** On a sorted queue, leaking removes exactly the old entries. */
  lemma {:induction false} DrainSorted(q: seq<int>, now: int, leakRate: int)
    requires Sorted(q)
    ensures Drain(q, now, leakRate) == Young(q, now, leakRate)
    decreases |q|
  {
    if q != [] {
      if now - q[0] >= leakRate {
        assert Sorted(q[1..]) by {
          forall i, j | 0 <= i < j < |q| - 1
            ensures q[1..][i] <= q[1..][j]
          {
            assert q[1..][i] == q[i + 1] && q[1..][j] == q[j + 1];
          }
        }
        DrainSorted(q[1..], now, leakRate);
      } else {
        SortedAllYoung(q, now, leakRate);
      }
    }
  }

  /** A suffix of a sorted sequence is sorted. */
  lemma SortedSuffix(q: seq<int>, k: int)
    requires Sorted(q) && 0 <= k <= |q|
    ensures Sorted(q[k..])
  {
    forall i, j | 0 <= i < j < |q| - k
      ensures q[k..][i] <= q[k..][j]
    {
      assert q[k..][i] == q[k + i] && q[k..][j] == q[k + j];
    }
  }

  /** Leaking a sorted queue of past instants leaves a sorted queue of past
    * instants. */
  lemma DrainKeepsOrder(q: seq<int>, t0: int, t: int, leakRate: int)
    requires Sorted(q) && AllAtMost(q, t0) && t0 <= t
    ensures Sorted(Drain(q, t, leakRate)) && AllAtMost(Drain(q, t, leakRate), t)
  {
    var d := Drain(q, t, leakRate);
    SortedSuffix(q, |q| - |d|);
    forall i | 0 <= i < |d|
      ensures d[i] <= t
    {
      assert d[i] == q[|q| - |d| + i];
    }
  }

  /** Recording the latest instant at the back keeps the queue sorted. */
  lemma AppendLatest(d: seq<int>, t: int)
    requires Sorted(d) && AllAtMost(d, t)
    ensures Sorted(d + [t]) && AllAtMost(d + [t], t)
  {
    var next := d + [t];
    forall i, j | 0 <= i < j < |next|
      ensures next[i] <= next[j]
    {
      assert next[i] == d[i];
      if j < |d| {
        assert next[j] == d[j];
      }
    }
  }

  /** The invariant of a run at instant `now`, where `hist` lists the
    * instants admitted so far: the queue is sorted, no later than `now`,
    * within the capacity, and holds exactly the admitted instants that are
    * still young. */
  ghost predicate Tracks(q: seq<int>, hist: seq<int>, now: int, capacity: int, leakRate: int)
  {
    Sorted(q) && AllAtMost(q, now) && |q| <= capacity && q == Young(hist, now, leakRate)
  }

  /** One request keeps the run's invariant. */
  lemma LeakStep(q: seq<int>, hist: seq<int>, t0: int, capacity: int, leakRate: int, t: int, hist2: seq<int>)
    requires 0 < leakRate && t0 <= t
    requires Tracks(q, hist, t0, capacity, leakRate)
    requires hist2 == hist + (if Leak(q, capacity, leakRate, t).1 then [t] else [])
    ensures Tracks(Leak(q, capacity, leakRate, t).0, hist2, t, capacity, leakRate)
  {
    var (next, admitted) := Leak(q, capacity, leakRate, t);
    var d := Drain(q, t, leakRate);
    DrainKeepsOrder(q, t0, t, leakRate);
    DrainSorted(q, t, leakRate);
    YoungLater(hist, t0, t, leakRate);
    if admitted {
      AppendLatest(d, t);
      YoungAppend(hist, [t], t, leakRate);
      assert Young([t], t, leakRate) == [t];
    } else {
      assert hist + [] == hist;
    }
  }

  /** The first request of a run, and the rest of it. */
  lemma LeakRunUnfold(q: seq<int>, capacity: int, leakRate: int, times: seq<int>)
    requires times != []
    ensures var step := Leak(q, capacity, leakRate, times[0]);
      var rest := LeakRun(step.0, capacity, leakRate, times[1..]);
      LeakRun(q, capacity, leakRate, times).0 == rest.0 &&
      LeakRun(q, capacity, leakRate, times).1 == (if step.1 then [times[0]] else []) + rest.1
  {
  }

  /** Over any run with a clock that does not go backwards, the final queue
    * holds exactly the admitted instants still young at the last request,
    * and there are at most `capacity` of them. */
  lemma {:induction false} LeakRunYoung(q: seq<int>, hist: seq<int>, t0: int, capacity: int, leakRate: int, times: seq<int>)
    requires 0 < leakRate
    requires Tracks(q, hist, t0, capacity, leakRate)
    requires Monotone(times) && AllAtLeast(times, t0)
    ensures LeakRun(q, capacity, leakRate, times).0 ==
            Young(hist + LeakRun(q, capacity, leakRate, times).1, LastOr(t0, times), leakRate)
    ensures |LeakRun(q, capacity, leakRate, times).0| <= capacity
    decreases |times|
  {
    if times == [] {
      assert hist + [] == hist;
    } else {
      var t := times[0];
      var rest := times[1..];
      MonotoneTail(times);
      assert LastOr(t, rest) == LastOr(t0, times);
      var step := Leak(q, capacity, leakRate, t);
      var added := if step.1 then [t] else [];
      var later := LeakRun(step.0, capacity, leakRate, rest).1;
      assert hist + added + later == hist + (added + later);
      LeakRunUnfold(q, capacity, leakRate, times);
      LeakStep(q, hist, t0, capacity, leakRate, t, hist + added);
      LeakRunYoung(step.0, hist + added, t, capacity, leakRate, rest);
    }
  }

  /** The leaky bucket's guarantee: from an empty queue, with a clock that
    * does not go backwards and a positive leak rate, at the instant of any
    * request at most `capacity` of the admitted requests lie less than
    * `leakRate` in the past. */
  lemma WindowBound(capacity: int, leakRate: int, times: seq<int>)
    requires 0 < leakRate && 0 <= capacity
    requires Monotone(times) && times != []
    ensures |Young(LeakRun([], capacity, leakRate, times).1, times[|times| - 1], leakRate)| <= capacity
  {
    assert AllAtLeast(times, times[0]);
    LeakRunYoung([], [], times[0], capacity, leakRate, times);
    assert LastOr(times[0], times) == times[|times| - 1];
    assert [] + LeakRun([], capacity, leakRate, times).1 == LeakRun([], capacity, leakRate, times).1;
  }

  /** One client's bucket, its queue updated in place. */
  class LeakyBucket {
    var capacity: int
    var queue: seq<int>
    var leakRate: int

    /** `NewLeakyBucket`; Go's `make` refuses a negative capacity. */
    constructor NewLeakyBucket(capacity: int, leakRate: int)
      requires 0 <= capacity
      ensures this.capacity == capacity && queue == [] && this.leakRate == leakRate
    {
      this.capacity := capacity;
      queue := [];
      this.leakRate := leakRate;
    }

    /** `Allow`, at instant `now`. */
    method Allow(now: int) returns (allowed: bool)
      modifies this
      ensures capacity == old(capacity) && leakRate == old(leakRate)
      ensures (queue, allowed) == Leak(old(queue), capacity, leakRate, now)
    {
      while |queue| > 0 && now - queue[0] >= leakRate
        invariant capacity == old(capacity) && leakRate == old(leakRate)
        invariant Drain(queue, now, leakRate) == Drain(old(queue), now, leakRate)
        decreases |queue|
      {
        queue := queue[1..];
      }
      if |queue| < capacity {
        queue := queue + [now];
        return true;
      }
      return false;
    }
  }

  /** The buckets by client IP. */
  class LeakyBucketLimiter {
    var buckets: map<string, LeakyBucket>

    constructor ()
      ensures buckets == map[]
    {
      buckets := map[];
    }

    /** `GetBucket`: the client's bucket, created empty with capacity 10 and
      * a one-second leak on its first request. */
    method GetBucket(clientIP: string) returns (bucket: LeakyBucket)
      modifies this
      ensures clientIP in old(buckets) ==> bucket == old(buckets)[clientIP] && buckets == old(buckets)
      ensures clientIP !in old(buckets) ==>
        fresh(bucket) && buckets == old(buckets)[clientIP := bucket] &&
        bucket.capacity == 10 && bucket.queue == [] && bucket.leakRate == Second
    {
      if clientIP in buckets {
        return buckets[clientIP];
      }
      bucket := new LeakyBucket.NewLeakyBucket(10, Second);
      buckets := buckets[clientIP := bucket];
    }

    /** One request through `LeakyBucketMiddleware` at instant `now`. */
    method LeakyBucketMiddleware(req: Request, now: int) returns (v: Verdict)
      modifies this, buckets.Values
      ensures var ip := ReadUserIP(req);
        ip in buckets &&
        (ip in old(buckets) ==> buckets == old(buckets)) &&
        (ip !in old(buckets) ==> buckets.Keys == old(buckets).Keys + {ip} && fresh(buckets[ip]))
      ensures var ip := ReadUserIP(req);
        (ip !in old(buckets) ==> buckets[ip].capacity == 10 && buckets[ip].leakRate == Second) &&
        (ip in old(buckets) ==>
          buckets[ip].capacity == old(buckets[ip].capacity) && buckets[ip].leakRate == old(buckets[ip].leakRate))
      ensures var ip := ReadUserIP(req);
        var before := if ip in old(buckets) then old(buckets[ip].queue) else [];
        var (queue, admitted) := Leak(before, buckets[ip].capacity, buckets[ip].leakRate, now);
        buckets[ip].queue == queue &&
        v == (if admitted then Next else Rejected(TooManyRequestsStatus, "Too many requests\n"))
      ensures forall b :: b in old(buckets.Values) && b != buckets[ReadUserIP(req)] ==> unchanged(b)
    {
      var ip := ReadUserIP(req);
      var bucket := GetBucket(ip);
      var ok := bucket.Allow(now);
      if !ok {
        return Rejected(TooManyRequestsStatus, "Too many requests\n");
      }
      return Next;
    }
  }
}
