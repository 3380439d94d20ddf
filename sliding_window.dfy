/**
 * The sliding-window log of 6.Simple_Rate_Limiter/go/sliding_window.go: per
 * key, the instants of the admitted requests; those no later than
 * `now - window` are dropped before each decision, and a request is admitted
 * while fewer than `limit` remain.
 *
 * `GetBucket` answers with a fresh `TokenBucket` whose only set field is
 * `tokens` (1 to admit, 0 to refuse); the model returns that number.
 */
module SlidingWindowLog {
  import opened LimiterBase

  /** The instants of `ts` strictly after `windowStart`, in their order
    * (`t.After(windowStart)`). */
  function Recent(ts: seq<int>, windowStart: int): (r: seq<int>)
    ensures |r| <= |ts|
    ensures forall t :: t in r <==> t in ts && t > windowStart
    decreases |ts|
  {
    if ts == [] then []
    else
      var init := ts[..|ts| - 1];
      var last := ts[|ts| - 1];
      assert ts == init + [last];
      Recent(init, windowStart) + (if last > windowStart then [last] else [])
  }

  /** Filtering distributes over concatenation. */
  lemma {:induction false} RecentAppend(a: seq<int>, b: seq<int>, windowStart: int)
    ensures Recent(a + b, windowStart) == Recent(a, windowStart) + Recent(b, windowStart)
    decreases |b|
  {
    if b == [] {
      assert a + b == a;
    } else {
      var init := b[..|b| - 1];
      assert (a + b)[..|a + b| - 1] == a + init;
      assert (a + b)[|a + b| - 1] == b[|b| - 1];
      RecentAppend(a, init, windowStart);
    }
  }

  /** Filtering again with a later window start is filtering once with it;
    * with the same start, filtering is idempotent. */
  lemma {:induction false} RecentLater(ts: seq<int>, a: int, b: int)
    requires a <= b
    ensures Recent(Recent(ts, a), b) == Recent(ts, b)
    decreases |ts|
  {
    if ts != [] {
      var init := ts[..|ts| - 1];
      var last := ts[|ts| - 1];
      RecentLater(init, a, b);
      RecentAppend(Recent(init, a), if last > a then [last] else [], b);
    }
  }

  /** One decision on a key's log at instant `now`: keep the recent entries,
    * and admit and record `now` if fewer than `limit` remain.  A refused
    * request leaves the filtered log as it is. */
  function Log(ts: seq<int>, limit: int, window: int, now: int): (r: (seq<int>, bool))
    ensures r.1 <==> |Recent(ts, now - window)| < limit
    ensures r.0 == Recent(ts, now - window) + (if r.1 then [now] else [])
    ensures |ts| <= limit ==> |r.0| <= limit
  {
    var valid := Recent(ts, now - window);
    if |valid| < limit then (valid + [now], true) else (valid, false)
  }

  /** Requests at the given instants against one key's log: the final log
    * and the instants that were admitted. */
  function LogRun(ts: seq<int>, limit: int, window: int, times: seq<int>): (seq<int>, seq<int>)
    decreases |times|
  {
    if times == [] then (ts, [])
    else
      var (next, admitted) := Log(ts, limit, window, times[0]);
      var (last, rest) := LogRun(next, limit, window, times[1..]);
      (last, (if admitted then [times[0]] else []) + rest)
  }

  /** The invariant of a run at instant `now`, where `hist` lists the
    * instants admitted so far: the log holds exactly the admitted instants
    * still inside the window, and no more than `limit` of them. */
  ghost predicate Tracks(ts: seq<int>, hist: seq<int>, now: int, limit: int, window: int)
  {
    |ts| <= limit && ts == Recent(hist, now - window)
  }

  /** One request keeps the run's invariant. */
  lemma LogStep(ts: seq<int>, hist: seq<int>, t0: int, limit: int, window: int, t: int, hist2: seq<int>)
    requires 0 < window && t0 <= t
    requires Tracks(ts, hist, t0, limit, window)
    requires hist2 == hist + (if Log(ts, limit, window, t).1 then [t] else [])
    ensures Tracks(Log(ts, limit, window, t).0, hist2, t, limit, window)
  {
    RecentLater(hist, t0 - window, t - window);
    if Log(ts, limit, window, t).1 {
      RecentAdmit(hist, t, t - window);
    } else {
      assert hist2 == hist;
    }
  }

  /** An instant after the window start survives the filter. */
  lemma RecentAdmit(hist: seq<int>, t: int, windowStart: int)
    requires windowStart < t
    ensures Recent(hist + [t], windowStart) == Recent(hist, windowStart) + [t]
  {
    RecentAppend(hist, [t], windowStart);
    assert Recent([t], windowStart) == [t] by {
      assert [t][..0] == [];
    }
  }

  /** The first request of a run, and the rest of it. */
  lemma LogRunUnfold(ts: seq<int>, limit: int, window: int, times: seq<int>)
    requires times != []
    ensures var step := Log(ts, limit, window, times[0]);
      var rest := LogRun(step.0, limit, window, times[1..]);
      LogRun(ts, limit, window, times).0 == rest.0 &&
      LogRun(ts, limit, window, times).1 == (if step.1 then [times[0]] else []) + rest.1
  {
  }

  /** Over any run with a clock that does not go backwards, the final log
    * holds exactly the admitted instants inside the window of the last
    * request, and there are at most `limit` of them. */
  lemma {:induction false} LogRunRecent(ts: seq<int>, hist: seq<int>, t0: int, limit: int, window: int, times: seq<int>)
    requires 0 < window
    requires Tracks(ts, hist, t0, limit, window)
    requires Monotone(times) && AllAtLeast(times, t0)
    ensures LogRun(ts, limit, window, times).0 ==
            Recent(hist + LogRun(ts, limit, window, times).1, LastOr(t0, times) - window)
    ensures |LogRun(ts, limit, window, times).0| <= limit
    decreases |times|
  {
    if times == [] {
      assert hist + [] == hist;
    } else {
      var t := times[0];
      var rest := times[1..];
      MonotoneTail(times);
      assert LastOr(t, rest) == LastOr(t0, times);
      var step := Log(ts, limit, window, t);
      var added := if step.1 then [t] else [];
      var later := LogRun(step.0, limit, window, rest).1;
      assert hist + added + later == hist + (added + later);
      LogRunUnfold(ts, limit, window, times);
      LogStep(ts, hist, t0, limit, window, t, hist + added);
      LogRunRecent(step.0, hist + added, t, limit, window, rest);
    }
  }

  /** The sliding window's guarantee: from an empty log, with a clock that
    * does not go backwards and a positive window, at the instant of any
    * request at most `limit` admitted requests lie strictly inside the
    * window that ends there. */
  lemma WindowBound(limit: int, window: int, times: seq<int>)
    requires 0 < window && 0 <= limit
    requires Monotone(times) && times != []
    ensures |Recent(LogRun([], limit, window, times).1, times[|times| - 1] - window)| <= limit
  {
    assert AllAtLeast(times, times[0]);
    LogRunRecent([], [], times[0], limit, window, times);
    assert LastOr(times[0], times) == times[|times| - 1];
    assert [] + LogRun([], limit, window, times).1 == LogRun([], limit, window, times).1;
  }

  /** The filtering loop that both `GetBucket` and `CleanupExpiredBuckets`
    * run over a key's log. */
  method KeepRecent(ts: seq<int>, windowStart: int) returns (valid: seq<int>)
    ensures valid == Recent(ts, windowStart)
  {
    valid := [];
    for i := 0 to |ts|
      invariant valid == Recent(ts[..i], windowStart)
    {
      assert ts[..i + 1][..i] == ts[..i];
      if ts[i] > windowStart {
        valid := valid + [ts[i]];
      }
    }
    assert ts[..|ts|] == ts;
  }

  /** The logs by key. */
  class SlidingWindow {
    var requests: map<string, seq<int>>
    var limit: int
    var window: int

    /** `NewSlidingWindowRateLimiter`: no logs, 10 requests per minute. */
    constructor NewSlidingWindowRateLimiter()
      ensures requests == map[] && limit == 10 && window == Minute
    {
      requests := map[];
      limit := 10;
      window := Minute;
    }

    /** The key's log; a key never seen has an empty one. */
    function LogOf(key: string): seq<int>
      reads this
    {
      if key in requests then requests[key] else []
    }

    /** `GetBucket` at instant `now`: the key's log becomes the decision's
      * log (the key is stored even when the request is refused), the answer
      * is 1 token to admit and 0 to refuse, and no other key changes. */
    method GetBucket(key: string, now: int) returns (tokens: int)
      modifies this
      ensures limit == old(limit) && window == old(window)
      ensures var (log, admitted) := Log(old(LogOf(key)), limit, window, now);
        requests == old(requests)[key := log] && tokens == (if admitted then 1 else 0)
    {
      var windowStart := now - window;
      var valid := KeepRecent(LogOf(key), windowStart);
      requests := requests[key := valid];
      if |valid| < limit {
        requests := requests[key := requests[key] + [now]];
        return 1;
      }
      return 0;
    }

    /** One pass of `CleanupExpiredBuckets` at instant `now`, visiting the
      * keys in an unspecified order: every log is filtered and no key is
      * deleted. */
    method CleanupPass(now: int)
      modifies this
      ensures limit == old(limit) && window == old(window)
      ensures requests == map key | key in old(requests) :: Recent(old(requests)[key], now - window)
    {
      var pending := requests.Keys;
      while pending != {}
        invariant limit == old(limit) && window == old(window)
        invariant requests.Keys == old(requests).Keys && pending <= requests.Keys
        invariant forall key :: key in pending ==> requests[key] == old(requests)[key]
        invariant forall key :: key in requests && key !in pending ==>
          requests[key] == Recent(old(requests)[key], now - window)
        decreases pending
      {
        var key :| key in pending;
        var valid := KeepRecent(requests[key], now - window);
        requests := requests[key := valid];
        pending := pending - {key};
      }
    }
  }
}
