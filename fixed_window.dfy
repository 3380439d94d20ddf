/**
 * The fixed-window counter of 6.Simple_Rate_Limiter/go/fixed_window.go: one
 * window shared by all clients, a counter per client, and every counter
 * cleared when the window has run its length.
 */
module FixedWindow {
  import opened LimiterBase
  import opened ClientIp

  /** The counter's mutable state as a value: the per-client counts and the
    * start of the current window. */
  datatype Window = Window(requests: map<string, int>, windowStart: int)

  /** A client's count; Go's map lookup gives 0 for a client not seen. */
  function CountOf(requests: map<string, int>, ip: string): int
  {
    if ip in requests then requests[ip] else 0
  }

  /** `Allow` on the state's value: a window that has run `windowSize` or
    * more is replaced by an empty one starting at `now`; the client's count
    * then goes up by one whatever the answer, and the request is allowed
    * iff the new count is within `limit`.  Without a reset no other client's
    * count changes. */
  function Tick(w: Window, limit: int, windowSize: int, ip: string, now: int): (r: (Window, bool))
    ensures now - w.windowStart >= windowSize ==> r.0.windowStart == now && r.0.requests == map[ip := 1]
    ensures now - w.windowStart < windowSize ==>
      r.0.windowStart == w.windowStart && r.0.requests.Keys == w.requests.Keys + {ip} &&
      CountOf(r.0.requests, ip) == CountOf(w.requests, ip) + 1 &&
      forall other :: other in w.requests && other != ip ==> r.0.requests[other] == w.requests[other]
    ensures r.1 <==> CountOf(r.0.requests, ip) <= limit
  {
    var cur := if now - w.windowStart >= windowSize then Window(map[], now) else w;
    var requests := cur.requests[ip := CountOf(cur.requests, ip) + 1];
    (cur.(requests := requests), requests[ip] <= limit)
  }

  /** The requests, each a client and an instant, in order: the final state
    * and how many of `client`'s requests were allowed. */
  function AllowedFor(w: Window, limit: int, windowSize: int, reqs: seq<(string, int)>, client: string): (Window, nat)
    decreases |reqs|
  {
    if reqs == [] then (w, 0)
    else
      var (next, allowed) := Tick(w, limit, windowSize, reqs[0].0, reqs[0].1);
      var (last, count) := AllowedFor(next, limit, windowSize, reqs[1..], client);
      (last, count + if allowed && reqs[0].0 == client then 1 else 0)
  }

  /** All the instants fall inside the window that starts at `windowStart`. */
  ghost predicate InWindow(reqs: seq<(string, int)>, windowStart: int, windowSize: int)
  {
    forall i :: 0 <= i < |reqs| ==> reqs[i].1 - windowStart < windowSize
  }

  /** The fixed window's guarantee: as long as the window is not reset, a
    * client is allowed at most as many more requests as its count is below
    * the limit, however the requests of all clients interleave; its count
    * ends up raised by the number of its requests. */
  lemma {:induction false} WithinWindowBound(w: Window, limit: int, windowSize: int, reqs: seq<(string, int)>, client: string)
    requires InWindow(reqs, w.windowStart, windowSize)
    ensures var (last, allowed) := AllowedFor(w, limit, windowSize, reqs, client);
      allowed <= Max(0, limit - CountOf(w.requests, client)) &&
      last.windowStart == w.windowStart &&
      CountOf(last.requests, client) == CountOf(w.requests, client) + |RequestsOf(reqs, client)|
    decreases |reqs|
  {
    if reqs != [] {
      var next := Tick(w, limit, windowSize, reqs[0].0, reqs[0].1).0;
      assert InWindow(reqs[1..], next.windowStart, windowSize) by {
        forall i | 0 <= i < |reqs| - 1
          ensures reqs[1..][i].1 - next.windowStart < windowSize
        {
          assert reqs[1..][i] == reqs[i + 1];
        }
      }
      WithinWindowBound(next, limit, windowSize, reqs[1..], client);
      if reqs[0].0 != client {
        assert CountOf(next.requests, client) == CountOf(w.requests, client);
      }
    }
  }

  /** The requests of `client`, in order. */
  function RequestsOf(reqs: seq<(string, int)>, client: string): (r: seq<int>)
    ensures |r| <= |reqs|
    decreases |reqs|
  {
    if reqs == [] then []
    else (if reqs[0].0 == client then [reqs[0].1] else []) + RequestsOf(reqs[1..], client)
  }

  class FixedWindowCounter {
    var limit: int
    var windowSize: int
    var requests: map<string, int>
    var windowStart: int

    /** A counter with no client counted yet, as the router builds it (10
      * requests per minute from the current instant). */
    constructor (limit: int, windowSize: int, windowStart: int)
      ensures this.limit == limit && this.windowSize == windowSize
      ensures State() == Window(map[], windowStart)
    {
      this.limit := limit;
      this.windowSize := windowSize;
      requests := map[];
      this.windowStart := windowStart;
    }

    function State(): Window
      reads this
    {
      Window(requests, windowStart)
    }

    /** `Allow` for `clientIP` at instant `now`. */
    method Allow(clientIP: string, now: int) returns (allowed: bool)
      modifies this
      ensures limit == old(limit) && windowSize == old(windowSize)
      ensures (State(), allowed) == Tick(old(State()), limit, windowSize, clientIP, now)
    {
      if now - windowStart >= windowSize {
        requests := map[];
        windowStart := now;
      }
      requests := requests[clientIP := CountOf(requests, clientIP) + 1];
      if requests[clientIP] > limit {
        return false;
      }
      return true;
    }

    /** One request through `FixedWindowCounterMiddleware` at instant `now`:
      * answered with 429 iff `Allow` refuses it, passed on otherwise. */
    method FixedWindowCounterMiddleware(req: Request, now: int) returns (v: Verdict)
      modifies this
      ensures limit == old(limit) && windowSize == old(windowSize)
      ensures var (w, allowed) := Tick(old(State()), limit, windowSize, ReadUserIP(req), now);
        State() == w && v == (if allowed then Next else Rejected(TooManyRequestsStatus, "Too many requests\n"))
    {
      var ok := Allow(ReadUserIP(req), now);
      if !ok {
        return Rejected(TooManyRequestsStatus, "Too many requests\n");
      }
      return Next;
    }
  }
}
