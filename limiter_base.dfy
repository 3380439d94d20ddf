/**
 * What the Go rate limiters (6.Simple_Rate_Limiter/go) share: time as an
 * integer number of nanoseconds (Go's `time.Time` and `time.Duration`), the
 * truncation of `Duration.Seconds()` to an `int`, and what a middleware does
 * with a request.
 */
module LimiterBase {

  const Second: int := 1_000_000_000
  const Minute: int := 60 * Second

  /** Go's built-in `min` on two integers. */
  function Min(a: int, b: int): (m: int)
    ensures m <= a && m <= b && (m == a || m == b)
  {
    if a <= b then a else b
  }

  /** Go's built-in `max` on two integers (Java's `Math.max`). */
  function Max(a: int, b: int): (m: int)
    ensures a <= m && b <= m && (m == a || m == b)
  {
    if a >= b then a else b
  }

  /** `int(d.Seconds())`: the whole number of seconds in `d` nanoseconds,
    * truncated towards zero as Go's float-to-int conversion does. */
  function WholeSeconds(d: int): (s: int)
    ensures 0 <= d ==> 0 <= s && s * Second <= d < (s + 1) * Second
    ensures d < 0 ==> s <= 0 && (-s) * Second <= -d < (-s + 1) * Second
  {
    if d >= 0 then d / Second else -((-d) / Second)
  }

  /** Instants that never go backwards. */
  ghost predicate Monotone(times: seq<int>)
  {
    forall i, j :: 0 <= i < j < |times| ==> times[i] <= times[j]
  }

  /** Instants none of which is before `t`. */
  ghost predicate AllAtLeast(times: seq<int>, t: int)
  {
    forall i :: 0 <= i < |times| ==> t <= times[i]
  }

  /** After its first instant, a clock that does not go backwards still does
    * not, and stays at or after that instant. */
  lemma MonotoneTail(times: seq<int>)
    requires Monotone(times) && times != []
    ensures Monotone(times[1..]) && AllAtLeast(times[1..], times[0])
  {
    var rest := times[1..];
    forall i, j | 0 <= i < j < |rest|
      ensures rest[i] <= rest[j]
    {
      assert rest[i] == times[i + 1] && rest[j] == times[j + 1];
    }
    forall i | 0 <= i < |rest|
      ensures times[0] <= rest[i]
    {
      assert rest[i] == times[i + 1];
    }
  }

  /** The last of the instants, or `t0` when there are none. */
  function LastOr(t0: int, times: seq<int>): (t: int)
    ensures times != [] ==> t == times[|times| - 1]
    ensures times == [] ==> t == t0
  {
    if times == [] then t0 else times[|times| - 1]
  }

  /** `http.StatusTooManyRequests`. */
  const TooManyRequestsStatus: int := 429

  /** What a middleware does with a request: pass it on to the next handler,
    * or answer it itself with a status and a body. */
  datatype Verdict = Next | Rejected(status: int, body: string)
}
