/** The decision every limiter returns, shared by the in-process and the store-backed limiters,
    and the small numeric helpers both use. */
module Results {

  datatype Option<+T> = None | Some(value: T)

  /** The outcome of one admission check (`RateLimitResult` in both source files). `resetAt`
      and `retryAfter` are in seconds, like the clock the limiters read. */
  datatype RateLimitResult = RateLimitResult(
    allowed: bool,
    limit: int,
    remaining: int,
    resetAt: real,
    retryAfter: Option<real>)

  /** `n` copies of `x`, as the `for _ in range(n): append(x)` loops of the source produce. */
  function Repeat<T>(x: T, n: nat): (s: seq<T>)
    ensures |s| == n && forall i :: 0 <= i < n ==> s[i] == x
  {
    seq(n, _ => x)
  }

  function Min(a: real, b: real): (m: real)
    ensures m <= a && m <= b && (m == a || m == b)
  {
    if a <= b then a else b
  }

  function Max(a: real, b: real): (m: real)
    ensures a <= m && b <= m && (m == a || m == b)
  {
    if a <= b then b else a
  }
}
