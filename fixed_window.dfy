/** Fixed window (`FixedWindowLimiter`): a counter for the window `[start, start + size)` that
    contains the clock, reset to zero whenever the clock enters another window. */
module FixedWindow {
  import opened Results
  import opened TimeWindows

  /** The fields of a `FixedWindowLimiter`; times are seconds. */
  datatype Window = Window(windowSize: int, limit: nat, windowStart: int, count: nat)
  {
    /** Object invariant: a positive window and a count within the limit. */
    predicate Valid() {
      windowSize > 0 && count <= limit
    }
  }

  /** The state `__init__` creates: window start 0, count 0. */
  function Initial(windowSize: int, limit: nat): (w: Window)
    requires windowSize > 0
    ensures w.Valid() && w.count == 0
  {
    Window(windowSize, limit, 0, 0)
  }

  /** The counter after the rollover check at `now`: adopting a different window zeroes the
      count, staying in the stored one keeps it. */
  function Rolled(w: Window, now: real): (v: Window)
    requires w.Valid()
    ensures v.Valid() && v.windowStart == WindowStart(w.windowSize, now)
    ensures v.windowSize == w.windowSize && v.limit == w.limit
    ensures v.count == if WindowStart(w.windowSize, now) == w.windowStart then w.count else 0
  {
    var current := WindowStart(w.windowSize, now);
    if current != w.windowStart then w.(windowStart := current, count := 0) else w
  }

  /** One `allow_request(cost)` at `now`: the new counter and the decision. */
  function Allow(w: Window, cost: nat, now: real): (out: (Window, RateLimitResult))
    requires w.Valid()
    ensures out.0.Valid() && out.0.windowStart == WindowStart(w.windowSize, now)
    ensures out.0.windowSize == w.windowSize && out.0.limit == w.limit
    ensures out.1.limit == w.limit && 0 <= out.1.remaining <= w.limit
  {
    var v := Rolled(w, now);
    var end := (v.windowStart + v.windowSize) as real;
    if v.count + cost <= v.limit then
      var c := v.count + cost;
      (v.(count := c), RateLimitResult(true, v.limit, v.limit - c, end, None))
    else
      (v, RateLimitResult(false, v.limit, 0, end, Some(end - now)))
  }

  /** `reset()`: the window containing `now`, with a zero count. */
  function AfterReset(w: Window, now: real): (v: Window)
    requires w.Valid()
    ensures v.Valid() && v.count == 0 && v.windowStart == WindowStart(w.windowSize, now)
    ensures v.windowSize == w.windowSize && v.limit == w.limit
  {
    w.(windowStart := WindowStart(w.windowSize, now), count := 0)
  }

  /** The call admits exactly when the cost fits next to the count of the current window. An
      admission raises the count by exactly the cost and reports what is left of the limit; a
      rejection leaves the count alone and reports a wait of at most one window, ending at the
      next window start. */
  lemma AdmitsIffCountFits(w: Window, cost: nat, now: real)
    requires w.Valid()
    ensures var (w', r) := Allow(w, cost, now);
      var before := Rolled(w, now).count;
      && (r.allowed <==> before + cost <= w.limit)
      && (r.allowed ==> w'.count == before + cost && r.remaining == w.limit - w'.count && r.retryAfter == None)
      && (!r.allowed ==> w'.count == before && r.remaining == 0 && r.retryAfter.Some?
                         && 0.0 < r.retryAfter.value <= w.windowSize as real
                         && now + r.retryAfter.value == (w'.windowStart + w.windowSize) as real)
  {
  }

  /** Retrying before `retry_after` has passed stays in the same window with the same count,
      and is rejected again. */
  lemma RetryAfterIsEarliest(w: Window, cost: nat, now: real, t: real)
    requires w.Valid() && !Allow(w, cost, now).1.allowed
    requires now <= t < now + Allow(w, cost, now).1.retryAfter.value
    ensures !Allow(Allow(w, cost, now).0, cost, t).1.allowed
  {
    var w' := Allow(w, cost, now).0;
    var s := w'.windowStart;
    var k := s / w.windowSize;
    MultipleHasNoRemainder(k, w.windowSize);
    assert s == k * w.windowSize;
    assert (k + 1) * w.windowSize == s + w.windowSize;
    WindowStartIsUnique(w.windowSize, t, k);
  }

  /** Retrying at `now + retry_after` lands in the next window, whose count starts at zero, so
      the same request is admitted whenever it fits the limit at all. */
  lemma RetryAfterSuffices(w: Window, cost: nat, now: real)
    requires w.Valid() && cost <= w.limit && !Allow(w, cost, now).1.allowed
    ensures var (w', r) := Allow(w, cost, now);
      Allow(w', cost, now + r.retryAfter.value).1.allowed
  {
    var (w', r) := Allow(w, cost, now);
    NextWindowStart(w.windowSize, now);
    assert now + r.retryAfter.value == (w'.windowStart + w.windowSize) as real;
  }

  /** The documented boundary behaviour: with one-second windows, `limit` requests at 0.999 s
      and `limit` more at 1.001 s are all admitted, `2 * limit` within two milliseconds. */
  lemma BoundaryAdmitsTwiceTheLimit(limit: nat)
    ensures var (w1, r1) := Allow(Initial(1, limit), limit, 0.999);
      var (w2, r2) := Allow(w1, limit, 1.001);
      r1.allowed && r2.allowed && w1.count == limit && w2.count == limit
  {
    WindowStartIsUnique(1, 0.999, 0);
    WindowStartIsUnique(1, 1.001, 1);
  }

  /** The in-place limiter: the fields of `FixedWindowLimiter`. */
  class FixedWindowLimiter {
    const windowSize: int
    const limit: nat
    var windowStart: int
    var count: nat

    /** The value of the fields. */
    function Model(): Window
      reads this
    {
      Window(windowSize, limit, windowStart, count)
    }

    constructor (windowSize: int, limit: nat)
      requires windowSize > 0
      ensures Model() == Initial(windowSize, limit)
    {
      this.windowSize := windowSize;
      this.limit := limit;
      windowStart := 0;
      count := 0;
    }

    method AllowRequest(cost: nat, now: real) returns (r: RateLimitResult)
      requires Model().Valid()
      modifies this
      ensures Model().Valid()
      ensures (Model(), r) == Allow(old(Model()), cost, now)
    {
      var currentWindow := WindowStart(windowSize, now);
      if currentWindow != windowStart {
        windowStart := currentWindow;
        count := 0;
      }
      if count + cost <= limit {
        count := count + cost;
        r := RateLimitResult(true, limit, limit - count, (windowStart + windowSize) as real, None);
      } else {
        r := RateLimitResult(false, limit, 0, (windowStart + windowSize) as real,
                             Some((windowStart + windowSize) as real - now));
      }
    }

    method Reset(now: real)
      requires Model().Valid()
      modifies this
      ensures Model() == AfterReset(old(Model()), now)
    {
      windowStart := WindowStart(windowSize, now);
      count := 0;
    }
  }
}
