/** Sliding-window counter (`SlidingWindowCounterLimiter`): the counts of the current fixed window
    and of the window before it, blended into an estimate of the requests in the last
    `window_size` seconds by weighting the previous count with the part of it that still
    overlaps the sliding window. */
module SlidingWindowCounter {
  import opened Results
  import opened TimeWindows

  /** One of the two `{'start': ..., 'count': ...}` dictionaries. */
  datatype Slot = Slot(start: int, count: nat)

  /** The fields of a `SlidingWindowCounterLimiter`; times are seconds. */
  datatype Counter = Counter(windowSize: int, limit: nat, current: Slot, previous: Slot)
  {
    /** Object invariant: a positive window, and neither count above the limit. */
    predicate Valid() {
      windowSize > 0 && current.count <= limit && previous.count <= limit
    }
  }

  /** The state `__init__` creates: both slots `{start: 0, count: 0}`. */
  function Initial(windowSize: int, limit: nat): (c: Counter)
    requires windowSize > 0
    ensures c.Valid() && c.current == c.previous == Slot(0, 0)
  {
    Counter(windowSize, limit, Slot(0, 0), Slot(0, 0))
  }

  /** `_estimate_count` at `now`: the previous count weighted by the overlap fraction
      `max(0, (window_size - elapsed) / window_size)`, plus the current count. It never falls
      below the current count and, once the clock is inside or past the current slot's start,
      never exceeds the sum of the two counts. */
  function Estimate(c: Counter, now: real): (est: real)
    requires c.windowSize > 0
    ensures c.current.count as real <= est
    ensures c.current.start as real <= now ==> est <= (c.previous.count + c.current.count) as real
  {
    var w := c.windowSize as real;
    var elapsed := now - c.current.start as real;
    var overlap := Max(0.0, (w - elapsed) / w);
    assert elapsed >= 0.0 ==> overlap <= 1.0;
    assert c.previous.count as real * overlap >= 0.0;
    assert overlap <= 1.0 ==> c.previous.count as real * overlap <= c.previous.count as real;
    c.previous.count as real * overlap + c.current.count as real
  }

  /** The window check at the top of `allow_request`: on a change of window the current slot is
      copied to `previous` (whatever window it belongs to) and a fresh current slot opens at the
      window containing `now`; in the same window nothing changes. */
  function Shifted(c: Counter, now: real): (v: Counter)
    requires c.Valid()
    ensures v.Valid() && v.windowSize == c.windowSize && v.limit == c.limit
    ensures v.current.start == WindowStart(c.windowSize, now)
    ensures WindowStart(c.windowSize, now) != c.current.start ==> v.previous == c.current && v.current.count == 0
    ensures WindowStart(c.windowSize, now) == c.current.start ==> v == c
  {
    var windowStart := WindowStart(c.windowSize, now);
    if windowStart != c.current.start then c.(previous := c.current, current := Slot(windowStart, 0)) else c
  }

  /** One `allow_request(cost)` at `now`: the new slots and the decision. */
  function Allow(c: Counter, cost: nat, now: real): (out: (Counter, RateLimitResult))
    requires c.Valid()
    ensures out.0.Valid() && out.0.windowSize == c.windowSize && out.0.limit == c.limit
    ensures out.0.current.start == WindowStart(c.windowSize, now)
    ensures out.1.limit == c.limit && 0 <= out.1.remaining <= c.limit
  {
    var v := Shifted(c, now);
    var est := Estimate(v, now);
    var end := (v.current.start + v.windowSize) as real;
    if est + cost as real <= v.limit as real then
      assert v.current.count + cost <= v.limit;
      var left := (v.limit as real - est - cost as real).Floor;
      (v.(current := v.current.(count := v.current.count + cost)),
       RateLimitResult(true, v.limit, if left < 0 then 0 else left, end, None))
    else
      (v, RateLimitResult(false, v.limit, 0, end, Some(end - now)))
  }

  /** `reset()`: a fresh current slot at the window containing `now`, and `previous` back to
      `{start: 0, count: 0}`. */
  function AfterReset(c: Counter, now: real): (c': Counter)
    requires c.Valid()
    ensures c'.Valid() && c'.windowSize == c.windowSize && c'.limit == c.limit
    ensures c'.current == Slot(WindowStart(c.windowSize, now), 0) && c'.previous == Slot(0, 0)
  {
    c.(current := Slot(WindowStart(c.windowSize, now), 0), previous := Slot(0, 0))
  }

  /** After the window check the clock lies inside the current slot's window, so the estimate is
      a blend of the two counts: between the current count and the sum of both. */
  lemma ShiftedEstimateBounds(c: Counter, now: real)
    requires c.Valid()
    ensures var v := Shifted(c, now);
      v.current.count as real <= Estimate(v, now) <= (v.previous.count + v.current.count) as real
  {
  }

  /** Within one window the estimate only decays: the later the clock, the less of the previous
      count is still weighted in. */
  lemma EstimateDecays(c: Counter, now: real, t: real)
    requires c.windowSize > 0 && now <= t
    ensures Estimate(c, t) <= Estimate(c, now)
  {
    var w := c.windowSize as real;
    var o1 := Max(0.0, (w - (now - c.current.start as real)) / w);
    var o2 := Max(0.0, (w - (t - c.current.start as real)) / w);
    var p := c.previous.count as real;
    DivideKeepsOrder(w - (t - c.current.start as real), w - (now - c.current.start as real), w);
    assert o2 <= o1;
    if p > 0.0 {
      ScaleLe(o2, o1, p);
    }
    assert Estimate(c, t) == p * o2 + c.current.count as real;
    assert Estimate(c, now) == p * o1 + c.current.count as real;
  }

  lemma DivideKeepsOrder(a: real, b: real, w: real)
    requires a <= b && w > 0.0
    ensures a / w <= b / w
  {
    ScaleLe(a, b, 1.0 / w);
  }

  /** The call admits exactly when the estimate after the window check leaves room for the
      cost. An admission adds exactly the cost to the current count, leaves `previous` alone
      and reports the whole requests still free; a rejection changes no count and reports a
      positive wait of at most one window, ending where the current window ends. */
  lemma AdmitsIffEstimateFits(c: Counter, cost: nat, now: real)
    requires c.Valid()
    ensures var (c', r) := Allow(c, cost, now);
      var v := Shifted(c, now);
      var est := Estimate(v, now);
      && (r.allowed <==> est + cost as real <= c.limit as real)
      && (r.allowed ==> c'.previous == v.previous && c'.current.start == v.current.start
                        && c'.current.count == v.current.count + cost
                        && r.remaining == (c.limit as real - est - cost as real).Floor
                        && r.retryAfter == None)
      && (!r.allowed ==> c' == v && r.remaining == 0 && r.retryAfter.Some?
                         && 0.0 < r.retryAfter.value <= c.windowSize as real
                         && now + r.retryAfter.value == (c'.current.start + c.windowSize) as real)
  {
  }

  /** A request larger than the limit is never admitted. */
  lemma OversizedAlwaysRejected(c: Counter, cost: nat, now: real)
    requires c.Valid() && cost > c.limit
    ensures !Allow(c, cost, now).1.allowed
  {
  }

  /** Retrying any time before `retry_after` stays in the same window: the slots are not
      shifted again, and the estimate can only have decayed. */
  lemma RetryBeforeDeadlineStaysInWindow(c: Counter, cost: nat, now: real, t: real)
    requires c.Valid() && !Allow(c, cost, now).1.allowed
    requires now <= t < now + Allow(c, cost, now).1.retryAfter.value
    ensures var c' := Allow(c, cost, now).0;
      Shifted(c', t) == c' && Estimate(c', t) <= Estimate(c', now)
  {
    var c' := Allow(c, cost, now).0;
    StaysInWindow(c.windowSize, now, t);
    EstimateDecays(c', now, t);
  }

  /** Retrying at `now + retry_after` enters the next window: the counts seen at the rejection
      become `previous`, weighted in full, and the new current count starts at zero. */
  lemma RetryAfterOpensNextWindow(c: Counter, cost: nat, now: real)
    requires c.Valid() && !Allow(c, cost, now).1.allowed
    ensures var (c', r) := Allow(c, cost, now);
      var n := Shifted(c', now + r.retryAfter.value);
      n.previous == c'.current && n.current == Slot(c'.current.start + c.windowSize, 0)
      && Estimate(n, now + r.retryAfter.value) == c'.current.count as real
  {
    var (c', r) := Allow(c, cost, now);
    NextWindowStart(c.windowSize, now);
    assert now + r.retryAfter.value == (c'.current.start + c.windowSize) as real;
  }

  /** The window check does not ask whether the stored slot is the window just before: after
      five idle one-second windows the full count of window [0, 1) is still weighted in full at
      5.0, and a request that the five empty seconds should let through is rejected. */
  lemma SkippedWindowsStillCount()
    ensures var c := Counter(1, 10, Slot(0, 10), Slot(0, 0));
      var (c', r) := Allow(c, 1, 5.0);
      c'.previous == Slot(0, 10) && c'.current == Slot(5, 0) && !r.allowed
  {
    WindowStartIsUnique(1, 5.0, 5);
  }

  /** Ten requests fill window [0, 1); at 1.5 the window check moves them to `previous` and
      opens an empty window [1, 2). */
  lemma FullWindowCarriesOver()
    ensures Shifted(Counter(1, 10, Slot(0, 10), Slot(0, 0)), 1.5) == Counter(1, 10, Slot(1, 0), Slot(0, 10))
  {
    WindowStartIsUnique(1, 1.5, 1);
  }

  /** Half-way through window [1, 2), after a full window [0, 1) and `k` requests in the
      current one, the estimate is `10 * 0.5 + k`: a single request is admitted exactly while
      `k < 5` and then raises the current count to `k + 1`, so five more requests get in and
      the sixth is rejected. */
  lemma HalfWayThroughNextWindow(k: nat)
    requires k <= 10
    ensures var (c', r) := Allow(Counter(1, 10, Slot(1, k), Slot(0, 10)), 1, 1.5);
      (r.allowed <==> k < 5) && c' == Counter(1, 10, Slot(1, if k < 5 then k + 1 else k), Slot(0, 10))
  {
    WindowStartIsUnique(1, 1.5, 1);
    assert Estimate(Counter(1, 10, Slot(1, k), Slot(0, 10)), 1.5) == 5.0 + k as real;
  }

  /** The in-place limiter: the fields of `SlidingWindowCounterLimiter`. */
  class SlidingWindowCounterLimiter {
    const windowSize: int
    const limit: nat
    var current: Slot
    var previous: Slot

    /** The value of the fields. */
    function Model(): Counter
      reads this
    {
      Counter(windowSize, limit, current, previous)
    }

    constructor (windowSize: int, limit: nat)
      requires windowSize > 0
      ensures Model() == Initial(windowSize, limit)
    {
      this.windowSize := windowSize;
      this.limit := limit;
      current := Slot(0, 0);
      previous := Slot(0, 0);
    }

    /** `_estimate_count`: reads the slots, changes nothing. */
    method EstimateCount(now: real) returns (est: real)
      requires windowSize > 0
      ensures est == Estimate(Model(), now)
    {
      var elapsed := now - current.start as real;
      var overlapPct := Max(0.0, (windowSize as real - elapsed) / windowSize as real);
      est := previous.count as real * overlapPct + current.count as real;
    }

    method AllowRequest(cost: nat, now: real) returns (r: RateLimitResult)
      requires Model().Valid()
      modifies this
      ensures Model().Valid()
      ensures (Model(), r) == Allow(old(Model()), cost, now)
    {
      var windowStart := WindowStart(windowSize, now);
      if windowStart != current.start {
        previous := current;
        current := Slot(windowStart, 0);
      }
      var estimatedCount := EstimateCount(now);
      if estimatedCount + cost as real <= limit as real {
        current := current.(count := current.count + cost);
        var left := (limit as real - estimatedCount - cost as real).Floor;
        r := RateLimitResult(true, limit, if left < 0 then 0 else left,
                             (current.start + windowSize) as real, None);
      } else {
        r := RateLimitResult(false, limit, 0, (current.start + windowSize) as real,
                             Some((current.start + windowSize) as real - now));
      }
    }

    method Reset(now: real)
      requires Model().Valid()
      modifies this
      ensures Model() == AfterReset(old(Model()), now)
    {
      current := Slot(WindowStart(windowSize, now), 0);
      previous := Slot(0, 0);
    }
  }
}
