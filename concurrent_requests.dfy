/** Concurrent-request limiter (`ConcurrentRequestsLimiter`): a count of the requests in
    flight, raised by an admission and lowered by `release`, never below zero. */
module ConcurrentRequests {
  import opened Results

  /** The fields of a `ConcurrentRequestsLimiter`. */
  datatype Gauge = Gauge(maxConcurrent: nat, active: nat)
  {
    /** Object invariant: no more requests in flight than the maximum. */
    predicate Valid() {
      active <= maxConcurrent
    }
  }

  /** The state `__init__` creates: nothing in flight. */
  function Initial(maxConcurrent: nat): (g: Gauge)
    ensures g.Valid() && g.active == 0
  {
    Gauge(maxConcurrent, 0)
  }

  /** One `allow_request(cost)`: the new count and the decision. There is no window, so the
      reset time is reported as 0 and a rejection has no known wait. */
  function Allow(g: Gauge, cost: nat): (out: (Gauge, RateLimitResult))
    requires g.Valid()
    ensures out.0.Valid() && out.0.maxConcurrent == g.maxConcurrent
    ensures out.1.limit == g.maxConcurrent && 0 <= out.1.remaining <= g.maxConcurrent
    ensures out.1.resetAt == 0.0
  {
    if g.active + cost <= g.maxConcurrent then
      var a := g.active + cost;
      (g.(active := a), RateLimitResult(true, g.maxConcurrent, g.maxConcurrent - a, 0.0, None))
    else
      (g, RateLimitResult(false, g.maxConcurrent, 0, 0.0, None))
  }

  /** `release(cost)`: the count lowered by `cost`, clamped at zero. */
  function Released(g: Gauge, cost: nat): (g': Gauge)
    requires g.Valid()
    ensures g'.Valid() && g'.maxConcurrent == g.maxConcurrent
    ensures g'.active <= g.active
    ensures g'.active == 0 || g'.active + cost == g.active
  {
    g.(active := if g.active <= cost then 0 else g.active - cost)
  }

  /** `reset()`: nothing in flight, the maximum kept. */
  function AfterReset(g: Gauge): (g': Gauge)
    requires g.Valid()
    ensures g' == Initial(g.maxConcurrent)
  {
    g.(active := 0)
  }

  /** The call admits exactly when the cost fits next to the requests in flight. An admission
      raises the count by exactly the cost and reports what is left; a rejection changes
      nothing and reports neither a reset time nor a wait. */
  lemma AdmitsIffCostFits(g: Gauge, cost: nat)
    requires g.Valid()
    ensures var (g', r) := Allow(g, cost);
      && (r.allowed <==> g.active + cost <= g.maxConcurrent)
      && (r.allowed ==> g'.active == g.active + cost && r.remaining == g.maxConcurrent - g'.active)
      && (!r.allowed ==> g' == g && r.remaining == 0 && r.resetAt == 0.0 && r.retryAfter == None)
  {
  }

  /** Releasing what an admission took undoes it exactly. */
  lemma ReleaseUndoesAdmission(g: Gauge, cost: nat)
    requires g.Valid() && Allow(g, cost).1.allowed
    ensures Released(Allow(g, cost).0, cost) == g
  {
  }

  /** Two releases are one release of the sum: the clamp at zero loses nothing in between. */
  lemma ReleasesAdd(g: Gauge, a: nat, b: nat)
    requires g.Valid()
    ensures Released(Released(g, a), b) == Released(g, a + b)
  {
  }

  /** A release never disables an admission: what was admitted before it is admitted after. */
  lemma ReleaseOnlyHelps(g: Gauge, a: nat, cost: nat)
    requires g.Valid() && Allow(g, cost).1.allowed
    ensures Allow(Released(g, a), cost).1.allowed
  {
  }

  /** With a maximum of 5: five single admissions, then a rejection; after `release(2)` two
      more admissions and then a rejection again. */
  lemma ReleaseReopensSlots()
    ensures var g0 := Initial(5);
      var (g1, r1) := Allow(g0, 1);
      var (g2, r2) := Allow(g1, 1);
      var (g3, r3) := Allow(g2, 1);
      var (g4, r4) := Allow(g3, 1);
      var (g5, r5) := Allow(g4, 1);
      var (g6, r6) := Allow(g5, 1);
      var g7 := Released(g6, 2);
      var (g8, r8) := Allow(g7, 1);
      var (g9, r9) := Allow(g8, 1);
      var (g10, r10) := Allow(g9, 1);
      r1.allowed && r2.allowed && r3.allowed && r4.allowed && r5.allowed && !r6.allowed
      && r8.allowed && r9.allowed && !r10.allowed && g10.active == 5
  {
  }

  /** The in-place limiter: the fields of `ConcurrentRequestsLimiter`. */
  class ConcurrentRequestsLimiter {
    const maxConcurrent: nat
    var activeRequests: nat

    /** The value of the fields. */
    function Model(): Gauge
      reads this
    {
      Gauge(maxConcurrent, activeRequests)
    }

    constructor (maxConcurrent: nat)
      ensures Model() == Initial(maxConcurrent)
    {
      this.maxConcurrent := maxConcurrent;
      activeRequests := 0;
    }

    method AllowRequest(cost: nat) returns (r: RateLimitResult)
      requires Model().Valid()
      modifies this
      ensures Model().Valid()
      ensures (Model(), r) == Allow(old(Model()), cost)
    {
      if activeRequests + cost <= maxConcurrent {
        activeRequests := activeRequests + cost;
        r := RateLimitResult(true, maxConcurrent, maxConcurrent - activeRequests, 0.0, None);
      } else {
        r := RateLimitResult(false, maxConcurrent, 0, 0.0, None);
      }
    }

    method Release(cost: nat)
      requires Model().Valid()
      modifies this
      ensures Model() == Released(old(Model()), cost)
    {
      activeRequests := if activeRequests <= cost then 0 else activeRequests - cost;
    }

    method Reset()
      requires Model().Valid()
      modifies this
      ensures Model() == AfterReset(old(Model()))
    {
      activeRequests := 0;
    }
  }
}
