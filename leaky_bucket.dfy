/** Leaky bucket (`LeakyBucketLimiter`): a FIFO queue of admitted slots, drained lazily by the
    whole number of slots `leak_rate` lets out since the last drain; a request of cost `c` is
    admitted when `c` more slots fit in `capacity`. */
module LeakyBucket {
  import opened Results

  /** The fields of a `LeakyBucketLimiter`; the deque holds the time each slot was queued. */
  datatype Bucket = Bucket(capacity: nat, leakRate: real, queue: seq<real>, lastLeak: real)
  {
    /** Object invariant: a positive rate and no more queued slots than the capacity. */
    predicate Valid() {
      0.0 < leakRate && |queue| <= capacity
    }

    /** A call at `now` is well-formed: the invariant holds and the clock has not gone back
        past the last drain. */
    predicate Ready(now: real) {
      Valid() && lastLeak <= now
    }
  }

  /** The state `__init__` creates: an empty queue. */
  function Initial(capacity: nat, leakRate: real, now: real): (b: Bucket)
    requires leakRate > 0.0
    ensures b.Ready(now) && b.queue == []
  {
    Bucket(capacity, leakRate, [], now)
  }

  /** How many slots `_leak` pops at `now`: the whole slots drained since the last leak, but no
      more than are queued. */
  function LeakCount(b: Bucket, now: real): (n: nat)
    requires b.Ready(now)
    ensures n <= |b.queue|
    ensures n == |b.queue| || n as real <= (now - b.lastLeak) * b.leakRate < (n + 1) as real
  {
    var drained := ((now - b.lastLeak) * b.leakRate).Floor;
    if drained <= |b.queue| then drained else |b.queue|
  }

  /** The bucket after `_leak` at `now`: the oldest slots popped, and the drain time moved to
      `now` even when a fraction of a slot was drained and is lost. */
  function Leaked(b: Bucket, now: real): (b': Bucket)
    requires b.Ready(now)
    ensures b'.Ready(now) && b'.lastLeak == now
    ensures b'.capacity == b.capacity && b'.leakRate == b.leakRate
    ensures b.queue == b.queue[..LeakCount(b, now)] + b'.queue
  {
    b.(queue := b.queue[LeakCount(b, now)..], lastLeak := now)
  }

  /** One `allow_request(cost)` at `now`: the new bucket and the decision. */
  function Allow(b: Bucket, cost: nat, now: real): (out: (Bucket, RateLimitResult))
    requires b.Ready(now)
    ensures out.0.Ready(now) && out.0.lastLeak == now
    ensures out.0.capacity == b.capacity && out.0.leakRate == b.leakRate
    ensures out.1.limit == b.capacity && 0 <= out.1.remaining <= b.capacity
  {
    var l := Leaked(b, now);
    if |l.queue| + cost <= b.capacity then
      var q := l.queue + Repeat(now, cost);
      (l.(queue := q),
       RateLimitResult(true, b.capacity, b.capacity - |q|, now + |q| as real / b.leakRate, None))
    else
      (l,
       RateLimitResult(false, b.capacity, 0, now + (|l.queue| - b.capacity) as real / b.leakRate,
                       Some((|l.queue| - b.capacity + cost) as real / b.leakRate)))
  }

  /** `reset()`: an empty queue drained as of `now`, the configuration kept. */
  function AfterReset(b: Bucket, now: real): (b': Bucket)
    requires b.Valid()
    ensures b' == Initial(b.capacity, b.leakRate, now)
  {
    b.(queue := [], lastLeak := now)
  }

  /** The call admits exactly when the cost fits next to the slots left after the drain. An
      admission appends exactly `cost` slots stamped `now` and reports the free slots; a
      rejection leaves the drained queue as it is and reports a positive wait that the leak
      rate turns into exactly the slots that must drain first. */
  lemma AdmitsIffCostFits(b: Bucket, cost: nat, now: real)
    requires b.Ready(now)
    ensures var (b', r) := Allow(b, cost, now);
      var drained := Leaked(b, now).queue;
      && (r.allowed <==> |drained| + cost <= b.capacity)
      && (r.allowed ==> b'.queue == drained + Repeat(now, cost) && r.remaining == b.capacity - |b'.queue|
                        && r.retryAfter == None)
      && (!r.allowed ==> b'.queue == drained && r.remaining == 0 && r.retryAfter.Some? && r.retryAfter.value > 0.0
                         && r.retryAfter.value * b.leakRate == (|drained| - b.capacity + cost) as real)
  {
  }

  /** Waiting the reported `retry_after` is enough: by then exactly the missing slots have
      drained, and the same request (if it fits the capacity at all) is admitted. */
  lemma RetryAfterSuffices(b: Bucket, cost: nat, now: real)
    requires b.Ready(now) && cost <= b.capacity
    requires !Allow(b, cost, now).1.allowed
    ensures var (b', r) := Allow(b, cost, now);
      b'.Ready(now + r.retryAfter.value) && Allow(b', cost, now + r.retryAfter.value).1.allowed
  {
    var (b', r) := Allow(b, cost, now);
    var w := r.retryAfter.value;
    var d := |b'.queue| - b.capacity + cost;
    assert w * b.leakRate == d as real;
    assert (now + w - b'.lastLeak) * b'.leakRate == d as real;
    assert LeakCount(b', now + w) == d;
  }

  /** Waiting less than `retry_after` is not enough: too few slots have drained by then. */
  lemma RetryAfterIsEarliest(b: Bucket, cost: nat, now: real, t: real)
    requires b.Ready(now) && !Allow(b, cost, now).1.allowed
    requires now <= t < now + Allow(b, cost, now).1.retryAfter.value
    ensures !Allow(Allow(b, cost, now).0, cost, t).1.allowed
  {
    var (b', r) := Allow(b, cost, now);
    var w := r.retryAfter.value;
    var d := |b'.queue| - b.capacity + cost;
    assert w * b.leakRate == d as real;
    assert (t - b'.lastLeak) * b'.leakRate < d as real;
    assert ((t - b'.lastLeak) * b'.leakRate).Floor < d;
  }

  /** The in-place limiter: the fields of `LeakyBucketLimiter`, the deque as a sequence whose
      front is the oldest slot. */
  class LeakyBucketLimiter {
    const capacity: nat
    const leakRate: real
    var queue: seq<real>
    var lastLeak: real

    /** The value of the fields. */
    function Model(): Bucket
      reads this
    {
      Bucket(capacity, leakRate, queue, lastLeak)
    }

    constructor (capacity: nat, leakRate: real, now: real)
      requires leakRate > 0.0
      ensures Model() == Initial(capacity, leakRate, now)
    {
      this.capacity := capacity;
      this.leakRate := leakRate;
      queue := [];
      lastLeak := now;
    }

    /** `_leak`: pop the drained slots one by one from the front. */
    method Leak(now: real)
      requires Model().Ready(now)
      modifies this
      ensures Model() == Leaked(old(Model()), now)
    {
      var elapsed := now - lastLeak;
      var requestsToLeak := (elapsed * leakRate).Floor;
      var n := if requestsToLeak <= |queue| then requestsToLeak else |queue|;
      assert n == LeakCount(Model(), now);
      for i := 0 to n
        invariant queue == old(queue)[i..]
      {
        queue := queue[1..];
      }
      lastLeak := now;
    }

    /** The `for _ in range(cost): append(now)` loop: `n` slots stamped `now` at the back. */
    method AppendSlots(now: real, n: nat)
      modifies this
      ensures queue == old(queue) + Repeat(now, n) && lastLeak == old(lastLeak)
    {
      for i := 0 to n
        invariant queue == old(queue) + Repeat(now, i) && lastLeak == old(lastLeak)
      {
        assert Repeat(now, i + 1) == Repeat(now, i) + [now];
        queue := queue + [now];
      }
    }

    method AllowRequest(cost: nat, now: real) returns (r: RateLimitResult)
      requires Model().Ready(now)
      modifies this
      ensures Model().Ready(now)
      ensures (Model(), r) == Allow(old(Model()), cost, now)
    {
      Leak(now);
      if |queue| + cost <= capacity {
        AppendSlots(now, cost);
        r := RateLimitResult(true, capacity, capacity - |queue|, now + |queue| as real / leakRate, None);
      } else {
        r := RateLimitResult(false, capacity, 0, now + (|queue| - capacity) as real / leakRate,
                             Some((|queue| - capacity + cost) as real / leakRate));
      }
    }

    method Reset(now: real)
      requires Model().Valid()
      modifies this
      ensures Model() == AfterReset(old(Model()), now)
    {
      queue := [];
      lastLeak := now;
    }
  }
}
