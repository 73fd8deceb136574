/** Token bucket (`TokenBucketLimiter`): a fractional level refilled lazily at `refill_rate`
    tokens per second, capped at `capacity`; a request of cost `c` is admitted when the refilled
    level covers `c` and then lowers it by `c`. */
module TokenBucket {
  import opened Results

  /** The fields of a `TokenBucketLimiter`. */
  datatype Bucket = Bucket(capacity: nat, refillRate: real, tokens: real, lastRefill: real)
  {
    /** Object invariant: a positive rate and a level within [0, capacity]. */
    predicate Valid() {
      0.0 < refillRate && 0.0 <= tokens <= capacity as real
    }

    /** A call at `now` is well-formed: the invariant holds and the clock has not gone back
        past the last refill. */
    predicate Ready(now: real) {
      Valid() && lastRefill <= now
    }
  }

  /** The state `__init__` creates: a full bucket. */
  function Initial(capacity: nat, refillRate: real, now: real): (b: Bucket)
    requires refillRate > 0.0
    ensures b.Ready(now) && b.tokens == b.capacity as real
  {
    Bucket(capacity, refillRate, capacity as real, now)
  }

  /** The level after `_refill` at `now`: elapsed time times the rate, capped at capacity. */
  function Refilled(b: Bucket, now: real): (level: real)
    requires b.Ready(now)
    ensures b.tokens <= level <= b.capacity as real
  {
    Min(b.capacity as real, b.tokens + (now - b.lastRefill) * b.refillRate)
  }

  /** One `allow_request(cost)` at `now`: the new bucket and the decision. */
  function Allow(b: Bucket, cost: nat, now: real): (out: (Bucket, RateLimitResult))
    requires b.Ready(now)
    ensures out.0.Ready(now) && out.0.lastRefill == now
    ensures out.0.capacity == b.capacity && out.0.refillRate == b.refillRate
    ensures out.1.limit == b.capacity && 0 <= out.1.remaining <= b.capacity
  {
    var level := Refilled(b, now);
    if level >= cost as real then
      var left := level - cost as real;
      (Bucket(b.capacity, b.refillRate, left, now),
       RateLimitResult(true, b.capacity, left.Floor, now + (b.capacity as real - left) / b.refillRate, None))
    else
      var wait := (cost as real - level) / b.refillRate;
      (Bucket(b.capacity, b.refillRate, level, now),
       RateLimitResult(false, b.capacity, 0, now + wait, Some(wait)))
  }

  /** `reset()`: a full bucket refilled as of `now`, the configuration kept. */
  function AfterReset(b: Bucket, now: real): (b': Bucket)
    requires b.Valid()
    ensures b' == Initial(b.capacity, b.refillRate, now)
  {
    b.(tokens := b.capacity as real, lastRefill := now)
  }

  /** The call admits exactly when the refilled level covers the cost. An admission lowers the
      level by exactly the cost and reports its floor; a rejection keeps the refilled level,
      reports nothing remaining and a positive wait that the refill rate turns into exactly the
      missing tokens. */
  lemma AdmitsIffRefilledCoversCost(b: Bucket, cost: nat, now: real)
    requires b.Ready(now)
    ensures var (b', r) := Allow(b, cost, now);
      var level := Refilled(b, now);
      && (r.allowed <==> level >= cost as real)
      && (r.allowed ==> b'.tokens == level - cost as real && r.remaining == b'.tokens.Floor && r.retryAfter == None)
      && (!r.allowed ==> b'.tokens == level && r.remaining == 0 && r.retryAfter.Some?
                         && r.retryAfter.value > 0.0 && r.retryAfter.value * b.refillRate == cost as real - level)
  {
  }

  /** A request larger than the capacity can never be admitted (with a cost of at least one,
      a bucket of capacity 0 rejects everything). */
  lemma OversizedAlwaysRejected(b: Bucket, cost: nat, now: real)
    requires b.Ready(now) && cost > b.capacity
    ensures !Allow(b, cost, now).1.allowed
  {
  }

  /** Waiting the reported `retry_after` is enough: the same request, retried then on the
      bucket the rejection left, is admitted (when it fits the capacity at all). */
  lemma RetryAfterSuffices(b: Bucket, cost: nat, now: real)
    requires b.Ready(now) && cost <= b.capacity
    requires !Allow(b, cost, now).1.allowed
    ensures var (b', r) := Allow(b, cost, now);
      b'.Ready(now + r.retryAfter.value) && Allow(b', cost, now + r.retryAfter.value).1.allowed
  {
    var (b', r) := Allow(b, cost, now);
    var w := r.retryAfter.value;
    assert w * b.refillRate == cost as real - b'.tokens;
    assert (now + w - b'.lastRefill) * b'.refillRate == w * b.refillRate;
  }

  /** Waiting less than `retry_after` is not enough: the same request retried any earlier is
      rejected again. */
  lemma RetryAfterIsEarliest(b: Bucket, cost: nat, now: real, t: real)
    requires b.Ready(now) && !Allow(b, cost, now).1.allowed
    requires now <= t < now + Allow(b, cost, now).1.retryAfter.value
    ensures !Allow(Allow(b, cost, now).0, cost, t).1.allowed
  {
    var (b', r) := Allow(b, cost, now);
    var w := r.retryAfter.value;
    assert w * b.refillRate == cost as real - b'.tokens;
    assert (t - now) * b.refillRate < w * b.refillRate;
  }

  /** The in-place limiter: the fields of `TokenBucketLimiter`, updated as `_refill`,
      `allow_request` and `reset` update them. */
  class TokenBucketLimiter {
    const capacity: nat
    const refillRate: real
    var tokens: real
    var lastRefill: real

    /** The value of the fields. */
    function Model(): Bucket
      reads this
    {
      Bucket(capacity, refillRate, tokens, lastRefill)
    }

    constructor (capacity: nat, refillRate: real, now: real)
      requires refillRate > 0.0
      ensures Model() == Initial(capacity, refillRate, now)
    {
      this.capacity := capacity;
      this.refillRate := refillRate;
      tokens := capacity as real;
      lastRefill := now;
    }

    /** `_refill`: add elapsed time times the rate, capped at capacity. */
    method Refill(now: real)
      requires Model().Ready(now)
      modifies this
      ensures Model() == old(Model()).(tokens := Refilled(old(Model()), now), lastRefill := now)
    {
      var elapsed := now - lastRefill;
      var tokensToAdd := elapsed * refillRate;
      tokens := Min(capacity as real, tokens + tokensToAdd);
      lastRefill := now;
    }

    method AllowRequest(cost: nat, now: real) returns (r: RateLimitResult)
      requires Model().Ready(now)
      modifies this
      ensures Model().Ready(now)
      ensures (Model(), r) == Allow(old(Model()), cost, now)
    {
      Refill(now);
      if tokens >= cost as real {
        tokens := tokens - cost as real;
        r := RateLimitResult(true, capacity, tokens.Floor, now + (capacity as real - tokens) / refillRate, None);
      } else {
        var tokensNeeded := cost as real - tokens;
        var retryAfter := tokensNeeded / refillRate;
        r := RateLimitResult(false, capacity, 0, now + retryAfter, Some(retryAfter));
      }
    }

    method Reset(now: real)
      requires Model().Valid()
      modifies this
      ensures Model() == AfterReset(old(Model()), now)
    {
      tokens := capacity as real;
      lastRefill := now;
    }
  }
}
