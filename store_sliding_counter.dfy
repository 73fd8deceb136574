/** `RedisSlidingWindowCounter`: one store counter per identifier and fixed window, and one
    atomic script that blends the counter of the current window with the counter of the window
    just before it. Unlike the in-process counter, the blended estimate is floored before it is
    compared, and the previous window is always the adjacent one, so a window further back never
    counts. */
module StoreSlidingCounter {
  import opened Results
  import opened Store
  import opened TimeWindows
  import StoreKeys
  import SlidingWindowCounter

  /** The configuration of a `RedisSlidingWindowCounter`; times are seconds. */
  datatype Config = Config(prefix: string, windowSize: int, limit: nat)
  {
    predicate Valid() {
      windowSize > 0
    }
  }

  /** What the script returns: `{allowed, remaining, estimated_count}`. */
  datatype ScriptReply = ScriptReply(allowed: bool, remaining: int, estimated: int)

  /** `estimated_count`: the previous count weighted by the part of the previous window that
      still overlaps the sliding window, floored, plus the current count. */
  function Estimate(previous: int, current: int, windowSize: int, elapsed: real): int
    requires windowSize > 0
  {
    var overlap := (windowSize as real - elapsed) / windowSize as real;
    (previous as real * overlap).Floor + current
  }

  /** `SLIDING_WINDOW_SCRIPT` on the two keys: read both counters (a missing one as 0), estimate,
      and add the cost to the current counter when it fits. */
  function Script(st: Store, currentKey: string, previousKey: string, windowSize: int, limit: nat,
                  tokens: nat, now: real, windowStart: int): (out: (Store, ScriptReply))
    requires windowSize > 0
    ensures out.1.allowed <==> out.1.estimated + tokens <= limit
    ensures out.1.remaining >= 0
    ensures !out.1.allowed ==> out.0 == st
    ensures out.0.hashes == st.hashes && out.0.zsets == st.zsets
  {
    var current := CountOf(st, currentKey);
    var previous := CountOf(st, previousKey);
    var estimated := Estimate(previous, current, windowSize, now - windowStart as real);
    if estimated + tokens <= limit then
      (IncrBy(st, currentKey, tokens), ScriptReply(true, limit - estimated - tokens, estimated))
    else
      (st, ScriptReply(false, 0, estimated))
  }

  /** The counter of `identifier` for the window containing `now`. */
  function CurrentKey(c: Config, identifier: string, now: real): string
    requires c.Valid()
  {
    StoreKeys.WindowKey(c.prefix, identifier, WindowStart(c.windowSize, now))
  }

  /** The counter of `identifier` for the window just before the one containing `now`. */
  function PreviousKey(c: Config, identifier: string, now: real): string
    requires c.Valid()
  {
    StoreKeys.WindowKey(c.prefix, identifier, WindowStart(c.windowSize, now) - c.windowSize)
  }

  /** The estimate the script computes for `identifier` at `now`. */
  function EstimateAt(c: Config, st: Store, identifier: string, now: real): int
    requires c.Valid()
  {
    Estimate(CountOf(st, PreviousKey(c, identifier, now)), CountOf(st, CurrentKey(c, identifier, now)),
             c.windowSize, now - WindowStart(c.windowSize, now) as real)
  }

  /** `allow_request(identifier, tokens)` at `now`: run the script on the current and previous
      window keys and turn its reply into a result. */
  function AllowRequest(c: Config, st: Store, identifier: string, cost: nat, now: real)
    : (out: (Store, RateLimitResult))
    requires c.Valid()
    ensures out.1.limit == c.limit && 0 <= out.1.remaining && now < out.1.resetAt
    ensures out.1.retryAfter.Some? <==> !out.1.allowed
    ensures out.1.retryAfter.Some? ==> 0.0 < out.1.retryAfter.value <= c.windowSize as real
  {
    var start := WindowStart(c.windowSize, now);
    var (st', reply) := Script(st, CurrentKey(c, identifier, now), PreviousKey(c, identifier, now),
                               c.windowSize, c.limit, cost, now, start);
    var end := (start + c.windowSize) as real;
    (st', RateLimitResult(reply.allowed, c.limit, if reply.remaining < 0 then 0 else reply.remaining, end,
                          if !reply.allowed then Some(end - now) else None))
  }

  /** The two keys the script reads are different strings. */
  lemma KeysDiffer(c: Config, identifier: string, now: real)
    requires c.Valid()
    ensures CurrentKey(c, identifier, now) != PreviousKey(c, identifier, now)
  {
    var start := WindowStart(c.windowSize, now);
    if CurrentKey(c, identifier, now) == PreviousKey(c, identifier, now) {
      StoreKeys.WindowKeysAreDistinct(c.prefix, identifier, start, identifier, start - c.windowSize);
    }
  }

  /** Inside the current window, with a non-negative previous count, the estimate lies between
      the current count and the sum of both counts; at the window's start the previous count
      weighs in full. */
  lemma EstimateBounds(previous: int, current: int, windowSize: int, elapsed: real)
    requires windowSize > 0 && 0 <= previous && 0.0 <= elapsed < windowSize as real
    ensures current <= Estimate(previous, current, windowSize, elapsed) <= current + previous
    ensures elapsed == 0.0 ==> Estimate(previous, current, windowSize, elapsed) == current + previous
  {
    var w := windowSize as real;
    var overlap := (w - elapsed) / w;
    SlidingWindowCounter.DivideKeepsOrder(0.0, w - elapsed, w);
    SlidingWindowCounter.DivideKeepsOrder(w - elapsed, w, w);
    assert 0.0 <= overlap <= 1.0;
    var p := previous as real;
    if p > 0.0 {
      ScaleLe(overlap, 1.0, p);
      ScaleLe(0.0, overlap, p);
    }
    assert 0.0 <= p * overlap <= p;
  }

  /** With a non-negative previous count the estimate only decays as the clock moves on within
      the window. */
  lemma EstimateDecays(previous: int, current: int, windowSize: int, e1: real, e2: real)
    requires windowSize > 0 && 0 <= previous && e1 <= e2
    ensures Estimate(previous, current, windowSize, e2) <= Estimate(previous, current, windowSize, e1)
  {
    var w := windowSize as real;
    var o1, o2 := (w - e1) / w, (w - e2) / w;
    SlidingWindowCounter.DivideKeepsOrder(w - e2, w - e1, w);
    var p := previous as real;
    if p > 0.0 {
      ScaleLe(o2, o1, p);
    }
    assert p * o2 <= p * o1;
  }

  /** The script never replies a negative `remaining`, so the wrapper's `max(0, remaining)`
      changes nothing. */
  lemma ClampChangesNothing(c: Config, st: Store, identifier: string, cost: nat, now: real)
    requires c.Valid()
    ensures var reply := Script(st, CurrentKey(c, identifier, now), PreviousKey(c, identifier, now),
                                c.windowSize, c.limit, cost, now, WindowStart(c.windowSize, now)).1;
      reply.remaining >= 0 && AllowRequest(c, st, identifier, cost, now).1.remaining == reply.remaining
  {
  }

  /** The call admits exactly when the estimate leaves room for the cost. An admission adds
      exactly the cost to the current window's counter and reports what is left of the limit
      next to the estimate; a rejection leaves the store as it was and reports a wait of at most
      one window, ending where the current window ends. */
  lemma AdmitsIffEstimateFits(c: Config, st: Store, identifier: string, cost: nat, now: real)
    requires c.Valid()
    ensures var key := CurrentKey(c, identifier, now);
      var est := EstimateAt(c, st, identifier, now);
      var (st', r) := AllowRequest(c, st, identifier, cost, now);
      && r.limit == c.limit
      && r.resetAt == (WindowStart(c.windowSize, now) + c.windowSize) as real
      && (r.allowed <==> est + cost <= c.limit)
      && (r.allowed ==> st' == IncrBy(st, key, cost) && r.remaining == c.limit - est - cost
                        && r.retryAfter == None)
      && (!r.allowed ==> st' == st && r.remaining == 0 && r.retryAfter.Some?
                         && 0.0 < r.retryAfter.value <= c.windowSize as real
                         && now + r.retryAfter.value == r.resetAt)
  {
  }

  /** With non-negative counts and the current count within the limit, the current count stays
      within the limit, since the estimate is never below it. */
  lemma CountStaysWithinLimit(c: Config, st: Store, identifier: string, cost: nat, now: real)
    requires c.Valid()
    requires 0 <= CountOf(st, PreviousKey(c, identifier, now))
    requires 0 <= CountOf(st, CurrentKey(c, identifier, now)) <= c.limit
    ensures 0 <= CountOf(AllowRequest(c, st, identifier, cost, now).0, CurrentKey(c, identifier, now)) <= c.limit
  {
    var key := CurrentKey(c, identifier, now);
    var start := WindowStart(c.windowSize, now);
    EstimateBounds(CountOf(st, PreviousKey(c, identifier, now)), CountOf(st, key), c.windowSize, now - start as real);
    AdmitsIffEstimateFits(c, st, identifier, cost, now);
    IncrByChangesOneCounter(st, key, cost, key);
  }

  /** The call changes no other counter, the previous window's included: only the current
      window's counter of this identifier can move. */
  lemma OtherCountersUntouched(c: Config, st: Store, identifier: string, cost: nat, now: real,
                               other: string, start: int)
    requires c.Valid()
    requires other != identifier || start != WindowStart(c.windowSize, now)
    ensures var st' := AllowRequest(c, st, identifier, cost, now).0;
      var k := StoreKeys.WindowKey(c.prefix, other, start);
      CountOf(st', k) == CountOf(st, k) && st'.hashes == st.hashes && st'.zsets == st.zsets
  {
    var key := CurrentKey(c, identifier, now);
    var k := StoreKeys.WindowKey(c.prefix, other, start);
    if k == key {
      StoreKeys.WindowKeysAreDistinct(c.prefix, other, start, identifier, WindowStart(c.windowSize, now));
    }
    AdmitsIffEstimateFits(c, st, identifier, cost, now);
    IncrByChangesOneCounter(st, key, cost, k);
  }

  /** The decision reads only the two adjacent windows: two stores that agree on those two
      counters give the same result. */
  lemma OnlyAdjacentWindowsCount(c: Config, st1: Store, st2: Store, identifier: string, cost: nat, now: real)
    requires c.Valid()
    requires CountOf(st1, CurrentKey(c, identifier, now)) == CountOf(st2, CurrentKey(c, identifier, now))
    requires CountOf(st1, PreviousKey(c, identifier, now)) == CountOf(st2, PreviousKey(c, identifier, now))
    ensures AllowRequest(c, st1, identifier, cost, now).1 == AllowRequest(c, st2, identifier, cost, now).1
  {
  }

  /** Retrying before `retry_after` has passed stays in the same window, whose counters the
      rejection left alone, with an estimate that can only have decayed: with a non-negative
      previous count, the same request is rejected again unless the decay alone makes room. */
  lemma RetryBeforeDeadlineDecays(c: Config, st: Store, identifier: string, cost: nat, now: real, t: real)
    requires c.Valid() && 0 <= CountOf(st, PreviousKey(c, identifier, now))
    requires !AllowRequest(c, st, identifier, cost, now).1.allowed
    requires now <= t < now + AllowRequest(c, st, identifier, cost, now).1.retryAfter.value
    ensures var st' := AllowRequest(c, st, identifier, cost, now).0;
      && CurrentKey(c, identifier, t) == CurrentKey(c, identifier, now)
      && EstimateAt(c, st', identifier, t) <= EstimateAt(c, st, identifier, now)
  {
    AdmitsIffEstimateFits(c, st, identifier, cost, now);
    StaysInWindow(c.windowSize, now, t);
    var start := WindowStart(c.windowSize, now);
    EstimateDecays(CountOf(st, PreviousKey(c, identifier, now)), CountOf(st, CurrentKey(c, identifier, now)),
                   c.windowSize, now - start as real, t - start as real);
  }

  /** Retrying at `now + retry_after` enters the next window: the counter read as current at the
      rejection becomes the previous one and weighs in full, so the request is admitted exactly
      when it fits next to that count and the next window's own count. */
  lemma RetryAfterWeighsPreviousInFull(c: Config, st: Store, identifier: string, cost: nat, now: real)
    requires c.Valid() && !AllowRequest(c, st, identifier, cost, now).1.allowed
    ensures var (st', r) := AllowRequest(c, st, identifier, cost, now);
      var t := now + r.retryAfter.value;
      var next := StoreKeys.WindowKey(c.prefix, identifier, WindowStart(c.windowSize, now) + c.windowSize);
      && PreviousKey(c, identifier, t) == CurrentKey(c, identifier, now)
      && CurrentKey(c, identifier, t) == next
      && (AllowRequest(c, st', identifier, cost, t).1.allowed <==>
            CountOf(st, CurrentKey(c, identifier, now)) + CountOf(st, next) + cost <= c.limit)
  {
    AdmitsIffEstimateFits(c, st, identifier, cost, now);
    AtNextWindowStart(c, st, identifier, cost, now);
  }

  /** At the start of the window after the one containing `now`, the keys move on by one
      window and the estimate is the sum of the two counters. */
  lemma AtNextWindowStart(c: Config, st: Store, identifier: string, cost: nat, now: real)
    requires c.Valid()
    ensures var t := (WindowStart(c.windowSize, now) + c.windowSize) as real;
      var next := StoreKeys.WindowKey(c.prefix, identifier, WindowStart(c.windowSize, now) + c.windowSize);
      && PreviousKey(c, identifier, t) == CurrentKey(c, identifier, now)
      && CurrentKey(c, identifier, t) == next
      && (AllowRequest(c, st, identifier, cost, t).1.allowed <==>
            CountOf(st, CurrentKey(c, identifier, now)) + CountOf(st, next) + cost <= c.limit)
  {
    var t := (WindowStart(c.windowSize, now) + c.windowSize) as real;
    NextWindowKeys(c, identifier, now);
    EstimateAtWindowStart(CountOf(st, PreviousKey(c, identifier, t)), CountOf(st, CurrentKey(c, identifier, t)),
                          c.windowSize);
    AdmitsIffEstimateFits(c, st, identifier, cost, t);
  }

  /** The window after the one containing `now` starts at a whole window later, and its keys
      are the next one and the current one. */
  lemma NextWindowKeys(c: Config, identifier: string, now: real)
    requires c.Valid()
    ensures var s := WindowStart(c.windowSize, now);
      var t := (s + c.windowSize) as real;
      && WindowStart(c.windowSize, t) == s + c.windowSize
      && t - WindowStart(c.windowSize, t) as real == 0.0
      && PreviousKey(c, identifier, t) == CurrentKey(c, identifier, now)
      && CurrentKey(c, identifier, t) == StoreKeys.WindowKey(c.prefix, identifier, s + c.windowSize)
  {
    NextWindowStart(c.windowSize, now);
  }

  /** At the very start of a window the previous count weighs in full, whatever its sign. */
  lemma EstimateAtWindowStart(previous: int, current: int, windowSize: int)
    requires windowSize > 0
    ensures Estimate(previous, current, windowSize, 0.0) == previous + current
  {
    assert (windowSize as real - 0.0) / windowSize as real == 1.0;
  }

  /** Where the in-process counter, after its window check, holds the same two counts for the
      same two adjacent windows, the store-backed call admits at least whenever the in-process
      one does: flooring only lowers the estimate. */
  lemma AdmitsWhereLocalAdmits(c: Config, st: Store, identifier: string, w: SlidingWindowCounter.Counter,
                               cost: nat, now: real)
    requires c.Valid() && w.Valid() && w.windowSize == c.windowSize && w.limit == c.limit
    requires var v := SlidingWindowCounter.Shifted(w, now);
      && v.previous.start == v.current.start - c.windowSize
      && CountOf(st, PreviousKey(c, identifier, now)) == v.previous.count
      && CountOf(st, CurrentKey(c, identifier, now)) == v.current.count
    requires SlidingWindowCounter.Allow(w, cost, now).1.allowed
    ensures AllowRequest(c, st, identifier, cost, now).1.allowed
  {
    var v := SlidingWindowCounter.Shifted(w, now);
    SlidingWindowCounter.AdmitsIffEstimateFits(w, cost, now);
    FloorOfLocalEstimate(v, now);
    AdmitsIffEstimateFits(c, st, identifier, cost, now);
  }

  /** The store's estimate is the in-process estimate with the weighted previous count
      floored. */
  lemma FloorOfLocalEstimate(v: SlidingWindowCounter.Counter, now: real)
    requires v.Valid() && v.current.start == WindowStart(v.windowSize, now)
    ensures Estimate(v.previous.count, v.current.count, v.windowSize, now - v.current.start as real) as real
      <= SlidingWindowCounter.Estimate(v, now)
  {
    var ws := v.windowSize as real;
    var elapsed := now - v.current.start as real;
    SlidingWindowCounter.DivideKeepsOrder(0.0, ws - elapsed, ws);
    var overlap := (ws - elapsed) / ws;
    assert Max(0.0, overlap) == overlap;
    var x := v.previous.count as real * overlap;
    assert SlidingWindowCounter.Estimate(v, now) == x + v.current.count as real;
    assert Estimate(v.previous.count, v.current.count, v.windowSize, elapsed) == x.Floor + v.current.count;
  }

  /** The converse fails: one previous request half a window back floors away, so a store-backed
      call admits a request that the in-process counter, holding the same counts, rejects. */
  lemma FlooringAdmitsWhereLocalRejects()
    ensures var w := SlidingWindowCounter.Counter(2, 10, SlidingWindowCounter.Slot(2, 9), SlidingWindowCounter.Slot(0, 1));
      var st := IncrBy(IncrBy(Empty(), "rate_limit:user:2", 9), "rate_limit:user:0", 1);
      && !SlidingWindowCounter.Allow(w, 1, 3.0).1.allowed
      && AllowRequest(Config("rate_limit", 2, 10), st, "user", 1, 3.0).1.allowed
  {
    WindowStartIsUnique(2, 3.0, 1);
    var c := Config("rate_limit", 2, 10);
    var st := IncrBy(IncrBy(Empty(), "rate_limit:user:2", 9), "rate_limit:user:0", 1);
    assert StoreKeys.IntToDecimal(2) == "2" && StoreKeys.IntToDecimal(0) == "0";
    assert CurrentKey(c, "user", 3.0) == "rate_limit:user:2";
    assert PreviousKey(c, "user", 3.0) == "rate_limit:user:0";
    assert CountOf(st, "rate_limit:user:2") == 9;
    assert EstimateAt(c, st, "user", 3.0) == 9;
  }

  /** After an idle gap the window further back is forgotten: a full window [0, 1) no longer
      counts at 5.0, where the in-process counter still weighs it in full and rejects. */
  lemma SkippedWindowsAreForgotten()
    ensures var st := IncrBy(Empty(), "rate_limit:user:0", 10);
      AllowRequest(Config("rate_limit", 1, 10), st, "user", 1, 5.0).1.allowed
  {
    WindowStartIsUnique(1, 5.0, 5);
    var c := Config("rate_limit", 1, 10);
    var st := IncrBy(Empty(), "rate_limit:user:0", 10);
    assert StoreKeys.IntToDecimal(5) == "5" && StoreKeys.IntToDecimal(4) == "4";
    assert CurrentKey(c, "user", 5.0) == "rate_limit:user:5";
    assert PreviousKey(c, "user", 5.0) == "rate_limit:user:4";
    assert CountOf(st, "rate_limit:user:5") == 0 && CountOf(st, "rate_limit:user:4") == 0;
  }
}
