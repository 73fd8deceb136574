/** `RedisFixedWindow`: one store counter per identifier and window, under
    `prefix:identifier:<window start>`. A call reads the counter and, when the cost fits, adds the
    cost to it; a rejection writes nothing. */
module StoreFixedWindow {
  import opened Results
  import opened Store
  import opened TimeWindows
  import StoreKeys
  import FixedWindow

  /** The configuration of a `RedisFixedWindow`; times are seconds. */
  datatype Config = Config(prefix: string, windowSize: int, limit: nat)
  {
    predicate Valid() {
      windowSize > 0
    }
  }

  /** The counter of `identifier` for the window containing `now`. */
  function WindowKey(c: Config, identifier: string, now: real): string
    requires c.Valid()
  {
    StoreKeys.WindowKey(c.prefix, identifier, WindowStart(c.windowSize, now))
  }

  /** `allow_request(identifier, tokens)` at `now`: the store after the call and the result. */
  function AllowRequest(c: Config, st: Store, identifier: string, cost: nat, now: real)
    : (out: (Store, RateLimitResult))
    requires c.Valid()
    ensures out.1.limit == c.limit && now < out.1.resetAt
    ensures out.1.allowed ==> out.1.remaining >= 0 && out.1.retryAfter.None?
    ensures !out.1.allowed ==> out.0 == st && out.1.retryAfter.Some? && out.1.retryAfter.value > 0.0
  {
    var start := WindowStart(c.windowSize, now);
    var key := StoreKeys.WindowKey(c.prefix, identifier, start);
    var count := CountOf(st, key);
    var end := (start + c.windowSize) as real;
    if count + cost <= c.limit then
      (IncrBy(st, key, cost), RateLimitResult(true, c.limit, c.limit - count - cost, end, None))
    else
      (st, RateLimitResult(false, c.limit, 0, end, Some(end - now)))
  }

  /** The call admits exactly when the cost fits next to the current window's count. An
      admission adds exactly the cost to that one counter and reports what is left of the
      limit; a rejection leaves the store as it was and reports a wait of at most one window,
      ending at the next window start. */
  lemma AdmitsIffCountFits(c: Config, st: Store, identifier: string, cost: nat, now: real)
    requires c.Valid()
    ensures var key := WindowKey(c, identifier, now);
      var before := CountOf(st, key);
      var (st', r) := AllowRequest(c, st, identifier, cost, now);
      && r.limit == c.limit
      && r.resetAt == (WindowStart(c.windowSize, now) + c.windowSize) as real
      && (r.allowed <==> before + cost <= c.limit)
      && (r.allowed ==> st' == IncrBy(st, key, cost) && CountOf(st', key) == before + cost
                        && r.remaining == c.limit - CountOf(st', key) && r.retryAfter == None)
      && (!r.allowed ==> st' == st && r.remaining == 0 && r.retryAfter.Some?
                         && 0.0 < r.retryAfter.value <= c.windowSize as real
                         && now + r.retryAfter.value == r.resetAt)
  {
    IncrByChangesOneCounter(st, WindowKey(c, identifier, now), cost, WindowKey(c, identifier, now));
  }

  /** A window's count that starts within `[0, limit]` stays there, and the reported remaining
      lies in `[0, limit]` too. */
  lemma CountStaysWithinLimit(c: Config, st: Store, identifier: string, cost: nat, now: real)
    requires c.Valid()
    requires 0 <= CountOf(st, WindowKey(c, identifier, now)) <= c.limit
    ensures var (st', r) := AllowRequest(c, st, identifier, cost, now);
      && 0 <= CountOf(st', WindowKey(c, identifier, now)) <= c.limit
      && 0 <= r.remaining <= c.limit
  {
    AdmitsIffCountFits(c, st, identifier, cost, now);
  }

  /** The call changes no other counter: the windows of other identifiers, and other windows of
      the same identifier, keep their counts, whatever colons the identifiers contain. */
  lemma OtherWindowsUntouched(c: Config, st: Store, identifier: string, cost: nat, now: real,
                              other: string, start: int)
    requires c.Valid()
    requires other != identifier || start != WindowStart(c.windowSize, now)
    ensures var st' := AllowRequest(c, st, identifier, cost, now).0;
      && CountOf(st', StoreKeys.WindowKey(c.prefix, other, start)) == CountOf(st, StoreKeys.WindowKey(c.prefix, other, start))
      && st'.hashes == st.hashes && st'.zsets == st.zsets
  {
    var key := WindowKey(c, identifier, now);
    var k := StoreKeys.WindowKey(c.prefix, other, start);
    if k == key {
      StoreKeys.WindowKeysAreDistinct(c.prefix, other, start, identifier, WindowStart(c.windowSize, now));
    }
    IncrByChangesOneCounter(st, key, cost, k);
  }

  /** Retrying before `retry_after` has passed stays in the same window, whose count the
      rejection left alone, and is rejected again. */
  lemma RetryAfterIsEarliest(c: Config, st: Store, identifier: string, cost: nat, now: real, t: real)
    requires c.Valid() && !AllowRequest(c, st, identifier, cost, now).1.allowed
    requires now <= t < now + AllowRequest(c, st, identifier, cost, now).1.retryAfter.value
    ensures !AllowRequest(c, AllowRequest(c, st, identifier, cost, now).0, identifier, cost, t).1.allowed
  {
    AdmitsIffCountFits(c, st, identifier, cost, now);
    StaysInWindow(c.windowSize, now, t);
  }

  /** At `now + retry_after` the call reads the next window's counter, which the rejection did
      not touch: the request is admitted exactly when it fits next to whatever that counter
      already holds, and so always when the counter is still empty and the cost fits the
      limit. */
  lemma RetryAfterReadsNextWindow(c: Config, st: Store, identifier: string, cost: nat, now: real)
    requires c.Valid() && !AllowRequest(c, st, identifier, cost, now).1.allowed
    ensures var (st', r) := AllowRequest(c, st, identifier, cost, now);
      var next := StoreKeys.WindowKey(c.prefix, identifier, WindowStart(c.windowSize, now) + c.windowSize);
      AllowRequest(c, st', identifier, cost, now + r.retryAfter.value).1.allowed <==>
        CountOf(st, next) + cost <= c.limit
  {
    AdmitsIffCountFits(c, st, identifier, cost, now);
    NextWindowStart(c.windowSize, now);
  }

  /** With the store's count for the current window equal to the in-process limiter's count
      after its rollover check, the store-backed call decides and reports as
      `FixedWindow.Allow` does and leaves the counter at the in-process limiter's new count. */
  lemma MatchesLocalWindow(c: Config, st: Store, identifier: string, w: FixedWindow.Window, cost: nat, now: real)
    requires c.Valid() && w.Valid()
    requires w.windowSize == c.windowSize && w.limit == c.limit
    requires CountOf(st, WindowKey(c, identifier, now)) == FixedWindow.Rolled(w, now).count
    ensures var (st', r) := AllowRequest(c, st, identifier, cost, now);
      var (w', r') := FixedWindow.Allow(w, cost, now);
      r == r' && CountOf(st', WindowKey(c, identifier, now)) == w'.count
  {
    AdmitsIffCountFits(c, st, identifier, cost, now);
    FixedWindow.AdmitsIffCountFits(w, cost, now);
  }
}
