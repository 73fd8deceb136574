# Rate limiters: a verified Dafny model

This project models the admission logic of a rate-limiting library written in Python.

The first part covers the six in-process limiters of `implementations/python/rate_limiter.py`:
- the token bucket;
- the leaky bucket;
- the fixed window;
- the sliding-window log;
- the sliding-window counter;
- the concurrent-request limiter.

It also covers `MultiTierLimiter.allow_request`, which runs several of them in order.

The second part covers the store-backed limiters of `implementations/python/redis_rate_limiter.py`:
- the key scheme of `_make_key`;
- the two Lua scripts (`TOKEN_BUCKET_SCRIPT` and `SLIDING_WINDOW_SCRIPT`);
- the read-then-write sequences of `RedisFixedWindow` and `RedisSlidingWindowLog`.

Each in-process limiter is modelled twice (the store-backed limiters exist only as functions over the store, described below):
- **Value layer.** A datatype holds the Python object's fields, and pure functions take one `allow_request` step (`Allow`), `reset` (`AfterReset`) or `release` (`Released`). The lemmas about the limiter are stated over these functions: admit-iff conditions, what an admission and a rejection change, bounds, and what the reported `retry_after` guarantees.
- **Class layer.** A class has the same fields, and its methods update them in place. The sliding log has a `while … popleft` loop. The leaky bucket has a drain loop and an `append` loop. `MultiTierLimiter` loops over its members. Each method is proved to leave the fields equal to the value-layer function applied to the old fields.

The clock (`time.time()`) is an explicit `now: real` argument. A limiter whose invariant depends on time requires that `now` has not gone back past the time its state was last updated. There are three: the token bucket, the leaky bucket and the sliding log.

The shared store is a value `Store` with three keyspaces, and each store-backed limiter is a function from the store to the new store and the result:
- hashes, used by the token bucket;
- integer counters, used by the fixed window and the sliding counter;
- sorted sets with one entry per member name, kept in score order, used by the sliding log.

Each Lua script is one atomic transition. Each pipeline of the fixed window and the sliding log is one sequential step. The store-backed limiters are related to their in-process counterparts by lemmas, and where they differ, lemmas show how:
- absent keys read as a full bucket or a zero count;
- elapsed time is clamped at 0;
- the counter estimate is floored;
- a rejected token-bucket request reports the floor of the refilled level as `remaining`, where the in-process bucket reports 0.

Modules:
- **`Results`**: the result record, `Option`, `Min`/`Max`, `Repeat`.
- **`TimeWindows`**: `int(now // size) * size` and its lemmas.
- **In-process limiters**: `TokenBucket`, `LeakyBucket`, `FixedWindow`, `SlidingWindowLog`, `SlidingWindowCounter`, `ConcurrentRequests`, `MultiTier`.
- **Store layer**: `Store` (the store commands), `StoreKeys` (`_make_key` and decimal window starts).
- **Store-backed limiters**: `StoreTokenBucket`, `StoreFixedWindow`, `StoreSlidingCounter`, `StoreSlidingLog`.

## Model

| member | source | states |
|---|---|---|
| TimeWindows.WindowStart | implementations/python/rate_limiter.py:180-182 | `int(now // size) * size` is a multiple of the size with `start <= now < start + size` |
| TimeWindows.WindowStartIsUnique | implementations/python/rate_limiter.py:180-182 | any multiple `k * size` whose window contains `now` is the window start |
| TimeWindows.NextWindowStart | implementations/python/rate_limiter.py:180-182 | the window start of `start + size` is `start + size`: the next window begins exactly at the current window's reset time |
| TimeWindows.StaysInWindow | implementations/python/rate_limiter.py:180-182 | every time before the current window's end has the same window start |
| Results.Repeat | implementations/python/rate_limiter.py:137-138 | `n` copies of a value, as `for _ in range(n): append(x)` produces |
| TokenBucket.Initial | implementations/python/rate_limiter.py:56-60 | a new bucket is full and callable at its creation time |
| TokenBucket.Refilled | implementations/python/rate_limiter.py:63-69 | the refill never lowers the level and never passes the capacity |
| TokenBucket.Allow | implementations/python/rate_limiter.py:71-94 | a step keeps the level within `[0, capacity]`, moves `last_refill` to `now`, keeps the configuration, and reports `limit = capacity` and `0 <= remaining <= capacity` |
| TokenBucket.AfterReset | implementations/python/rate_limiter.py:96-99 | `reset` gives the initial full bucket with the same capacity and rate |
| TokenBucket.AdmitsIffRefilledCoversCost | implementations/python/rate_limiter.py:71-94 | admits iff the refilled level covers the cost; an admission lowers the level by exactly the cost and reports its floor; a rejection keeps the refilled level and reports `remaining = 0` and `retry_after > 0` with `retry_after * rate = cost - level` |
| TokenBucket.OversizedAlwaysRejected | implementations/python/rate_limiter.py:75 | a cost above the capacity is always rejected |
| TokenBucket.RetryAfterSuffices | implementations/python/rate_limiter.py:84-93 | the same request on the state the rejection left, retried at `now + retry_after`, is admitted when the cost fits the capacity |
| TokenBucket.RetryAfterIsEarliest | implementations/python/rate_limiter.py:84-93 | the same request retried any time before `now + retry_after` is rejected |
| TokenBucket.TokenBucketLimiter.constructor | implementations/python/rate_limiter.py:56-60 | the fields are those of `Initial` |
| TokenBucket.TokenBucketLimiter.Refill | implementations/python/rate_limiter.py:63-69 | `_refill` sets the level to `Refilled` and `last_refill` to `now` |
| TokenBucket.TokenBucketLimiter.AllowRequest | implementations/python/rate_limiter.py:71-94 | the new fields and the result are exactly `Allow` of the old fields |
| TokenBucket.TokenBucketLimiter.Reset | implementations/python/rate_limiter.py:96-99 | the new fields are `AfterReset` of the old |
| LeakyBucket.Initial | implementations/python/rate_limiter.py:114-118 | a new bucket has an empty queue |
| LeakyBucket.LeakCount | implementations/python/rate_limiter.py:124-127 | the drain pops `min(floor(elapsed * rate), len(queue))` slots: either the whole queue or the whole number of drained slots |
| LeakyBucket.Leaked | implementations/python/rate_limiter.py:121-130 | `_leak` removes exactly the first `LeakCount` slots and sets `last_leak = now`, even when a fraction of a slot is lost |
| LeakyBucket.Allow | implementations/python/rate_limiter.py:132-153 | a step keeps the queue within capacity and reports `0 <= remaining <= capacity` |
| LeakyBucket.AfterReset | implementations/python/rate_limiter.py:155-158 | `reset` empties the queue and keeps the configuration |
| LeakyBucket.AdmitsIffCostFits | implementations/python/rate_limiter.py:132-153 | admits iff the drained queue plus the cost fits the capacity; an admission appends exactly `cost` slots stamped `now` and reports `capacity - len`; a rejection keeps the drained queue and reports `retry_after > 0` with `retry_after * rate = len - capacity + cost` |
| LeakyBucket.RetryAfterSuffices | implementations/python/rate_limiter.py:147-153 | retrying at `now + retry_after` is admitted when the cost fits the capacity |
| LeakyBucket.RetryAfterIsEarliest | implementations/python/rate_limiter.py:147-153 | retrying earlier is rejected |
| LeakyBucket.LeakyBucketLimiter.constructor | implementations/python/rate_limiter.py:114-118 | the fields are those of `Initial` |
| LeakyBucket.LeakyBucketLimiter.Leak | implementations/python/rate_limiter.py:121-130 | the `popleft` loop leaves the fields equal to `Leaked` |
| LeakyBucket.LeakyBucketLimiter.AppendSlots | implementations/python/rate_limiter.py:137-138 | the `append` loop adds exactly `n` slots stamped `now` at the back |
| LeakyBucket.LeakyBucketLimiter.AllowRequest | implementations/python/rate_limiter.py:132-153 | the new fields and the result are exactly `Allow` of the old fields |
| LeakyBucket.LeakyBucketLimiter.Reset | implementations/python/rate_limiter.py:155-158 | the new fields are `AfterReset` of the old |
| FixedWindow.Initial | implementations/python/rate_limiter.py:173-177 | a new limiter has nothing counted |
| FixedWindow.Rolled | implementations/python/rate_limiter.py:187-192 | the rollover check adopts the current window start and zeroes the count exactly when that start differs from the stored one |
| FixedWindow.Allow | implementations/python/rate_limiter.py:184-209 | a step keeps `count <= limit`, stores the current window and reports `0 <= remaining <= limit` |
| FixedWindow.AfterReset | implementations/python/rate_limiter.py:211-214 | `reset` stores the window containing `now` with count 0 |
| FixedWindow.AdmitsIffCountFits | implementations/python/rate_limiter.py:184-209 | admits iff the rolled count plus the cost fits the limit; an admission adds exactly the cost and reports `limit - count`; a rejection keeps the count and reports `retry_after` in `(0, window_size]`, ending at the next window start |
| FixedWindow.RetryAfterIsEarliest | implementations/python/rate_limiter.py:202-209 | a retry before `now + retry_after` is in the same window and is rejected |
| FixedWindow.RetryAfterSuffices | implementations/python/rate_limiter.py:202-209 | a retry at `now + retry_after` starts a fresh window and is admitted when the cost fits the limit |
| FixedWindow.BoundaryAdmitsTwiceTheLimit | implementations/python/rate_limiter.py:190-201 | with one-second windows, `limit` requests at 0.999 s and `limit` more at 1.001 s are all admitted |
| FixedWindow.FixedWindowLimiter.constructor | implementations/python/rate_limiter.py:173-177 | the fields are those of `Initial` |
| FixedWindow.FixedWindowLimiter.AllowRequest | implementations/python/rate_limiter.py:184-209 | the new fields and the result are exactly `Allow` of the old fields |
| FixedWindow.FixedWindowLimiter.Reset | implementations/python/rate_limiter.py:211-214 | the new fields are `AfterReset` of the old |
| SlidingWindowLog.Initial | implementations/python/rate_limiter.py:229-232 | a new log is empty |
| SlidingWindowLog.Pruned | implementations/python/rate_limiter.py:235-239 | pruning removes from the front until the first entry is above the cutoff |
| SlidingWindowLog.PrunedIsSuffix | implementations/python/rate_limiter.py:235-239 | the pruned log is a suffix of the log |
| SlidingWindowLog.PoppedAreExpired | implementations/python/rate_limiter.py:235-239 | every removed entry is at or below the cutoff |
| SlidingWindowLog.PrunedIsFresh | implementations/python/rate_limiter.py:235-239 | on a sorted log every kept entry is above the cutoff and the result stays sorted |
| SlidingWindowLog.PrunedKeepsFresh | implementations/python/rate_limiter.py:235-239 | pruning a log whose first entry is above the cutoff changes nothing |
| SlidingWindowLog.AppendKeepsSorted | implementations/python/rate_limiter.py:247-248 | appending copies of `now` to a sorted log of entries `<= now` keeps it sorted |
| SlidingWindowLog.PrunedWithinWindow | implementations/python/rate_limiter.py:235-246 | after pruning, every entry lies in `(now - window_size, now]`, the log is sorted and holds at most `limit` entries |
| SlidingWindowLog.AdmittedLogIsReady | implementations/python/rate_limiter.py:246-248 | an admitted log is sorted, within the limit and within the window |
| SlidingWindowLog.Allow | implementations/python/rate_limiter.py:241-266 | a step leaves a sorted log of at most `limit` entries, all above `now - window_size`, and reports `0 <= remaining <= limit` |
| SlidingWindowLog.AfterReset | implementations/python/rate_limiter.py:268-270 | `reset` empties the log |
| SlidingWindowLog.AdmitsIffCostFits | implementations/python/rate_limiter.py:241-266 | admits iff the pruned length plus the cost fits the limit; an admission appends exactly `cost` copies of `now` and reports `limit - len`; a rejection keeps the pruned log, with `retry_after = 0` on an empty log and `oldest + window_size - now > 0` otherwise |
| SlidingWindowLog.RetryAfterIsEarliest | implementations/python/rate_limiter.py:256-266 | a retry before `now + retry_after` is rejected |
| SlidingWindowLog.RetryAfterExpiresOldest | implementations/python/rate_limiter.py:256-266 | at `now + retry_after` at least the oldest entry has left the window |
| SlidingWindowLog.OversizedAlwaysRejected | implementations/python/rate_limiter.py:246 | a cost above the limit is always rejected |
| SlidingWindowLog.SlidingWindowLogLimiter.constructor | implementations/python/rate_limiter.py:229-232 | the fields are those of `Initial` |
| SlidingWindowLog.SlidingWindowLogLimiter.RemoveOldRequests | implementations/python/rate_limiter.py:235-239 | the `while … popleft` loop leaves exactly `Pruned` of the old log |
| SlidingWindowLog.SlidingWindowLogLimiter.AppendRequests | implementations/python/rate_limiter.py:247-248 | the `append` loop adds exactly `n` copies of `now` |
| SlidingWindowLog.SlidingWindowLogLimiter.AllowRequest | implementations/python/rate_limiter.py:241-266 | the new fields and the result are exactly `Allow` of the old fields |
| SlidingWindowLog.SlidingWindowLogLimiter.Reset | implementations/python/rate_limiter.py:268-270 | the new fields are `AfterReset` of the old |
| SlidingWindowCounter.Initial | implementations/python/rate_limiter.py:285-289 | both windows start as `{start: 0, count: 0}` |
| SlidingWindowCounter.Estimate | implementations/python/rate_limiter.py:292-298 | the estimate is at least the current count and, once the current window has started, at most the sum of both counts |
| SlidingWindowCounter.Shifted | implementations/python/rate_limiter.py:303-308 | on any change of window start, `previous` becomes the old `current` (even across skipped windows) and `current` is the new start with count 0; otherwise nothing changes |
| SlidingWindowCounter.Allow | implementations/python/rate_limiter.py:300-328 | a step stores the current window start and reports `0 <= remaining <= limit` |
| SlidingWindowCounter.AfterReset | implementations/python/rate_limiter.py:330-335 | `reset` sets `current = {window start, 0}` and `previous = {0, 0}` |
| SlidingWindowCounter.ShiftedEstimateBounds | implementations/python/rate_limiter.py:292-310 | after the shift, `current <= estimate <= previous + current` |
| SlidingWindowCounter.EstimateDecays | implementations/python/rate_limiter.py:292-298 | the estimate never grows as time passes within the same state |
| SlidingWindowCounter.AdmitsIffEstimateFits | implementations/python/rate_limiter.py:300-328 | admits iff estimate plus cost fits the limit; an admission adds exactly the cost to `current` and reports `floor(limit - estimate - cost)`; a rejection keeps the shifted counts and reports `retry_after` in `(0, window_size]`, ending at the window's end |
| SlidingWindowCounter.OversizedAlwaysRejected | implementations/python/rate_limiter.py:312 | a cost above the limit is always rejected |
| SlidingWindowCounter.RetryBeforeDeadlineStaysInWindow | implementations/python/rate_limiter.py:321-328 | before `now + retry_after` there is no shift and the estimate is no larger |
| SlidingWindowCounter.RetryAfterOpensNextWindow | implementations/python/rate_limiter.py:303-310 | at `now + retry_after` the counts shift and the estimate is the old current count in full |
| SlidingWindowCounter.SkippedWindowsStillCount | implementations/python/rate_limiter.py:306-308 | a full window followed by a jump of five windows is still counted as `previous`, and the request is rejected |
| SlidingWindowCounter.FullWindowCarriesOver | implementations/python/rate_limiter.py:306-308 | moving into the next window carries the full count over as `previous` |
| SlidingWindowCounter.HalfWayThroughNextWindow | implementations/python/rate_limiter.py:292-320 | halfway through the window after a full one, a request is admitted iff fewer than 5 were already counted in the current window, and an admission adds one to it |
| SlidingWindowCounter.SlidingWindowCounterLimiter.constructor | implementations/python/rate_limiter.py:285-289 | the fields are those of `Initial` |
| SlidingWindowCounter.SlidingWindowCounterLimiter.EstimateCount | implementations/python/rate_limiter.py:292-298 | `_estimate_count` returns `Estimate` of the fields |
| SlidingWindowCounter.SlidingWindowCounterLimiter.AllowRequest | implementations/python/rate_limiter.py:300-328 | the new fields and the result are exactly `Allow` of the old fields |
| SlidingWindowCounter.SlidingWindowCounterLimiter.Reset | implementations/python/rate_limiter.py:330-335 | the new fields are `AfterReset` of the old |
| ConcurrentRequests.Initial | implementations/python/rate_limiter.py:348-350 | nothing is in flight |
| ConcurrentRequests.Allow | implementations/python/rate_limiter.py:354-371 | a step keeps `active <= max_concurrent` and reports `reset_at = 0` and `0 <= remaining <= max` |
| ConcurrentRequests.Released | implementations/python/rate_limiter.py:373-377 | `release` sets `active` to `max(0, active - cost)` |
| ConcurrentRequests.AfterReset | implementations/python/rate_limiter.py:379-381 | `reset` sets `active = 0` |
| ConcurrentRequests.AdmitsIffCostFits | implementations/python/rate_limiter.py:354-371 | admits iff `active + cost <= max`; an admission adds exactly the cost and reports `max - active`; a rejection changes nothing and reports `remaining = 0`, `reset_at = 0` and no `retry_after` |
| ConcurrentRequests.ReleaseUndoesAdmission | implementations/python/rate_limiter.py:354-377 | releasing what an admission took restores the state exactly |
| ConcurrentRequests.ReleasesAdd | implementations/python/rate_limiter.py:373-377 | two releases equal one release of the sum |
| ConcurrentRequests.ReleaseOnlyHelps | implementations/python/rate_limiter.py:354-377 | a request admitted before a release is admitted after it |
| ConcurrentRequests.ReleaseReopensSlots | implementations/python/rate_limiter.py:354-377 | with max 5: five admissions, one rejection; after `release(2)` two admissions and a rejection |
| ConcurrentRequests.ConcurrentRequestsLimiter.constructor | implementations/python/rate_limiter.py:348-350 | the fields are those of `Initial` |
| ConcurrentRequests.ConcurrentRequestsLimiter.AllowRequest | implementations/python/rate_limiter.py:354-371 | the new fields and the result are exactly `Allow` of the old fields |
| ConcurrentRequests.ConcurrentRequestsLimiter.Release | implementations/python/rate_limiter.py:373-377 | the new fields are `Released` of the old |
| ConcurrentRequests.ConcurrentRequestsLimiter.Reset | implementations/python/rate_limiter.py:379-381 | the new fields are `AfterReset` of the old |
| MultiTier.Step | implementations/python/rate_limiter.py:398-399 | one member's `allow_request` keeps the member's kind and leaves it callable again |
| MultiTier.ReadyLater | implementations/python/rate_limiter.py:398-399 | a member callable at `now` stays callable at any later time |
| MultiTier.FirstRejection | implementations/python/rate_limiter.py:398-408 | the index of the member whose result ends the loop, at most the number of members |
| MultiTier.FirstRejectionIsFirst | implementations/python/rate_limiter.py:398-408 | every member before the first rejecting one admits, and the one found rejects |
| MultiTier.FirstRejectionAt | implementations/python/rate_limiter.py:398-408 | an index before which every member admits and at which a member rejects (or the end) is the first rejection |
| MultiTier.Consulted | implementations/python/rate_limiter.py:398-408 | the loop calls every member, or those up to and including the first rejecting one |
| MultiTier.RunInOrder | implementations/python/rate_limiter.py:396-408 | the loop keeps one state per member and collects at most one result per member |
| MultiTier.RunInOrderSteps | implementations/python/rate_limiter.py:396-408 | the loop steps exactly the members up to and including the first rejecting one, in order, records their results, and leaves every later member untouched |
| MultiTier.MostRestrictive | implementations/python/rate_limiter.py:410-411 | `min(results, key=remaining)` is the first result with the fewest remaining |
| MultiTier.Decision | implementations/python/rate_limiter.py:394-411 | the answer exists iff there are members, and it is the result of one of the member calls |
| MultiTier.RejectedAt | implementations/python/rate_limiter.py:398-408 | states stepped up to a rejecting member `i`, after admissions before it, are the loop's states, and its answer is member `i`'s result |
| MultiTier.AdmittedByAll | implementations/python/rate_limiter.py:396-411 | when every member admits, all are stepped, all results are collected, and the answer is `MostRestrictive` of them |
| MultiTier.RunKeepsReady | implementations/python/rate_limiter.py:396-408 | after the loop every member is callable again at the same time |
| MultiTier.AdmitsIffEveryTierAdmits | implementations/python/rate_limiter.py:394-411 | there is a result iff there are members (`min([])` raises), and it admits iff every member admits |
| MultiTier.RejectionIsFirstRejecting | implementations/python/rate_limiter.py:398-408 | a rejection is the first rejecting member's result verbatim; members up to it have stepped and later ones are unchanged |
| MultiTier.AdmissionConsultsEveryTier | implementations/python/rate_limiter.py:396-411 | on admission every member has stepped and the answer is `MostRestrictive` of all results |
| MultiTier.AdmissionHasFewestRemaining | implementations/python/rate_limiter.py:410-411 | on admission no member reported fewer remaining than the answer |
| MultiTier.AdmissionIsFirstMostRestrictive | implementations/python/rate_limiter.py:410-411 | the answer is the result of the first member with the fewest remaining |
| MultiTier.RejectionKeepsEarlierConsumption | implementations/python/rate_limiter.py:402-406 | a token bucket admitted before a rejecting fixed window keeps its consumed token: the `rollback` looked up by `hasattr` is never defined |
| MultiTier.AllowTier | implementations/python/rate_limiter.py:399 | calling a member object steps exactly its model |
| MultiTier.StatesOf | implementations/python/rate_limiter.py:392 | the states of the member objects, in list order |
| MultiTier.MultiTierLimiter.constructor | implementations/python/rate_limiter.py:391-392 | the limiter holds the given members |
| MultiTier.MultiTierLimiter.AllowRequest | implementations/python/rate_limiter.py:394-411 | the loop leaves the members' states at `RunInOrder` of the old states and returns `Decision` of them |
| MultiTier.MultiTierLimiter.AllowAt | implementations/python/rate_limiter.py:399 | calling member `i` steps it and leaves every other member unchanged |
| StoreKeys.MakeKey | implementations/python/redis_rate_limiter.py:30-35 | the key is `prefix:identifier`, followed by `:suffix` exactly when the suffix is non-empty |
| StoreKeys.WindowKey | implementations/python/redis_rate_limiter.py:126-127 | a window key is `prefix:identifier` followed by `:` and the decimal window start, nothing else |
| StoreKeys.NatToDecimal | implementations/python/redis_rate_limiter.py:127 | `str` of a natural number is a non-empty string of digits |
| StoreKeys.IntToDecimal | implementations/python/redis_rate_limiter.py:127 | `str` of an integer is non-empty, has no colon, and is all digits iff the integer is non-negative |
| StoreKeys.NatDecimalRoundTrip | implementations/python/redis_rate_limiter.py:127 | reading the digits back gives the number |
| StoreKeys.IntToDecimalIsInjective | implementations/python/redis_rate_limiter.py:127 | different window starts give different strings |
| StoreKeys.NatToDecimalIsInjective | implementations/python/redis_rate_limiter.py:127 | different natural numbers give different strings |
| StoreKeys.PlainKeysAreDistinct | implementations/python/redis_rate_limiter.py:30-35 | different identifiers give different suffix-free keys |
| StoreKeys.WindowKeysAreDistinct | implementations/python/redis_rate_limiter.py:126-127 | window keys of different identifiers or window starts differ |
| StoreKeys.ColonInIdentifierSharesKey | implementations/python/redis_rate_limiter.py:30-35 | the identifier `a:b` without suffix and `a` with suffix `b` share a key |
| Store.HGet | implementations/python/redis_rate_limiter.py:54 | definition of one `HMGET` field (absent with the key or the field); its properties are in `Store.HGetAfterHSet` |
| Store.HSet | implementations/python/redis_rate_limiter.py:71 | each given field reads back as written; counters and sorted sets do not change |
| Store.HGetAfterHSet | implementations/python/redis_rate_limiter.py:71 | `HMSET` sets the given fields of one key; every other field and key reads as before |
| Store.Get | implementations/python/redis_rate_limiter.py:132 | definition of `GET` on a counter; its properties are in `Store.IncrByChangesOneCounter` and `Store.IncrBy` |
| Store.CountOf | implementations/python/redis_rate_limiter.py:134 | definition of the count read with a missing key as 0; its properties are in `Store.IncrByChangesOneCounter` |
| Store.IncrBy | implementations/python/redis_rate_limiter.py:137 | the key then holds its old count (0 when missing) plus `n`; hashes and sorted sets do not change |
| Store.IncrByChangesOneCounter | implementations/python/redis_rate_limiter.py:137 | `INCRBY` adds to exactly one counter (a missing one counts from 0) and touches nothing else |
| Store.Keep | implementations/python/redis_rate_limiter.py:248 | the filter never lengthens the set; its contents are stated in `Store.KeepContents` |
| Store.ZRemRangeByScore | implementations/python/redis_rate_limiter.py:248 | the set never grows; hashes and counters do not change |
| Store.ZCard | implementations/python/redis_rate_limiter.py:251 | the count is 0 exactly when the set has no entries, in particular for a missing key |
| Store.ZRemRangeByScoreContents | implementations/python/redis_rate_limiter.py:248 | `ZREMRANGEBYSCORE key lo hi` keeps exactly the entries scored outside `[lo, hi]` and never grows the set |
| Store.ZRemRangeByScoreKeepsValid | implementations/python/redis_rate_limiter.py:248 | the removal keeps every set sorted by score with distinct member names |
| Store.ZRemRangeByScoreTouchesOneKey | implementations/python/redis_rate_limiter.py:248 | the removal changes no other key |
| Store.Insert | implementations/python/redis_rate_limiter.py:260 | placing an entry by score adds exactly one entry; contents and order are stated in `Store.InsertContents` and `Store.InsertIsWellFormed` |
| Store.AddEntry | implementations/python/redis_rate_limiter.py:260 | `ZADD` on one set grows it by at most one; contents are stated in `Store.AddEntryContents` |
| Store.ZAdd | implementations/python/redis_rate_limiter.py:260 | the set then holds the member at the given score and has grown by at most one; hashes and counters do not change |
| Store.ZAddContents | implementations/python/redis_rate_limiter.py:260 | `ZADD` gives the member exactly the new score, keeps every other member's entry and grows the set by at most one |
| Store.ZAddKeepsValid | implementations/python/redis_rate_limiter.py:260 | `ZADD` keeps every set well formed |
| Store.ZAddTouchesOneKey | implementations/python/redis_rate_limiter.py:260 | `ZADD` changes no other key |
| Store.AddEntryNewLast | implementations/python/redis_rate_limiter.py:260 | `ZADD` of a new name scoring at least every entry appends it |
| Store.LowestScore | implementations/python/redis_rate_limiter.py:272 | `ZRANGE key 0 0 WITHSCORES` reads nothing exactly when the set is empty |
| Store.LowestScoreIsMinimum | implementations/python/redis_rate_limiter.py:272 | `ZRANGE key 0 0 WITHSCORES` is empty iff the set is, and otherwise reads the lowest score |
| StoreTokenBucket.StoredTokens | implementations/python/redis_rate_limiter.py:55 | definition of `tonumber(bucket[1]) or capacity`; its properties are in `StoreTokenBucket.ScriptState` |
| StoreTokenBucket.StoredLastRefill | implementations/python/redis_rate_limiter.py:56 | definition of `tonumber(bucket[2]) or now`; its properties are in `StoreTokenBucket.ScriptState` |
| StoreTokenBucket.Level | implementations/python/redis_rate_limiter.py:59-61 | definition of the refill; its properties are in `StoreTokenBucket.LevelOfFields` and `StoreTokenBucket.ScriptState` |
| StoreTokenBucket.WriteBack | implementations/python/redis_rate_limiter.py:71 | definition of the closing `HMSET`; its properties are in `StoreTokenBucket.WriteBackReadsBack` |
| StoreTokenBucket.Script | implementations/python/redis_rate_limiter.py:46-82 | the script admits iff the refilled level covers the request; `retry_after` is 0 on admission and positive on rejection; `last_refill` is written as `now` on both outcomes, and counters and sorted sets do not change |
| StoreTokenBucket.ScriptState | implementations/python/redis_rate_limiter.py:53-72 | a missing hash reads as a full bucket; with the stored level in range the refill never lowers it and the written level stays in `[0, capacity]`; a clock behind `last_refill` adds nothing; both fields are rewritten, `last_refill` with `now`, on either outcome; no other key changes |
| StoreTokenBucket.WriteBackReadsBack | implementations/python/redis_rate_limiter.py:54-71 | after the write-back the hash reads the level and `now`, and a later refill adds exactly the time since `now` |
| StoreTokenBucket.LevelOfFields | implementations/python/redis_rate_limiter.py:54-61 | with both fields stored the refilled level is `min(capacity, tokens + elapsed * rate)` |
| StoreTokenBucket.IntegerReply | implementations/python/redis_rate_limiter.py:81 | a Lua number reaches the caller as an integer with the fraction dropped |
| StoreTokenBucket.ResetAt | implementations/python/redis_rate_limiter.py:106 | `reset_at` is never before `now`, and equals `now` exactly when the reported tokens reach the capacity |
| StoreTokenBucket.AllowRequestAsWritten | implementations/python/redis_rate_limiter.py:90-108 | the limit is the capacity and `reset_at >= now`; a reported wait belongs to a rejection and is never under one second |
| StoreTokenBucket.AllowRequest | implementations/python/redis_rate_limiter.py:90-108 | the limit is the capacity and `reset_at >= now`; exactly the rejections report a wait, and it is positive |
| StoreTokenBucket.AdmitsIffLevelCoversCost | implementations/python/redis_rate_limiter.py:46-108 | admits iff the refilled level covers the cost; an admission writes back `level - cost` and reports its floor with no wait; a rejection writes back the level, reports its floor and a wait `> 0` with `wait * rate = cost - level` |
| StoreTokenBucket.ScriptMatchesLocalBucket | implementations/python/redis_rate_limiter.py:53-81 | with the stored fields as an in-process bucket's, the script decides as `TokenBucket.Allow` and writes back the in-process bucket's new fields |
| StoreTokenBucket.RetryAfterSuffices | implementations/python/redis_rate_limiter.py:74-107 | retrying at `now + retry_after` on the written-back store is admitted when the cost fits the capacity |
| StoreTokenBucket.AdmitsAtWait | implementations/python/redis_rate_limiter.py:54-68 | from stored fields, a wait `w` with `w * rate = cost - tokens` admits the request when the cost fits the capacity |
| StoreTokenBucket.RetryAfterIsEarliest | implementations/python/redis_rate_limiter.py:74-107 | retrying any earlier is rejected |
| StoreTokenBucket.RejectsBeforeWait | implementations/python/redis_rate_limiter.py:54-68 | from stored fields, any time before that wait rejects |
| StoreTokenBucket.AsWrittenTruncatesRetry | implementations/python/redis_rate_limiter.py:75-107 | the wrapper as written agrees with the exact one except that `retry_after` arrives truncated, and a wait below one second is reported as none |
| StoreTokenBucket.AsWrittenLosesHalfSecondWait | implementations/python/redis_rate_limiter.py:75-107 | an empty bucket with rate 2: the exact wait is 0.5 s; as written the rejection reports no `retry_after` |
| StoreFixedWindow.WindowKey | implementations/python/redis_rate_limiter.py:126-127 | definition of the current window key; its properties are in `StoreKeys.WindowKeysAreDistinct` and `StoreFixedWindow.OtherWindowsUntouched` |
| StoreFixedWindow.AllowRequest | implementations/python/redis_rate_limiter.py:123-152 | the limit is the configured one and `reset_at` lies after `now`; an admission reports no wait and a non-negative remainder; a rejection leaves the store unchanged and reports a positive wait |
| StoreFixedWindow.AdmitsIffCountFits | implementations/python/redis_rate_limiter.py:123-152 | the key is the current window's; an absent count reads 0; admits iff `count + cost <= limit`, then `INCRBY` adds exactly the cost and `remaining = limit - count - cost`; a rejection writes nothing and reports `retry_after` in `(0, window_size]`, ending at `reset_at` |
| StoreFixedWindow.CountStaysWithinLimit | implementations/python/redis_rate_limiter.py:136-152 | a window count in `[0, limit]` stays there, and `0 <= remaining <= limit` |
| StoreFixedWindow.OtherWindowsUntouched | implementations/python/redis_rate_limiter.py:126-137 | no other identifier's or window's counter changes, and neither do hashes and sorted sets |
| StoreFixedWindow.RetryAfterIsEarliest | implementations/python/redis_rate_limiter.py:145-152 | a retry before `now + retry_after` reads the same counter and is rejected |
| StoreFixedWindow.RetryAfterReadsNextWindow | implementations/python/redis_rate_limiter.py:126-152 | at `now + retry_after` the call reads the next window's untouched counter and admits iff the cost fits next to it |
| StoreFixedWindow.MatchesLocalWindow | implementations/python/redis_rate_limiter.py:123-152 | with the stored count equal to the in-process limiter's rolled count, the result and the new count are those of `FixedWindow.Allow` |
| StoreSlidingCounter.Estimate | implementations/python/redis_rate_limiter.py:176-178 | definition of `floor(previous * overlap) + current`; its properties are in `StoreSlidingCounter.EstimateBounds` and `StoreSlidingCounter.EstimateDecays` |
| StoreSlidingCounter.CurrentKey | implementations/python/redis_rate_limiter.py:205-208 | definition of the current window key; its properties are in `StoreSlidingCounter.KeysDiffer` and `StoreSlidingCounter.NextWindowKeys` |
| StoreSlidingCounter.PreviousKey | implementations/python/redis_rate_limiter.py:205-209 | definition of the previous window key; its properties are in `StoreSlidingCounter.KeysDiffer` and `StoreSlidingCounter.NextWindowKeys` |
| StoreSlidingCounter.EstimateAt | implementations/python/redis_rate_limiter.py:172-178 | definition of the estimate the script computes from the two stored counters; its properties are in `StoreSlidingCounter.AdmitsIffEstimateFits` and `StoreSlidingCounter.RetryBeforeDeadlineDecays` |
| StoreSlidingCounter.KeysDiffer | implementations/python/redis_rate_limiter.py:205-209 | the current and previous keys differ |
| StoreSlidingCounter.EstimateBounds | implementations/python/redis_rate_limiter.py:176-178 | within the window, `current <= estimate <= current + previous`, equal to the sum at the window's start |
| StoreSlidingCounter.EstimateDecays | implementations/python/redis_rate_limiter.py:176-178 | the floored estimate never grows as time passes |
| StoreSlidingCounter.ClampChangesNothing | implementations/python/redis_rate_limiter.py:180-221 | the script's `remaining` is never negative, so `max(0, remaining)` passes it through |
| StoreSlidingCounter.Script | implementations/python/redis_rate_limiter.py:162-194 | the script admits iff the estimate plus the cost fits the limit, never replies a negative remainder, changes nothing on rejection, and touches only counters |
| StoreSlidingCounter.AllowRequest | implementations/python/redis_rate_limiter.py:202-224 | the limit is the configured one, the remainder is non-negative and `reset_at` lies after `now`; exactly the rejections report a wait, and it lies in `(0, window_size]` |
| StoreSlidingCounter.AdmitsIffEstimateFits | implementations/python/redis_rate_limiter.py:162-224 | admits iff the floored estimate plus the cost fits; an admission increments only the current counter, by exactly the cost, and reports `limit - estimate - cost`; a rejection writes nothing and reports `retry_after` in `(0, window_size]` ending at `reset_at` |
| StoreSlidingCounter.CountStaysWithinLimit | implementations/python/redis_rate_limiter.py:183-188 | a current count in `[0, limit]` stays there |
| StoreSlidingCounter.OtherCountersUntouched | implementations/python/redis_rate_limiter.py:185-209 | no counter other than the current window's changes |
| StoreSlidingCounter.OnlyAdjacentWindowsCount | implementations/python/redis_rate_limiter.py:205-213 | the result depends only on the current and the adjacent previous counters |
| StoreSlidingCounter.RetryBeforeDeadlineDecays | implementations/python/redis_rate_limiter.py:205-223 | before `now + retry_after` the same counters are read and the estimate is no larger |
| StoreSlidingCounter.RetryAfterWeighsPreviousInFull | implementations/python/redis_rate_limiter.py:176-223 | at `now + retry_after` the old current counter becomes the previous one, weighed in full, and the call admits iff both counts plus the cost fit |
| StoreSlidingCounter.AtNextWindowStart | implementations/python/redis_rate_limiter.py:172-213 | at the next window start the old current key becomes the previous one and the call admits iff both counts plus the cost fit |
| StoreSlidingCounter.NextWindowKeys | implementations/python/redis_rate_limiter.py:205-209 | the next window's start has elapsed time 0, its previous key is this window's key, and its current key is the next window's |
| StoreSlidingCounter.EstimateAtWindowStart | implementations/python/redis_rate_limiter.py:176-178 | at elapsed time 0 the estimate is the sum of both counts |
| StoreSlidingCounter.AdmitsWhereLocalAdmits | implementations/python/redis_rate_limiter.py:172-183 | when the in-process counter's two windows are adjacent and hold the stored counts, whatever it admits the store admits too |
| StoreSlidingCounter.FloorOfLocalEstimate | implementations/python/redis_rate_limiter.py:176-178 | the floored estimate never exceeds the in-process one |
| StoreSlidingCounter.FlooringAdmitsWhereLocalRejects | implementations/python/redis_rate_limiter.py:176-183 | counts 9 and 1, halfway through a window of 2 s: the in-process counter rejects, the store admits |
| StoreSlidingCounter.SkippedWindowsAreForgotten | implementations/python/redis_rate_limiter.py:205-213 | a full window five windows back is not read by the store, so the request is admitted (the in-process counter rejects it: `SlidingWindowCounter.SkippedWindowsStillCount`) |
| StoreSlidingLog.LogKey | implementations/python/redis_rate_limiter.py:242 | definition of `_make_key(identifier)`; its properties are in `StoreKeys.PlainKeysAreDistinct` and `StoreSlidingLog.OtherKeysUntouched` |
| StoreSlidingLog.Stamped | implementations/python/redis_rate_limiter.py:259-260 | the loop names one entry per token; which entries they are is stated in `StoreSlidingLog.StampedEntries` |
| StoreSlidingLog.AddStamped | implementations/python/redis_rate_limiter.py:259-260 | the `ZADD`s grow the set by at most the number of tokens; contents are stated in `StoreSlidingLog.AddStampedContents` |
| StoreSlidingLog.AddAll | implementations/python/redis_rate_limiter.py:258-262 | definition of the admission pipeline on the store; its properties are in `StoreSlidingLog.AddAllContents` and `StoreSlidingLog.AddEntries` |
| StoreSlidingLog.StampedEntries | implementations/python/redis_rate_limiter.py:259-260 | the entries the loop writes are exactly those named `{now}:{i}` for `i < n`, each scored `now` |
| StoreSlidingLog.ScoresOfStamped | implementations/python/redis_rate_limiter.py:259-260 | their scores are `n` copies of `now`, as the in-process log appends |
| StoreSlidingLog.AddEntries | implementations/python/redis_rate_limiter.py:258-262 | the `for i in range(tokens)` loop of `ZADD`s leaves the store `AddAll` |
| StoreSlidingLog.AddAllStep | implementations/python/redis_rate_limiter.py:259-260 | each further loop iteration is one `ZADD` of `{now}:{i}` at `now` |
| StoreSlidingLog.AddStampedContents | implementations/python/redis_rate_limiter.py:259-260 | after the `ZADD`s the set holds the stamped entries and every earlier entry whose name was not reused |
| StoreSlidingLog.AddStampedIsWellFormed | implementations/python/redis_rate_limiter.py:259-260 | the `ZADD`s keep the set well formed |
| StoreSlidingLog.AddStampedAppends | implementations/python/redis_rate_limiter.py:259-260 | when no entry was stamped at `now` and none scores above it, the `ZADD`s append exactly the `n` stamped entries |
| StoreSlidingLog.AddAllKeepsValid | implementations/python/redis_rate_limiter.py:259-260 | the `ZADD`s keep every set of the store well formed |
| StoreSlidingLog.AdmittedScores | implementations/python/redis_rate_limiter.py:259-260 | when no entry was stamped at `now` and none scores above it, the scores after the `ZADD`s are the old ones followed by `n` copies of `now` |
| StoreSlidingLog.AddAllContents | implementations/python/redis_rate_limiter.py:259-260 | on the store, the identifier's set as above grows by at most `n`, and nothing else changes |
| StoreSlidingLog.Pruned | implementations/python/redis_rate_limiter.py:243-248 | definition of the first pipeline's removal; its properties are in `StoreSlidingLog.AdmitsIffCountFits` and `StoreSlidingLog.PrunedMatchesLocal` |
| StoreSlidingLog.RetryAfter | implementations/python/redis_rate_limiter.py:272-273 | on an empty set the wait is 0; otherwise `now + wait - window_size` is the oldest score, so the oldest entry leaves the window after the wait |
| StoreSlidingLog.AllowRequest | implementations/python/redis_rate_limiter.py:239-281 | the limit is the configured one and the remainder non-negative; exactly the rejections report a wait, never negative; an admission reports `reset_at = now + window_size` |
| StoreSlidingLog.AdmitsIffCountFits | implementations/python/redis_rate_limiter.py:239-281 | the removal drops exactly the entries scored in `[0, now - window_size]`; admits iff the remaining count plus the cost fits; an admission adds the `ZADD`s and reports `limit - count - cost` and `reset_at = now + window_size`; a rejection keeps the pruned set and reports `retry_after = max(0, oldest + window_size - now)`, with 0 for an empty set |
| StoreSlidingLog.StoreStaysValid | implementations/python/redis_rate_limiter.py:248-262 | the call keeps every sorted set well formed |
| StoreSlidingLog.LogStaysWithinLimit | implementations/python/redis_rate_limiter.py:248-262 | a set of at most `limit` entries stays within the limit |
| StoreSlidingLog.OtherKeysUntouched | implementations/python/redis_rate_limiter.py:242-262 | another identifier's set, the hashes and the counters do not change |
| StoreSlidingLog.AdmittedEntries | implementations/python/redis_rate_limiter.py:256-262 | after an admission the set holds the `tokens` stamped entries and the pruned entries whose names were not reused; with no earlier entry at `now` it is exactly the pruned set followed by the stamped entries |
| StoreSlidingLog.RetryAfterExpiresOldest | implementations/python/redis_rate_limiter.py:270-280 | on a non-empty pruned set the wait lies in `(0, window_size]`, and the removal at `now + retry_after` drops the oldest entry |
| StoreSlidingLog.RetryAfterIsEarliest | implementations/python/redis_rate_limiter.py:270-280 | a retry before `now + retry_after` is rejected |
| StoreSlidingLog.RejectsWhileNothingExpires | implementations/python/redis_rate_limiter.py:248-256 | while no entry leaves the window, a request that does not fit stays rejected |
| StoreSlidingLog.KeepMatchesPruned | implementations/python/redis_rate_limiter.py:248 | on a well-formed set with non-negative scores, `ZREMRANGEBYSCORE key 0 cutoff` is the in-process pruning from the front |
| StoreSlidingLog.PrunedMatchesLocal | implementations/python/redis_rate_limiter.py:243-248 | when the set's scores are an in-process log's, the pruned set's scores are the in-process pruned log, none stamped at `now` and none later than it |
| StoreSlidingLog.OldestScore | implementations/python/redis_rate_limiter.py:272-273 | `ZRANGE key 0 0 WITHSCORES` reads the first score of the set, and nothing exactly when the set is empty |
| StoreSlidingLog.MatchesLocalLog | implementations/python/redis_rate_limiter.py:239-281 | with the set's scores equal to an in-process log with no entry stamped at `now`, the call decides as `SlidingWindowLog.Allow` and reports the same remaining and wait (and the same reset time on rejection); its scores become the in-process log's new timestamps |
| StoreSlidingLog.MatchesLocalAdmission | implementations/python/redis_rate_limiter.py:256-269 | when the cost fits, the store and the in-process log agree on `allowed`, `remaining`, `retry_after` and the new scores |
| StoreSlidingLog.MatchesLocalRejection | implementations/python/redis_rate_limiter.py:270-281 | when it does not, they agree on the result, `reset_at` included, and the scores |
| StoreSlidingLog.SameInstantSharesEntry | implementations/python/redis_rate_limiter.py:259-260 | two one-token admissions at the same `now` share the entry `{now}:0`, so the set counts one request for two admissions |

## Left out

- Locks and conditions: `threading.Lock`, `threading.Condition` and `notify_all` only serve thread safety. Each limiter has one caller at a time.
- The clock: `time.time()` is the `now` argument. A call reads it once. The source reads it again for `reset_at` and the stamped timestamps, and those reads are all this instant.
- Floating point: tokens, rates and times are exact reals. IEEE rounding is not reproduced. Python's `int(...)` on a non-negative value is `.Floor`.
- Costs are natural numbers: a negative `tokens` argument is not modelled. Capacities and limits are natural numbers. Rates and window sizes are positive, because the source divides by them.
- The store client layer: `pipeline`, `register_script`, `redis.from_url` and `RedisRateLimiterFactory` are foreign I/O.
- `EXPIRE` and key expiry: TTLs are not modelled, so a key lives until it is overwritten.
- Cross-process timing: the race between `GET` and `INCRBY` in `RedisFixedWindow`, and between the two pipelines of `RedisSlidingWindowLog`, is not modelled. Each pipeline is one sequential step.
- Store type errors: each keyspace is typed, so a `WRONGTYPE` reply for a key used as two kinds is not modelled.
- Member ordering in sorted sets: among equal scores the store orders members by name. The model keeps insertion order, and no lemma here depends on that order.
- `ZREMRANGEBYSCORE key 0 cutoff` keeps entries with negative scores. This is modelled as written, and the correspondence with the in-process log requires non-negative scores.
- The `rate_limit` decorator, `RateLimitExceeded` and the demo blocks are glue and output.
- `MultiTierLimiter` is reset by no method (the code defines none), so there is no reset in the model.
- Empty `MultiTierLimiter`: `min([])` raises `ValueError`, and the model returns `None`.
- MultiTier.MultiTierLimiter.AllowRequest: a member list that names the same limiter object twice is not modelled. The source steps such an object once per occurrence, and the model requires every member object to be different (`Distinct()`).
- MultiTier.MultiTierLimiter.AllowAt: for the same reason, it requires distinct member objects, so it does not model one call stepping an object that appears twice in the list.
- StoreSlidingLog.MatchesLocalLog: on admission the store reports `reset_at = now + window_size`, while the in-process log reports its oldest entry plus `window_size`. The lemma equates `reset_at` only on rejection.
- StoreSlidingLog.MatchesLocalAdmission: for the same reason, it does not equate `reset_at`. It states agreement on `allowed`, `remaining`, `retry_after` and the new scores only.
- StoreSlidingCounter.AdmitsWhereLocalAdmits: one direction only. The floor lets the store admit where the in-process counter rejects (`FlooringAdmitsWhereLocalRejects`), and the in-process counter counts skipped windows that the store forgets (`SkippedWindowsAreForgotten`).

The code differs from the library's documented design in three places, and the model follows the code:
- The in-process sliding counter copies `current` into `previous` on any window change, adjacent or not (`SkippedWindowsStillCount`).
- `MultiTierLimiter` has no `reset` that resets every member.
- A rejection by a later member does not undo earlier members' consumption (`RejectionKeepsEarlierConsumption`).

## Findings

| source | as written | input that shows it | evidently intended | confidence | as-written member | corrected member |
|---|---|---|---|---|---|---|
| implementations/python/redis_rate_limiter.py:75-107 | the script returns `retry_after` as a Lua number in its reply table. The store converts it to an integer reply with the fraction dropped. The wrapper then reports `None` whenever that integer is 0 | capacity 10, rate 2, an empty bucket at time 0, one token: the exact wait is 0.5 s, but the rejection carries no `retry_after` | the rejection reports the fractional wait `(requested - tokens) / refill_rate`, which is positive on every rejection | medium (Lua-number truncation is the store's documented reply conversion); not executed | StoreTokenBucket.AllowRequestAsWritten, StoreTokenBucket.AsWrittenLosesHalfSecondWait | StoreTokenBucket.AllowRequest, StoreTokenBucket.RetryAfterSuffices |
