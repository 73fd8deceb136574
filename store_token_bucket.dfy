/** `RedisTokenBucket`: the token bucket kept in a store hash (`tokens`, `last_refill`) under
    `prefix:identifier` and updated by one atomic script. Unlike the in-process bucket, a missing
    hash reads as a full bucket, a clock behind `last_refill` refills nothing, the hash is
    rewritten on a rejection too, and the reply carries the floor of the tokens left. */
module StoreTokenBucket {
  import opened Results
  import opened Store
  import StoreKeys
  import TokenBucket
  import opened TimeWindows

  /** The configuration of a `RedisTokenBucket` (the store client itself is the `st` argument). */
  datatype Config = Config(prefix: string, capacity: nat, refillRate: real)
  {
    predicate Valid() {
      refillRate > 0.0
    }
  }

  const TokensField: string := "tokens"
  const LastRefillField: string := "last_refill"

  /** What the script returns, as Lua numbers: `{allowed, math.floor(tokens), retry_after}`. */
  datatype ScriptReply = ScriptReply(allowed: bool, floorTokens: int, retryAfter: real)

  /** The stored level, or `capacity` when the field is missing (`tonumber(bucket[1]) or
      capacity`). */
  function StoredTokens(st: Store, key: string, capacity: nat): real {
    match HGet(st, key, TokensField)
    case Some(t) => t
    case None => capacity as real
  }

  /** The stored refill time, or `now` when the field is missing. */
  function StoredLastRefill(st: Store, key: string, now: real): real {
    match HGet(st, key, LastRefillField)
    case Some(t) => t
    case None => now
  }

  /** The stored level is missing or within `[0, capacity]`. */
  predicate TokensInRange(st: Store, key: string, capacity: nat) {
    match HGet(st, key, TokensField)
    case Some(t) => 0.0 <= t <= capacity as real
    case None => true
  }

  /** The level after the script's refill: elapsed time clamped at 0, times the rate, capped at
      capacity. */
  function Level(st: Store, key: string, capacity: nat, refillRate: real, now: real): real {
    var elapsed := Max(0.0, now - StoredLastRefill(st, key, now));
    Min(capacity as real, StoredTokens(st, key, capacity) + elapsed * refillRate)
  }

  /** The script's closing `HMSET key tokens <tokens> last_refill <now>`. */
  function WriteBack(st: Store, key: string, tokens: real, now: real): Store {
    HSet(st, key, map[TokensField := tokens, LastRefillField := now])
  }

  /** After the write-back the hash reads the level and `now`, and a later refill adds the time
      since `now`. */
  lemma WriteBackReadsBack(st: Store, key: string, tokens: real, now: real, capacity: nat, refillRate: real, t: real)
    requires now <= t
    ensures HGet(WriteBack(st, key, tokens, now), key, TokensField) == Some(tokens)
    ensures HGet(WriteBack(st, key, tokens, now), key, LastRefillField) == Some(now)
    ensures Level(WriteBack(st, key, tokens, now), key, capacity, refillRate, t) ==
      Min(capacity as real, tokens + (t - now) * refillRate)
  {
    var fields := map[TokensField := tokens, LastRefillField := now];
    HGetAfterHSet(st, key, fields, key, TokensField);
    HGetAfterHSet(st, key, fields, key, LastRefillField);
    LevelOfFields(WriteBack(st, key, tokens, now), key, capacity, refillRate, tokens, now, t);
  }

  /** The level a refill at `t` reads from a hash holding `tokens` written at `now <= t`. */
  lemma LevelOfFields(st: Store, key: string, capacity: nat, refillRate: real, tokens: real, now: real, t: real)
    requires now <= t
    requires HGet(st, key, TokensField) == Some(tokens) && HGet(st, key, LastRefillField) == Some(now)
    ensures Level(st, key, capacity, refillRate, t) == Min(capacity as real, tokens + (t - now) * refillRate)
  {
  }

  /** `TOKEN_BUCKET_SCRIPT` on `key`: refill, try to consume, write both fields back on either
      outcome, reply. */
  function Script(st: Store, key: string, capacity: nat, refillRate: real, requested: nat, now: real)
    : (out: (Store, ScriptReply))
    requires refillRate > 0.0
    ensures out.1.allowed <==> Level(st, key, capacity, refillRate, now) >= requested as real
    ensures out.1.allowed <==> out.1.retryAfter == 0.0
    ensures !out.1.allowed ==> out.1.retryAfter > 0.0
    ensures HGet(out.0, key, LastRefillField) == Some(now)
    ensures out.0.counters == st.counters && out.0.zsets == st.zsets
  {
    var level := Level(st, key, capacity, refillRate, now);
    var allowed := level >= requested as real;
    var tokens := if allowed then level - requested as real else level;
    var st' := WriteBack(st, key, tokens, now);
    HGetAfterHSet(st, key, map[TokensField := tokens, LastRefillField := now], key, LastRefillField);
    var retryAfter := if allowed then 0.0 else (requested as real - tokens) / refillRate;
    (st', ScriptReply(allowed, tokens.Floor, retryAfter))
  }

  /** The integer a Lua number becomes in a script reply: the fraction is dropped. */
  function IntegerReply(x: real): (n: int)
    ensures x >= 0.0 ==> n as real <= x < n as real + 1.0
    ensures x < 0.0 ==> x <= n as real < x + 1.0
  {
    if x >= 0.0 then x.Floor else -((-x).Floor)
  }

  /** The wrapper's `reset_at`: when the reported whole tokens would have refilled to capacity. */
  function ResetAt(c: Config, remaining: int, now: real): (t: real)
    requires c.Valid()
    ensures t >= now
    ensures t == now <==> remaining >= c.capacity
  {
    if remaining < c.capacity then now + (c.capacity - remaining) as real / c.refillRate else now
  }

  /** `allow_request` as written: the script's `retry_after` reaches the wrapper as an integer
      reply, and a zero is reported as no wait at all. */
  function AllowRequestAsWritten(c: Config, st: Store, identifier: string, cost: nat, now: real)
    : (out: (Store, RateLimitResult))
    requires c.Valid()
    ensures out.1.limit == c.capacity && out.1.resetAt >= now
    ensures out.1.retryAfter.Some? ==> !out.1.allowed && out.1.retryAfter.value >= 1.0
  {
    var key := StoreKeys.MakeKey(c.prefix, identifier, "");
    var (st', reply) := Script(st, key, c.capacity, c.refillRate, cost, now);
    var retry := IntegerReply(reply.retryAfter);
    (st', RateLimitResult(reply.allowed, c.capacity, reply.floorTokens, ResetAt(c, reply.floorTokens, now),
                          if retry > 0 then Some(retry as real) else None))
  }

  /** `allow_request` with `retry_after` delivered exactly (as a string reply would carry it):
      the wrapper reports the script's wait whenever it is positive. */
  function AllowRequest(c: Config, st: Store, identifier: string, cost: nat, now: real)
    : (out: (Store, RateLimitResult))
    requires c.Valid()
    ensures out.1.limit == c.capacity && out.1.resetAt >= now
    ensures out.1.retryAfter.Some? <==> !out.1.allowed
    ensures out.1.retryAfter.Some? ==> out.1.retryAfter.value > 0.0
  {
    var key := StoreKeys.MakeKey(c.prefix, identifier, "");
    var (st', reply) := Script(st, key, c.capacity, c.refillRate, cost, now);
    (st', RateLimitResult(reply.allowed, c.capacity, reply.floorTokens, ResetAt(c, reply.floorTokens, now),
                          if reply.retryAfter > 0.0 then Some(reply.retryAfter) else None))
  }

  /** The script's state handling: a missing level reads as a full bucket; with the stored level
      in range, the refill never lowers it (a clock behind `last_refill` adds nothing) and the
      level written back stays in `[0, capacity]`; both fields are rewritten, `last_refill`
      with `now`, on admission and rejection alike; no other key changes. */
  lemma ScriptState(st: Store, key: string, capacity: nat, refillRate: real, requested: nat, now: real)
    requires refillRate > 0.0
    ensures HGet(st, key, TokensField).None? && HGet(st, key, LastRefillField).None? ==>
      Level(st, key, capacity, refillRate, now) == capacity as real
    ensures TokensInRange(st, key, capacity) ==>
      StoredTokens(st, key, capacity) <= Level(st, key, capacity, refillRate, now) <= capacity as real
    ensures now <= StoredLastRefill(st, key, now) ==>
      Level(st, key, capacity, refillRate, now) == Min(capacity as real, StoredTokens(st, key, capacity))
    ensures var st' := Script(st, key, capacity, refillRate, requested, now).0;
      && HGet(st', key, LastRefillField) == Some(now)
      && HGet(st', key, TokensField).Some?
      && (TokensInRange(st, key, capacity) ==> TokensInRange(st', key, capacity))
      && (forall k :: k != key && k in st.hashes ==> k in st'.hashes && st'.hashes[k] == st.hashes[k])
      && st'.counters == st.counters && st'.zsets == st.zsets
  {
  }

  /** The call admits exactly when the refilled level covers the cost. An admission stores the
      level less the cost; a rejection stores the refilled level. Either way the reply reports
      the floor of the stored level (on a rejection it need not be 0), and a rejection reports a
      positive wait that the rate turns into exactly the missing tokens. */
  lemma AdmitsIffLevelCoversCost(c: Config, st: Store, identifier: string, cost: nat, now: real)
    requires c.Valid()
    ensures var key := StoreKeys.MakeKey(c.prefix, identifier, "");
      var level := Level(st, key, c.capacity, c.refillRate, now);
      var (st', r) := AllowRequest(c, st, identifier, cost, now);
      && (r.allowed <==> level >= cost as real)
      && HGet(st', key, LastRefillField) == Some(now)
      && (r.allowed ==> HGet(st', key, TokensField) == Some(level - cost as real)
                        && r.remaining == (level - cost as real).Floor && r.retryAfter == None)
      && (!r.allowed ==> HGet(st', key, TokensField) == Some(level) && r.remaining == level.Floor
                         && r.retryAfter.Some? && r.retryAfter.value > 0.0
                         && r.retryAfter.value * c.refillRate == cost as real - level)
  {
    var key := StoreKeys.MakeKey(c.prefix, identifier, "");
    var level := Level(st, key, c.capacity, c.refillRate, now);
    var tokens := if level >= cost as real then level - cost as real else level;
    WriteBackReadsBack(st, key, tokens, now, c.capacity, c.refillRate, now);
  }

  /** On a store whose hash holds `tokens` written at `now`, a call at `t >= now` admits exactly
      when the tokens plus the refill since `now` (capped at capacity) cover the cost. */
  lemma AdmitsAfterWriteBack(c: Config, st: Store, identifier: string, cost: nat, tokens: real, now: real, t: real)
    requires c.Valid() && now <= t
    requires HGet(st, StoreKeys.MakeKey(c.prefix, identifier, ""), TokensField) == Some(tokens)
    requires HGet(st, StoreKeys.MakeKey(c.prefix, identifier, ""), LastRefillField) == Some(now)
    ensures AllowRequest(c, st, identifier, cost, t).1.allowed <==>
      Min(c.capacity as real, tokens + (t - now) * c.refillRate) >= cost as real
  {
    AdmitsIffLevelCoversCost(c, st, identifier, cost, t);
    LevelOfFields(st, StoreKeys.MakeKey(c.prefix, identifier, ""), c.capacity, c.refillRate, tokens, now, t);
  }

  /** Where the stored state is one the in-process bucket could hold (level in range, refill
      time not after `now`, missing fields read as the script reads them), the script decides as
      `TokenBucket.Allow` does and stores the level the in-process bucket keeps. */
  lemma ScriptMatchesLocalBucket(st: Store, key: string, capacity: nat, refillRate: real, requested: nat, now: real)
    requires refillRate > 0.0
    requires TokenBucket.Bucket(capacity, refillRate, StoredTokens(st, key, capacity), StoredLastRefill(st, key, now)).Ready(now)
    ensures var b := TokenBucket.Bucket(capacity, refillRate, StoredTokens(st, key, capacity), StoredLastRefill(st, key, now));
      var (st', reply) := Script(st, key, capacity, refillRate, requested, now);
      var (b', r) := TokenBucket.Allow(b, requested, now);
      && reply.allowed == r.allowed
      && HGet(st', key, TokensField) == Some(b'.tokens)
      && HGet(st', key, LastRefillField) == Some(b'.lastRefill)
  {
    var b := TokenBucket.Bucket(capacity, refillRate, StoredTokens(st, key, capacity), StoredLastRefill(st, key, now));
    var level := Level(st, key, capacity, refillRate, now);
    assert level == TokenBucket.Refilled(b, now);
    var tokens := if level >= requested as real then level - requested as real else level;
    WriteBackReadsBack(st, key, tokens, now, capacity, refillRate, now);
  }

  /** Waiting the reported `retry_after` is enough: the same request on the store the rejection
      left is admitted then (when it fits the capacity at all). */
  lemma RetryAfterSuffices(c: Config, st: Store, identifier: string, cost: nat, now: real)
    requires c.Valid() && cost <= c.capacity
    requires !AllowRequest(c, st, identifier, cost, now).1.allowed
    ensures var (st', r) := AllowRequest(c, st, identifier, cost, now);
      AllowRequest(c, st', identifier, cost, now + r.retryAfter.value).1.allowed
  {
    var level := Level(st, StoreKeys.MakeKey(c.prefix, identifier, ""), c.capacity, c.refillRate, now);
    var out := AllowRequest(c, st, identifier, cost, now);
    AdmitsIffLevelCoversCost(c, st, identifier, cost, now);
    AdmitsAtWait(c, out.0, identifier, cost, level, now, out.1.retryAfter.value);
  }

  /** On a store whose hash holds `tokens` written at `now`, the wait `w` that the rate turns into
      the missing tokens refills enough for a cost within the capacity. */
  lemma AdmitsAtWait(c: Config, st: Store, identifier: string, cost: nat, tokens: real, now: real, w: real)
    requires c.Valid() && cost <= c.capacity && w >= 0.0 && w * c.refillRate == cost as real - tokens
    requires HGet(st, StoreKeys.MakeKey(c.prefix, identifier, ""), TokensField) == Some(tokens)
    requires HGet(st, StoreKeys.MakeKey(c.prefix, identifier, ""), LastRefillField) == Some(now)
    ensures AllowRequest(c, st, identifier, cost, now + w).1.allowed
  {
    assert tokens + (now + w - now) * c.refillRate == cost as real;
    AdmitsAfterWriteBack(c, st, identifier, cost, tokens, now, now + w);
  }

  /** Waiting less than `retry_after` is not enough: the same request retried any earlier is
      rejected again. */
  lemma RetryAfterIsEarliest(c: Config, st: Store, identifier: string, cost: nat, now: real, t: real)
    requires c.Valid()
    requires !AllowRequest(c, st, identifier, cost, now).1.allowed
    requires now <= t < now + AllowRequest(c, st, identifier, cost, now).1.retryAfter.value
    ensures !AllowRequest(c, AllowRequest(c, st, identifier, cost, now).0, identifier, cost, t).1.allowed
  {
    var level := Level(st, StoreKeys.MakeKey(c.prefix, identifier, ""), c.capacity, c.refillRate, now);
    var out := AllowRequest(c, st, identifier, cost, now);
    AdmitsIffLevelCoversCost(c, st, identifier, cost, now);
    RejectsBeforeWait(c, out.0, identifier, cost, level, now, out.1.retryAfter.value, t);
  }

  lemma RejectsBeforeWait(c: Config, st: Store, identifier: string, cost: nat, tokens: real, now: real, w: real, t: real)
    requires c.Valid() && now <= t < now + w && w * c.refillRate == cost as real - tokens
    requires HGet(st, StoreKeys.MakeKey(c.prefix, identifier, ""), TokensField) == Some(tokens)
    requires HGet(st, StoreKeys.MakeKey(c.prefix, identifier, ""), LastRefillField) == Some(now)
    ensures !AllowRequest(c, st, identifier, cost, t).1.allowed
  {
    ShortWaitFallsShort(c.capacity as real, tokens, cost as real, c.refillRate, w, t - now);
    AdmitsAfterWriteBack(c, st, identifier, cost, tokens, now, t);
  }

  /** A refill over `d`, shorter than the wait `w` that the rate turns into the missing tokens,
      leaves the level short of the cost. */
  lemma ShortWaitFallsShort(capacity: real, level: real, cost: real, rate: real, w: real, d: real)
    requires rate > 0.0 && w * rate == cost - level && 0.0 <= d < w
    ensures Min(capacity, level + d * rate) < cost
  {
    ScaleLt(d, w, rate);
  }

  /** As written, the result differs from the exact one only in `retry_after`: the wait loses its
      fraction, and a wait under one second is reported as none. */
  lemma AsWrittenTruncatesRetry(c: Config, st: Store, identifier: string, cost: nat, now: real)
    requires c.Valid()
    ensures var (st1, r1) := AllowRequestAsWritten(c, st, identifier, cost, now);
      var (st2, r2) := AllowRequest(c, st, identifier, cost, now);
      && st1 == st2 && r1.allowed == r2.allowed && r1.remaining == r2.remaining && r1.resetAt == r2.resetAt
      && (r2.retryAfter.None? ==> r1.retryAfter.None?)
      && (r2.retryAfter.Some? ==>
            r1.retryAfter == if r2.retryAfter.value >= 1.0 then Some(r2.retryAfter.value.Floor as real) else None)
  {
    var key := StoreKeys.MakeKey(c.prefix, identifier, "");
    var reply := Script(st, key, c.capacity, c.refillRate, cost, now).1;
    if reply.retryAfter > 0.0 {
      assert IntegerReply(reply.retryAfter) == reply.retryAfter.Floor;
    }
  }

  /** A bucket at 0 tokens refilling 2 tokens a second rejects a single request and must wait
      half a second; as written the reply reports no wait at all. */
  lemma AsWrittenLosesHalfSecondWait()
    ensures var c := Config("rate_limit", 10, 2.0);
      var st := HSet(Empty(), "rate_limit:user", map[TokensField := 0.0, LastRefillField := 0.0]);
      var (_, asWritten) := AllowRequestAsWritten(c, st, "user", 1, 0.0);
      var (_, exact) := AllowRequest(c, st, "user", 1, 0.0);
      !asWritten.allowed && asWritten.retryAfter == None && exact.retryAfter == Some(0.5)
  {
    var c := Config("rate_limit", 10, 2.0);
    var st := HSet(Empty(), "rate_limit:user", map[TokensField := 0.0, LastRefillField := 0.0]);
    assert StoreKeys.MakeKey("rate_limit", "user", "") == "rate_limit:user";
    assert Level(st, "rate_limit:user", 10, 2.0, 0.0) == 0.0;
    assert IntegerReply(0.5) == 0;
  }
}
