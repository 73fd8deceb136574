/** `RedisSlidingWindowLog`: one sorted set per identifier under `prefix:identifier`, one entry
    per admitted token, named `f"{now}:{i}"` and scored with its admission time. A call first
    removes the entries scored in `[0, now - window_size]` and counts the rest; an admission
    then adds `tokens` entries, a rejection reads the oldest entry's score for its wait. */
module StoreSlidingLog {
  import opened Results
  import opened Store
  import StoreKeys
  import SlidingWindowLog

  /** The configuration of a `RedisSlidingWindowLog`; times are seconds. */
  datatype Config = Config(prefix: string, windowSize: int, limit: nat)
  {
    predicate Valid() {
      windowSize > 0
    }
  }

  /** The sorted set of `identifier`: `_make_key(identifier)`, with no suffix. */
  function LogKey(c: Config, identifier: string): string {
    StoreKeys.MakeKey(c.prefix, identifier, "")
  }

  /** The scores of a set's entries, in set order. */
  function Scores(z: seq<Entry>): (s: seq<real>)
    ensures |s| == |z|
  {
    seq(|z|, i requires 0 <= i < |z| => z[i].score)
  }

  /** The entries `f"{now}:{i}"` scored `now`, for `i` in `range(n)`, in the order they are
      added. */
  function Stamped(now: real, n: nat): (z: seq<Entry>)
    ensures |z| == n
    decreases n
  {
    if n == 0 then [] else Stamped(now, n - 1) + [Entry(Member(now, n - 1), now)]
  }

  /** The stamped entries are exactly the names `now:i` with `i < n`, each scored `now`. */
  lemma {:induction false} StampedEntries(now: real, n: nat)
    ensures forall e :: e in Stamped(now, n) <==> e.member.at == now && e.member.index < n && e.score == now
    decreases n
  {
    if n > 0 {
      StampedEntries(now, n - 1);
      var x := Entry(Member(now, n - 1), now);
      forall e
        ensures e in Stamped(now, n) <==> e in Stamped(now, n - 1) || e == x
      {
      }
    }
  }

  /** Stamped entries all score `now`. */
  lemma {:induction false} ScoresOfStamped(now: real, n: nat)
    ensures Scores(Stamped(now, n)) == Repeat(now, n)
    decreases n
  {
    if n > 0 {
      ScoresOfStamped(now, n - 1);
      ScoresOfAppend(Stamped(now, n - 1), [Entry(Member(now, n - 1), now)]);
    }
  }

  lemma ScoresOfAppend(a: seq<Entry>, b: seq<Entry>)
    ensures Scores(a + b) == Scores(a) + Scores(b)
  {
  }

  /** The set after `ZADD {f"{now}:{i}": now}` for `i` in `range(n)`; it grows by at most `n`. */
  function AddStamped(z: seq<Entry>, now: real, n: nat): (z': seq<Entry>)
    ensures |z'| <= |z| + n
    decreases n
  {
    if n == 0 then z else AddEntry(AddStamped(z, now, n - 1), Member(now, n - 1), now)
  }

  /** The admission pipeline's `ZADD`s on the store: only the identifier's set changes. */
  function AddAll(st: Store, key: string, now: real, n: nat): Store {
    if n == 0 then st else st.(zsets := st.zsets[key := AddStamped(Members(st, key), now, n)])
  }

  /** Each further `ZADD` of the pipeline is one more store command. */
  lemma AddAllStep(st: Store, key: string, now: real, n: nat)
    ensures AddAll(st, key, now, n + 1) == ZAdd(AddAll(st, key, now, n), key, Member(now, n), now)
  {
    var z := AddStamped(Members(st, key), now, n);
    assert Members(AddAll(st, key, now, n), key) == z;
    assert st.zsets[key := z][key := AddEntry(z, Member(now, n), now)]
        == st.zsets[key := AddEntry(z, Member(now, n), now)];
  }

  /** The `for i in range(tokens)` loop that queues one `ZADD` per token. */
  method AddEntries(st: Store, key: string, now: real, n: nat) returns (st': Store)
    ensures st' == AddAll(st, key, now, n)
  {
    st' := st;
    for i := 0 to n
      invariant st' == AddAll(st, key, now, i)
    {
      AddAllStep(st, key, now, i);
      st' := ZAdd(st', key, Member(now, i), now);
    }
  }

  /** The entry carries one of the names `now:i`, `i < n`, that the `ZADD`s write. */
  predicate StampedBy(e: Entry, now: real, n: nat) {
    e.member.at == now && e.member.index < n
  }

  /** After the `ZADD`s the set holds the stamped entries and every earlier entry whose name was
      not reused. */
  lemma {:induction false} AddStampedContents(z: seq<Entry>, now: real, n: nat)
    ensures forall e :: e in AddStamped(z, now, n) <==>
      (StampedBy(e, now, n) && e.score == now) || (e in z && !StampedBy(e, now, n))
    decreases n
  {
    if n > 0 {
      AddStampedContents(z, now, n - 1);
      StampOneMore(AddStamped(z, now, n - 1), z, now, n);
    }
  }

  /** One more `ZADD`, of the name `now:(n-1)`, extends the characterisation above from `n - 1`
      to `n` names. */
  lemma StampOneMore(y: seq<Entry>, z: seq<Entry>, now: real, n: nat)
    requires n > 0
    requires forall e :: e in y <==> (StampedBy(e, now, n - 1) && e.score == now) || (e in z && !StampedBy(e, now, n - 1))
    ensures forall e :: e in AddEntry(y, Member(now, n - 1), now) <==>
      (StampedBy(e, now, n) && e.score == now) || (e in z && !StampedBy(e, now, n))
  {
    AddEntryContents(y, Member(now, n - 1), now);
  }

  /** The `ZADD`s keep the set well formed. */
  lemma {:induction false} AddStampedIsWellFormed(z: seq<Entry>, now: real, n: nat)
    requires WellFormed(z)
    ensures WellFormed(AddStamped(z, now, n))
    decreases n
  {
    if n > 0 {
      AddStampedIsWellFormed(z, now, n - 1);
      AddEntryIsWellFormed(AddStamped(z, now, n - 1), Member(now, n - 1), now);
    }
  }

  /** The same on the store: the identifier's set as above, every other key as it was. */
  lemma AddAllContents(st: Store, key: string, now: real, n: nat)
    ensures var st' := AddAll(st, key, now, n);
      && (forall e :: e in Members(st', key) <==>
            (StampedBy(e, now, n) && e.score == now) || (e in Members(st, key) && !StampedBy(e, now, n)))
      && ZCard(st', key) <= ZCard(st, key) + n
      && (forall k :: k != key ==> Members(st', k) == Members(st, k))
      && st'.hashes == st.hashes && st'.counters == st.counters
  {
    AddStampedContents(Members(st, key), now, n);
  }

  /** The `ZADD`s keep every set of the store well formed. */
  lemma AddAllKeepsValid(st: Store, key: string, now: real, n: nat)
    requires Valid(st)
    ensures Valid(AddAll(st, key, now, n))
  {
    assert WellFormed(Members(st, key));
    AddStampedIsWellFormed(Members(st, key), now, n);
  }

  /** When no entry was added at the instant `now` and none scores above it, the `ZADD`s append
      the stamped entries: the set grows by exactly `n`. */
  lemma {:induction false} AddStampedAppends(z: seq<Entry>, now: real, n: nat)
    requires forall e :: e in z ==> e.member.at != now && e.score <= now
    ensures AddStamped(z, now, n) == z + Stamped(now, n)
    decreases n
  {
    if n > 0 {
      AddStampedAppends(z, now, n - 1);
      StampedEntries(now, n - 1);
      var m := Member(now, n - 1);
      var y := z + Stamped(now, n - 1);
      forall e | e in y
        ensures e.member != m && e.score <= now
      {
      }
      AddEntryNewLast(y, m, now);
      assert y + [Entry(m, now)] == z + Stamped(now, n);
    }
  }

  /** The first pipeline's `ZREMRANGEBYSCORE key 0 cutoff`. */
  function Pruned(c: Config, st: Store, identifier: string, now: real): Store
    requires c.Valid()
  {
    ZRemRangeByScore(st, LogKey(c, identifier), 0.0, now - c.windowSize as real)
  }

  /** The rejection's wait: `oldest + window_size - now` from `ZRANGE key 0 0 WITHSCORES`, or 0
      on an empty set. */
  function RetryAfter(c: Config, st: Store, key: string, now: real): (r: real)
    ensures LowestScore(st, key).None? ==> r == 0.0
    ensures LowestScore(st, key).Some? ==> now + r - c.windowSize as real == LowestScore(st, key).value
  {
    match LowestScore(st, key)
    case Some(oldest) => oldest + c.windowSize as real - now
    case None => 0.0
  }

  /** `allow_request(identifier, tokens)` at `now`: the store after both pipelines and the
      result. */
  function AllowRequest(c: Config, st: Store, identifier: string, cost: nat, now: real)
    : (out: (Store, RateLimitResult))
    requires c.Valid()
    ensures out.1.limit == c.limit && 0 <= out.1.remaining
    ensures out.1.retryAfter.Some? <==> !out.1.allowed
    ensures out.1.retryAfter.Some? ==> out.1.retryAfter.value >= 0.0
    ensures out.1.allowed ==> out.1.resetAt == now + c.windowSize as real
  {
    var key := LogKey(c, identifier);
    var pruned := Pruned(c, st, identifier, now);
    var count := ZCard(pruned, key);
    if count + cost <= c.limit then
      (AddAll(pruned, key, now, cost),
       RateLimitResult(true, c.limit, c.limit - count - cost, now + c.windowSize as real, None))
    else
      var retry := RetryAfter(c, pruned, key, now);
      (pruned, RateLimitResult(false, c.limit, 0, now + retry, Some(Max(0.0, retry))))
  }

  /** The call admits exactly when the entries left after the removal leave room for the cost.
      The removal drops exactly the entries scored in `[0, now - window_size]`; an admission
      then adds the cost's `ZADD`s and reports what is left of the limit; a rejection keeps
      the pruned set and reports the wait until the oldest entry leaves the window, never
      below 0. */
  lemma AdmitsIffCountFits(c: Config, st: Store, identifier: string, cost: nat, now: real)
    requires c.Valid()
    ensures var key := LogKey(c, identifier);
      var cutoff := now - c.windowSize as real;
      var pruned := Pruned(c, st, identifier, now);
      var count := ZCard(pruned, key);
      var (st', r) := AllowRequest(c, st, identifier, cost, now);
      && (forall e :: e in Members(pruned, key) <==> e in Members(st, key) && !(0.0 <= e.score <= cutoff))
      && r.limit == c.limit
      && (r.allowed <==> count + cost <= c.limit)
      && (r.allowed ==> st' == AddAll(pruned, key, now, cost) && r.remaining == c.limit - count - cost
                        && r.resetAt == now + c.windowSize as real && r.retryAfter == None)
      && (!r.allowed ==> st' == pruned && r.remaining == 0
                         && r.resetAt == now + RetryAfter(c, pruned, key, now)
                         && r.retryAfter == Some(Max(0.0, RetryAfter(c, pruned, key, now))))
  {
    ZRemRangeByScoreContents(st, LogKey(c, identifier), 0.0, now - c.windowSize as real);
  }

  /** The call keeps every sorted set well formed. */
  lemma StoreStaysValid(c: Config, st: Store, identifier: string, cost: nat, now: real)
    requires c.Valid() && Valid(st)
    ensures Valid(AllowRequest(c, st, identifier, cost, now).0)
  {
    var key := LogKey(c, identifier);
    ZRemRangeByScoreKeepsValid(st, key, 0.0, now - c.windowSize as real);
    AddAllKeepsValid(Pruned(c, st, identifier, now), key, now, cost);
  }

  /** A set within the limit stays within it: an admission adds no more than the room left. */
  lemma LogStaysWithinLimit(c: Config, st: Store, identifier: string, cost: nat, now: real)
    requires c.Valid() && ZCard(st, LogKey(c, identifier)) <= c.limit
    ensures ZCard(AllowRequest(c, st, identifier, cost, now).0, LogKey(c, identifier)) <= c.limit
  {
    var key := LogKey(c, identifier);
    ZRemRangeByScoreContents(st, key, 0.0, now - c.windowSize as real);
    AddAllContents(Pruned(c, st, identifier, now), key, now, cost);
  }

  /** The call touches no other key: other identifiers' sets, every hash and every counter keep
      their values, whatever colons the identifiers contain. */
  lemma OtherKeysUntouched(c: Config, st: Store, identifier: string, cost: nat, now: real, other: string)
    requires c.Valid() && other != identifier
    ensures var st' := AllowRequest(c, st, identifier, cost, now).0;
      && Members(st', LogKey(c, other)) == Members(st, LogKey(c, other))
      && st'.hashes == st.hashes && st'.counters == st.counters
  {
    var key := LogKey(c, identifier);
    if LogKey(c, other) == key {
      StoreKeys.PlainKeysAreDistinct(c.prefix, other, identifier);
    }
    ZRemRangeByScoreTouchesOneKey(st, key, 0.0, now - c.windowSize as real);
    AddAllContents(Pruned(c, st, identifier, now), key, now, cost);
  }

  /** An admission leaves the stamped entries and the pruned entries whose names were not
      reused; at an instant no earlier call used, with no entry scored later, that is the
      pruned set followed by exactly `cost` new entries. */
  lemma AdmittedEntries(c: Config, st: Store, identifier: string, cost: nat, now: real)
    requires c.Valid() && AllowRequest(c, st, identifier, cost, now).1.allowed
    ensures var key := LogKey(c, identifier);
      var pruned := Members(Pruned(c, st, identifier, now), key);
      var z' := Members(AllowRequest(c, st, identifier, cost, now).0, key);
      && (forall e :: e in z' <==>
            (StampedBy(e, now, cost) && e.score == now) || (e in pruned && !StampedBy(e, now, cost)))
      && ((forall e :: e in Members(st, key) ==> e.member.at != now && e.score <= now) ==>
            z' == pruned + Stamped(now, cost))
  {
    var key := LogKey(c, identifier);
    var p := Pruned(c, st, identifier, now);
    AdmitsIffCountFits(c, st, identifier, cost, now);
    AddAllContents(p, key, now, cost);
    if forall e :: e in Members(st, key) ==> e.member.at != now && e.score <= now {
      AddStampedAppends(Members(p, key), now, cost);
    }
  }

  /** With every entry scored within `[0, now]`, a rejection that finds entries left reports a
      wait in `(0, window_size]`, and by then the removal takes out the oldest entry. */
  lemma RetryAfterExpiresOldest(c: Config, st: Store, identifier: string, cost: nat, now: real)
    requires c.Valid() && Valid(st) && !AllowRequest(c, st, identifier, cost, now).1.allowed
    requires forall e :: e in Members(st, LogKey(c, identifier)) ==> 0.0 <= e.score <= now
    requires ZCard(Pruned(c, st, identifier, now), LogKey(c, identifier)) > 0
    ensures var key := LogKey(c, identifier);
      var (st', r) := AllowRequest(c, st, identifier, cost, now);
      var oldest := LowestScore(st', key).value;
      var later := ZRemRangeByScore(st', key, 0.0, now + r.retryAfter.value - c.windowSize as real);
      && 0.0 < r.retryAfter.value <= c.windowSize as real
      && forall e :: e in Members(later, key) ==> e.score > oldest
  {
    var key := LogKey(c, identifier);
    var cutoff := now - c.windowSize as real;
    var pruned := Pruned(c, st, identifier, now);
    var z := Members(st, key);
    var p := Keep(z, ScoredOutside(0.0, cutoff));
    assert Members(pruned, key) == p;
    OldestIsFresh(z, cutoff, now);
    var retry := p[0].score + c.windowSize as real - now;
    assert AllowRequest(c, st, identifier, cost, now) ==
        (pruned, RateLimitResult(false, c.limit, 0, now + retry, Some(Max(0.0, retry)))) by {
      assert ZCard(pruned, key) + cost > c.limit;
      AllowWhenFull(c, st, identifier, cost, now);
      assert LowestScore(pruned, key) == Some(p[0].score);
    }
    assert LowestScore(pruned, key) == Some(p[0].score);
    assert 0.0 < retry <= c.windowSize as real;
    var later := ZRemRangeByScore(pruned, key, 0.0, p[0].score);
    assert forall e :: e in Members(later, key) ==> e.score > p[0].score by {
      assert WellFormed(z) by { if key in st.zsets { assert WellFormed(st.zsets[key]); } }
      KeepIsWellFormed(z, ScoredOutside(0.0, cutoff));
      assert Members(later, key) == Keep(p, ScoredOutside(0.0, p[0].score));
      LaterThanOldest(p);
    }
  }

  /** After `ZREMRANGEBYSCORE key 0 cutoff` on entries scored in `[0, now]`, the first entry left
      scores in `(cutoff, now]`. */
  lemma OldestIsFresh(z: seq<Entry>, cutoff: real, now: real)
    requires forall e :: e in z ==> 0.0 <= e.score <= now
    ensures var p := Keep(z, ScoredOutside(0.0, cutoff));
      p != [] ==> cutoff < p[0].score <= now && 0.0 <= p[0].score
  {
    var p := Keep(z, ScoredOutside(0.0, cutoff));
    KeepContents(z, ScoredOutside(0.0, cutoff));
    if p != [] {
      assert p[0] in p;
    }
  }

  /** Removing everything scored in `[0, oldest]` from a non-empty set whose first entry is the
      oldest, at a non-negative score, leaves only entries scored above it. */
  lemma LaterThanOldest(p: seq<Entry>)
    requires WellFormed(p) && p != [] && 0.0 <= p[0].score
    ensures forall e :: e in Keep(p, ScoredOutside(0.0, p[0].score)) ==> e.score > p[0].score
  {
    KeepContents(p, ScoredOutside(0.0, p[0].score));
    forall e | e in p
      ensures p[0].score <= e.score
    {
      var i :| 0 <= i < |p| && p[i] == e;
      if i > 0 {
        assert Sorted(p);
      }
    }
  }

  /** Retrying before `retry_after` has passed removes nothing more, since every entry left
      scores at or after the oldest: the count is the same and the request is rejected again. */
  lemma RetryAfterIsEarliest(c: Config, st: Store, identifier: string, cost: nat, now: real, t: real)
    requires c.Valid() && Valid(st) && !AllowRequest(c, st, identifier, cost, now).1.allowed
    requires now <= t < now + AllowRequest(c, st, identifier, cost, now).1.retryAfter.value
    ensures !AllowRequest(c, AllowRequest(c, st, identifier, cost, now).0, identifier, cost, t).1.allowed
  {
    var key := LogKey(c, identifier);
    var out := AllowRequest(c, st, identifier, cost, now);
    AdmitsIffCountFits(c, st, identifier, cost, now);
    StoreStaysValid(c, st, identifier, cost, now);
    LowestScoreIsMinimum(out.0, key);
    RejectsWhileNothingExpires(c, out.0, identifier, cost, t);
  }

  /** On a set that is already too full for the cost and whose every entry is still inside the
      window at `t`, the call at `t` is rejected. */
  lemma RejectsWhileNothingExpires(c: Config, st: Store, identifier: string, cost: nat, t: real)
    requires c.Valid() && ZCard(st, LogKey(c, identifier)) + cost > c.limit
    requires forall e :: e in Members(st, LogKey(c, identifier)) ==> e.score > t - c.windowSize as real
    ensures !AllowRequest(c, st, identifier, cost, t).1.allowed
  {
    var key := LogKey(c, identifier);
    KeepAll(Members(st, key), ScoredOutside(0.0, t - c.windowSize as real));
  }

  /** On a well-formed set with no negative score, removing the entries scored in `[0, cutoff]`
      is the in-process log's pruning from the front. */
  lemma {:induction false} KeepMatchesPruned(z: seq<Entry>, cutoff: real)
    requires WellFormed(z) && forall e :: e in z ==> 0.0 <= e.score
    ensures Scores(Keep(z, ScoredOutside(0.0, cutoff))) == SlidingWindowLog.Pruned(Scores(z), cutoff)
    decreases |z|
  {
    var keep := ScoredOutside(0.0, cutoff);
    if z != [] {
      assert z[0] in z;
      assert Scores(z)[0] == z[0].score;
      if z[0].score <= cutoff {
        SplitFirst(z);
        forall e | e in z[1..]
          ensures 0.0 <= e.score
        {
          assert e in z;
        }
        KeepMatchesPruned(z[1..], cutoff);
        assert Scores(z)[1..] == Scores(z[1..]);
        assert Keep(z, keep) == Keep(z[1..], keep);
      } else {
        SplitFirst(z);
        forall e | e in z
          ensures keep(e)
        {
          if e != z[0] {
            var j :| 0 <= j < |z| && z[j] == e;
            assert e in z[1..] by { assert z[1..][j - 1] == e; }
          }
        }
        KeepAll(z, keep);
      }
    }
  }

  /** Where the store's set is the in-process log (same scores in the same order, none negative,
      none added at the instant `now`), the store-backed call decides as
      `SlidingWindowLog.Allow` does, reports the same remaining and wait (and, on a rejection,
      the same reset time), and leaves the set holding the in-process limiter's new log. */
  lemma MatchesLocalLog(c: Config, st: Store, identifier: string, l: SlidingWindowLog.Log, cost: nat, now: real)
    requires c.Valid() && Valid(st) && l.Ready(now)
    requires l.windowSize == c.windowSize && l.limit == c.limit
    requires Scores(Members(st, LogKey(c, identifier))) == l.requests
    requires forall e :: e in Members(st, LogKey(c, identifier)) ==> 0.0 <= e.score && e.member.at != now
    ensures var (st', r) := AllowRequest(c, st, identifier, cost, now);
      var (l', r') := SlidingWindowLog.Allow(l, cost, now);
      && r.allowed == r'.allowed && r.remaining == r'.remaining && r.retryAfter == r'.retryAfter
      && (!r.allowed ==> r.resetAt == r'.resetAt)
      && Scores(Members(st', LogKey(c, identifier))) == l'.requests
  {
    PrunedMatchesLocal(c, st, identifier, l, now);
    if |SlidingWindowLog.Pruned(l.requests, now - c.windowSize as real)| + cost <= l.limit {
      MatchesLocalAdmission(c, st, identifier, l, cost, now);
    } else {
      MatchesLocalRejection(c, st, identifier, l, cost, now);
    }
  }

  /** `AllowRequest` on a request that fits, for the proofs below. */
  lemma AllowWhenFits(c: Config, st: Store, identifier: string, cost: nat, now: real)
    requires c.Valid()
    requires ZCard(Pruned(c, st, identifier, now), LogKey(c, identifier)) + cost <= c.limit
    ensures var pruned := Pruned(c, st, identifier, now);
      var count := ZCard(pruned, LogKey(c, identifier));
      AllowRequest(c, st, identifier, cost, now) ==
        (AddAll(pruned, LogKey(c, identifier), now, cost),
         RateLimitResult(true, c.limit, c.limit - count - cost, now + c.windowSize as real, None))
  {
  }

  /** `AllowRequest` on a request that does not fit, for the proofs below. */
  lemma AllowWhenFull(c: Config, st: Store, identifier: string, cost: nat, now: real)
    requires c.Valid()
    requires ZCard(Pruned(c, st, identifier, now), LogKey(c, identifier)) + cost > c.limit
    ensures var pruned := Pruned(c, st, identifier, now);
      var retry := RetryAfter(c, pruned, LogKey(c, identifier), now);
      AllowRequest(c, st, identifier, cost, now) ==
        (pruned, RateLimitResult(false, c.limit, 0, now + retry, Some(Max(0.0, retry))))
  {
  }

  /** `MatchesLocalLog` when the cost fits. */
  lemma MatchesLocalAdmission(c: Config, st: Store, identifier: string, l: SlidingWindowLog.Log, cost: nat, now: real)
    requires c.Valid() && l.Ready(now)
    requires l.windowSize == c.windowSize && l.limit == c.limit
    requires Scores(Members(Pruned(c, st, identifier, now), LogKey(c, identifier)))
          == SlidingWindowLog.Pruned(l.requests, now - c.windowSize as real)
    requires forall e :: e in Members(Pruned(c, st, identifier, now), LogKey(c, identifier)) ==>
               e.member.at != now && e.score <= now
    requires |SlidingWindowLog.Pruned(l.requests, now - c.windowSize as real)| + cost <= l.limit
    ensures var (st', r) := AllowRequest(c, st, identifier, cost, now);
      var (l', r') := SlidingWindowLog.Allow(l, cost, now);
      && r.allowed == r'.allowed && r.remaining == r'.remaining && r.retryAfter == r'.retryAfter
      && (!r.allowed ==> r.resetAt == r'.resetAt)
      && Scores(Members(st', LogKey(c, identifier))) == l'.requests
  {
    var lp := SlidingWindowLog.Pruned(l.requests, now - c.windowSize as real);
    AllowWhenFits(c, st, identifier, cost, now);
    SlidingWindowLog.AllowWhenFits(l, lp, cost, now);
    AdmittedScores(Pruned(c, st, identifier, now), LogKey(c, identifier), now, cost);
  }

  /** `MatchesLocalLog` when the cost does not fit. */
  lemma MatchesLocalRejection(c: Config, st: Store, identifier: string, l: SlidingWindowLog.Log, cost: nat, now: real)
    requires c.Valid() && l.Ready(now)
    requires l.windowSize == c.windowSize && l.limit == c.limit
    requires Scores(Members(Pruned(c, st, identifier, now), LogKey(c, identifier)))
          == SlidingWindowLog.Pruned(l.requests, now - c.windowSize as real)
    requires |SlidingWindowLog.Pruned(l.requests, now - c.windowSize as real)| + cost > l.limit
    ensures var (st', r) := AllowRequest(c, st, identifier, cost, now);
      var (l', r') := SlidingWindowLog.Allow(l, cost, now);
      && r.allowed == r'.allowed && r.remaining == r'.remaining && r.retryAfter == r'.retryAfter
      && (!r.allowed ==> r.resetAt == r'.resetAt)
      && Scores(Members(st', LogKey(c, identifier))) == l'.requests
  {
    var lp := SlidingWindowLog.Pruned(l.requests, now - c.windowSize as real);
    AllowWhenFull(c, st, identifier, cost, now);
    SlidingWindowLog.AllowWhenFull(l, lp, cost, now);
    OldestScore(Pruned(c, st, identifier, now), LogKey(c, identifier));
  }

  /** The removal leaves the in-process log's pruned timestamps, none of them stamped at or
      after `now`. */
  lemma PrunedMatchesLocal(c: Config, st: Store, identifier: string, l: SlidingWindowLog.Log, now: real)
    requires c.Valid() && Valid(st) && l.Ready(now)
    requires l.windowSize == c.windowSize
    requires Scores(Members(st, LogKey(c, identifier))) == l.requests
    requires forall e :: e in Members(st, LogKey(c, identifier)) ==> 0.0 <= e.score && e.member.at != now
    ensures var p := Members(Pruned(c, st, identifier, now), LogKey(c, identifier));
      && Scores(p) == SlidingWindowLog.Pruned(l.requests, now - c.windowSize as real)
      && forall e :: e in p ==> e.member.at != now && e.score <= now
  {
    var key := LogKey(c, identifier);
    var z := Members(st, key);
    var keep := ScoredOutside(0.0, now - c.windowSize as real);
    assert Members(Pruned(c, st, identifier, now), key) == Keep(z, keep);
    assert WellFormed(z);
    KeepMatchesPruned(z, now - c.windowSize as real);
    ScoredNoLater(z, l, now);
    KeepContents(z, keep);
  }

  /** Stamping `n` entries at a fresh, latest instant appends `n` copies of it to the scores. */
  lemma AdmittedScores(st: Store, key: string, now: real, n: nat)
    requires forall e :: e in Members(st, key) ==> e.member.at != now && e.score <= now
    ensures Scores(Members(AddAll(st, key, now, n), key)) == Scores(Members(st, key)) + Repeat(now, n)
  {
    var z := Members(st, key);
    AddStampedAppends(z, now, n);
    if n > 0 {
      assert Members(AddAll(st, key, now, n), key) == z + Stamped(now, n);
    }
    ScoresOfAppend(z, Stamped(now, n));
    ScoresOfStamped(now, n);
  }

  /** `ZRANGE key 0 0 WITHSCORES` reads the first of the scores. */
  lemma OldestScore(st: Store, key: string)
    ensures LowestScore(st, key).Some? <==> Scores(Members(st, key)) != []
    ensures LowestScore(st, key).Some? ==> LowestScore(st, key).value == Scores(Members(st, key))[0]
  {
  }

  /** Entries of a set that is a ready in-process log score no later than `now`. */
  lemma ScoredNoLater(z: seq<Entry>, l: SlidingWindowLog.Log, now: real)
    requires l.Ready(now) && Scores(z) == l.requests
    ensures forall e :: e in z ==> e.score <= now
  {
    forall e | e in z
      ensures e.score <= now
    {
      var i :| 0 <= i < |z| && z[i] == e;
      var s := l.requests;
      assert SlidingWindowLog.At(s, i) <= SlidingWindowLog.At(s, |s| - 1);
    }
  }

  /** Member names repeat across calls at the same instant: two single-token admissions at the
      same `now` share the entry `now:0`, so the set counts one request where two were
      admitted. */
  lemma SameInstantSharesEntry()
    ensures var c := Config("rate_limit", 10, 5);
      var (st1, r1) := AllowRequest(c, Empty(), "user", 1, 100.0);
      var (st2, r2) := AllowRequest(c, st1, "user", 1, 100.0);
      r1.allowed && r2.allowed && ZCard(st2, "rate_limit:user") == 1
  {
    var c := Config("rate_limit", 10, 5);
    assert LogKey(c, "user") == "rate_limit:user";
    var e := Entry(Member(100.0, 0), 100.0);
    var st1 := AllowRequest(c, Empty(), "user", 1, 100.0).0;
    assert Members(Pruned(c, Empty(), "user", 100.0), "rate_limit:user") == [];
    assert Members(st1, "rate_limit:user") == [e];
    var p := Pruned(c, st1, "user", 100.0);
    assert Keep([e], ScoredOutside(0.0, 90.0)) == [e];
    assert Members(p, "rate_limit:user") == [e];
    assert Keep([e], NotNamed(Member(100.0, 0))) == [];
  }
}
