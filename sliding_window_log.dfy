/** Sliding-window log (`SlidingWindowLogLimiter`): the times of the admitted requests, oldest
    first; entries at or before `now - window_size` are pruned from the front, and a request of
    cost `c` is admitted when `c` more entries fit in `limit`. */
module SlidingWindowLog {
  import opened Results

  /** Entry `i` of a log. Order facts are stated through it, so that they are only drawn on
      where a proof names the entries it compares. */
  function At(s: seq<real>, i: nat): real
    requires i < |s|
  {
    s[i]
  }

  /** Entries in non-decreasing order (the deque is only ever appended with the clock). */
  predicate Sorted(s: seq<real>) {
    forall i, j {:trigger At(s, i), At(s, j)} :: 0 <= i <= j < |s| ==> At(s, i) <= At(s, j)
  }

  /** The fields of a `SlidingWindowLogLimiter`; times are seconds. */
  datatype Log = Log(windowSize: int, limit: nat, requests: seq<real>)
  {
    /** Object invariant: a positive window, and a log in time order holding at most `limit`
        entries. */
    predicate Valid() {
      0 < windowSize && Sorted(requests) && |requests| <= limit
    }

    /** A call at `now` is well-formed: the invariant holds and the clock has not gone back
        past the newest entry. */
    predicate Ready(now: real) {
      Valid() && (|requests| > 0 ==> requests[|requests| - 1] <= now)
    }
  }

  /** The state `__init__` creates: an empty log. */
  function Initial(windowSize: int, limit: nat): (l: Log)
    requires windowSize > 0
    ensures l.Valid() && l.requests == []
  {
    Log(windowSize, limit, [])
  }

  /** The log `_remove_old_requests` leaves: it pops from the front while the oldest entry is
      at or before `cutoff`, so what is left is empty or starts after the cutoff. */
  function Pruned(s: seq<real>, cutoff: real): (p: seq<real>)
    ensures |p| <= |s|
    ensures p == [] || p[0] > cutoff
    decreases |s|
  {
    if s != [] && s[0] <= cutoff then Pruned(s[1..], cutoff) else s
  }

  /** Pruning only pops from the front: what is left is a suffix of the log. */
  lemma {:induction false} PrunedIsSuffix(s: seq<real>, cutoff: real)
    ensures Pruned(s, cutoff) == s[|s| - |Pruned(s, cutoff)|..]
    decreases |s|
  {
    if s != [] && s[0] <= cutoff {
      PrunedIsSuffix(s[1..], cutoff);
      assert s[1..][|s| - 1 - |Pruned(s, cutoff)|..] == s[|s| - |Pruned(s, cutoff)|..];
    }
  }

  /** Every entry that pruning pops is at or before the cutoff. */
  lemma {:induction false} PoppedAreExpired(s: seq<real>, cutoff: real)
    ensures forall i :: 0 <= i < |s| - |Pruned(s, cutoff)| ==> s[i] <= cutoff
    decreases |s|
  {
    if s != [] && s[0] <= cutoff {
      PoppedAreExpired(s[1..], cutoff);
      forall i | 1 <= i < |s| - |Pruned(s, cutoff)|
        ensures s[i] <= cutoff
      {
        assert s[i] == s[1..][i - 1];
      }
    }
  }

  /** On a log in time order, pruning keeps the order and leaves only entries after the
      cutoff. */
  lemma PrunedIsFresh(s: seq<real>, cutoff: real)
    requires Sorted(s)
    ensures Sorted(Pruned(s, cutoff))
    ensures forall i :: 0 <= i < |Pruned(s, cutoff)| ==> Pruned(s, cutoff)[i] > cutoff
  {
    var p := Pruned(s, cutoff);
    var n := |s| - |p|;
    PrunedIsSuffix(s, cutoff);
    forall i | 0 <= i < |p|
      ensures p[i] > cutoff
    {
      assert At(s, n) <= At(s, n + i);
    }
    forall i, j | 0 <= i <= j < |p|
      ensures At(p, i) <= At(p, j)
    {
      assert At(s, n + i) <= At(s, n + j);
    }
  }

  /** Pruning a log whose oldest entry is after the cutoff removes nothing. */
  lemma PrunedKeepsFresh(s: seq<real>, cutoff: real)
    requires s == [] || s[0] > cutoff
    ensures Pruned(s, cutoff) == s
  {
  }

  /** Appending entries stamped `now` to a log whose entries are all at or before `now` keeps
      it in time order. */
  lemma AppendKeepsSorted(s: seq<real>, now: real, n: nat)
    requires Sorted(s) && forall i :: 0 <= i < |s| ==> s[i] <= now
    ensures Sorted(s + Repeat(now, n))
  {
    var q := s + Repeat(now, n);
    forall i, j | 0 <= i <= j < |q|
      ensures At(q, i) <= At(q, j)
    {
      if j >= |s| {
        assert q[j] == now;
        if i < |s| {
          assert q[i] == s[i];
        }
      } else {
        assert q[i] == s[i] && q[j] == s[j];
        assert At(s, i) <= At(s, j);
      }
    }
  }

  /** The pruned log of a well-formed call holds only entries in `(now - windowSize, now]`, in
      time order. */
  lemma PrunedWithinWindow(l: Log, now: real)
    requires l.Ready(now)
    ensures var p := Pruned(l.requests, now - l.windowSize as real);
      Sorted(p) && |p| <= l.limit && forall i :: 0 <= i < |p| ==> now - l.windowSize as real < p[i] <= now
  {
    var cutoff := now - l.windowSize as real;
    var s := l.requests;
    var n := |s| - |Pruned(s, cutoff)|;
    PrunedIsSuffix(s, cutoff);
    PrunedIsFresh(s, cutoff);
    forall i | n <= i < |s|
      ensures s[i] <= now
    {
      assert At(s, i) <= At(s, |s| - 1);
    }
  }

  /** Appending `cost` entries stamped `now` to such a pruned log, within the limit, gives a
      well-formed log whose entries are all in the window. */
  lemma AdmittedLogIsReady(l: Log, p: seq<real>, cost: nat, now: real)
    requires l.windowSize > 0 && Sorted(p) && |p| + cost <= l.limit
    requires forall i :: 0 <= i < |p| ==> now - l.windowSize as real < p[i] <= now
    ensures var l' := l.(requests := p + Repeat(now, cost));
      l'.Ready(now) && forall i :: 0 <= i < |l'.requests| ==> l'.requests[i] > now - l.windowSize as real
  {
    AppendKeepsSorted(p, now, cost);
    var q := p + Repeat(now, cost);
    forall i | 0 <= i < |q|
      ensures now - l.windowSize as real < q[i] <= now
    {
      if i < |p| {
        assert q[i] == p[i];
      } else {
        assert q[i] == Repeat(now, cost)[i - |p|];
      }
    }
  }

  /** One `allow_request(cost)` at `now`: the new log and the decision. */
  function Allow(l: Log, cost: nat, now: real): (out: (Log, RateLimitResult))
    requires l.Ready(now)
    ensures out.0.Ready(now) && out.0.windowSize == l.windowSize && out.0.limit == l.limit
    ensures forall i :: 0 <= i < |out.0.requests| ==> out.0.requests[i] > now - l.windowSize as real
    ensures out.1.limit == l.limit && 0 <= out.1.remaining <= l.limit
  {
    var p := Pruned(l.requests, now - l.windowSize as real);
    PrunedWithinWindow(l, now);
    if |p| + cost <= l.limit then
      var q := p + Repeat(now, cost);
      AdmittedLogIsReady(l, p, cost, now);
      (l.(requests := q),
       RateLimitResult(true, l.limit, l.limit - |q|,
                       if q != [] then q[0] + l.windowSize as real else now + l.windowSize as real, None))
    else
      var retryAfter := if p != [] then p[0] + l.windowSize as real - now else 0.0;
      (l.(requests := p),
       RateLimitResult(false, l.limit, 0, if p != [] then p[0] + l.windowSize as real else now,
                       Some(Max(0.0, retryAfter))))
  }

  /** `Allow` on a request that fits, for the proof of the in-place method. */
  lemma AllowWhenFits(l: Log, p: seq<real>, cost: nat, now: real)
    requires l.Ready(now) && p == Pruned(l.requests, now - l.windowSize as real) && |p| + cost <= l.limit
    ensures var q := p + Repeat(now, cost);
      Allow(l, cost, now) == (l.(requests := q),
                              RateLimitResult(true, l.limit, l.limit - |q|,
                                              if q != [] then q[0] + l.windowSize as real else now + l.windowSize as real,
                                              None))
  {
  }

  /** `Allow` on a request that does not fit, for the proof of the in-place method. */
  lemma AllowWhenFull(l: Log, p: seq<real>, cost: nat, now: real)
    requires l.Ready(now) && p == Pruned(l.requests, now - l.windowSize as real) && |p| + cost > l.limit
    ensures Allow(l, cost, now) == (l.(requests := p),
                                    RateLimitResult(false, l.limit, 0, if p != [] then p[0] + l.windowSize as real else now,
                                                    Some(Max(0.0, if p != [] then p[0] + l.windowSize as real - now else 0.0))))
  {
  }

  /** `reset()`: the log emptied, the configuration kept. */
  function AfterReset(l: Log): (l': Log)
    requires l.Valid()
    ensures l' == Initial(l.windowSize, l.limit)
  {
    l.(requests := [])
  }

  /** The call admits exactly when the cost fits next to the entries left after pruning. An
      admission appends exactly `cost` copies of `now`, staying within the limit, and reports
      the free entries; a rejection leaves the pruned log as it is and reports a wait that is
      0 for an empty log and otherwise the positive time until the oldest entry expires. */
  lemma AdmitsIffCostFits(l: Log, cost: nat, now: real)
    requires l.Ready(now)
    ensures var (l', r) := Allow(l, cost, now);
      var p := Pruned(l.requests, now - l.windowSize as real);
      && (r.allowed <==> |p| + cost <= l.limit)
      && (r.allowed ==> l'.requests == p + Repeat(now, cost) && |l'.requests| <= l.limit
                        && r.remaining == l.limit - |l'.requests| && r.retryAfter == None)
      && (!r.allowed ==> l'.requests == p && r.remaining == 0 && r.retryAfter.Some? && r.retryAfter.value >= 0.0
                         && (p == [] ==> r.retryAfter.value == 0.0)
                         && (p != [] ==> r.retryAfter.value == p[0] + l.windowSize as real - now > 0.0))
  {
  }

  /** Retrying before `retry_after` has passed prunes nothing more, so the same request is
      rejected again. */
  lemma RetryAfterIsEarliest(l: Log, cost: nat, now: real, t: real)
    requires l.Ready(now) && !Allow(l, cost, now).1.allowed
    requires now <= t < now + Allow(l, cost, now).1.retryAfter.value
    ensures !Allow(Allow(l, cost, now).0, cost, t).1.allowed
  {
    var p := Pruned(l.requests, now - l.windowSize as real);
    AdmitsIffCostFits(l, cost, now);
    AllowWhenFull(l, p, cost, now);
    var l' := l.(requests := p);
    assert Allow(l, cost, now).0 == l';
    assert p != [] && t - l.windowSize as real < p[0];
    PrunedKeepsFresh(p, t - l.windowSize as real);
    AdmitsIffCostFits(l', cost, t);
  }

  /** At `now + retry_after` the oldest entry of a non-empty log has expired: the next call
      prunes at least one entry. */
  lemma RetryAfterExpiresOldest(l: Log, cost: nat, now: real)
    requires l.Ready(now) && !Allow(l, cost, now).1.allowed
    requires Allow(l, cost, now).0.requests != []
    ensures var (l', r) := Allow(l, cost, now);
      |Pruned(l'.requests, now + r.retryAfter.value - l.windowSize as real)| < |l'.requests|
  {
  }

  /** A request larger than the limit is never admitted; on an empty log its wait is 0. */
  lemma OversizedAlwaysRejected(l: Log, cost: nat, now: real)
    requires l.Ready(now) && cost > l.limit
    ensures !Allow(l, cost, now).1.allowed
  {
  }

  /** The in-place limiter: the fields of `SlidingWindowLogLimiter`, the deque as a sequence
      whose front is the oldest entry. */
  class SlidingWindowLogLimiter {
    const windowSize: int
    const limit: nat
    var requests: seq<real>

    /** The value of the fields. */
    function Model(): Log
      reads this
    {
      Log(windowSize, limit, requests)
    }

    constructor (windowSize: int, limit: nat)
      requires windowSize > 0
      ensures Model() == Initial(windowSize, limit)
    {
      this.windowSize := windowSize;
      this.limit := limit;
      requests := [];
    }

    /** `_remove_old_requests`: pop from the front while the oldest entry is at or before the
        cutoff. */
    method RemoveOldRequests(now: real)
      modifies this
      ensures Model() == old(Model()).(requests := Pruned(old(requests), now - windowSize as real))
    {
      var cutoff := now - windowSize as real;
      while requests != [] && requests[0] <= cutoff
        invariant Pruned(requests, cutoff) == Pruned(old(requests), cutoff)
        decreases |requests|
      {
        requests := requests[1..];
      }
    }

    /** The `for _ in range(tokens): append(now)` loop of `allow_request`. */
    method AppendRequests(now: real, n: nat)
      modifies this
      ensures requests == old(requests) + Repeat(now, n)
    {
      for i := 0 to n
        invariant requests == old(requests) + Repeat(now, i)
      {
        assert Repeat(now, i + 1) == Repeat(now, i) + [now];
        requests := requests + [now];
      }
    }

    method AllowRequest(cost: nat, now: real) returns (r: RateLimitResult)
      requires Model().Ready(now)
      modifies this
      ensures Model().Ready(now)
      ensures (Model(), r) == Allow(old(Model()), cost, now)
    {
      ghost var l := Model();
      PrunedWithinWindow(l, now);
      RemoveOldRequests(now);
      ghost var pruned := requests;
      if |requests| + cost <= limit {
        AppendRequests(now, cost);
        AllowWhenFits(l, pruned, cost, now);
        r := RateLimitResult(true, limit, limit - |requests|,
                             if requests != [] then requests[0] + windowSize as real else now + windowSize as real,
                             None);
      } else {
        AllowWhenFull(l, pruned, cost, now);
        var retryAfter := if requests != [] then requests[0] + windowSize as real - now else 0.0;
        r := RateLimitResult(false, limit, 0, if requests != [] then requests[0] + windowSize as real else now,
                             Some(Max(0.0, retryAfter)));
      }
    }

    method Reset()
      requires Model().Valid()
      modifies this
      ensures Model() == AfterReset(old(Model()))
    {
      requests := [];
    }
  }
}
