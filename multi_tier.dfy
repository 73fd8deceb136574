/** `MultiTierLimiter`: several limiters consulted in order for the same request. The first
    rejection is returned as it is, and the members after it are not consulted. When every member
    admits, the result with the fewest requests remaining is returned. No member class defines
    `rollback`, so the members that admitted before a rejection keep what they consumed. */
module MultiTier {
  import opened Results
  import TokenBucket
  import LeakyBucket
  import FixedWindow
  import SlidingWindowLog
  import SlidingWindowCounter
  import ConcurrentRequests

  /** The state of one member, whichever of the six limiters it is. */
  datatype TierState =
    | TokenState(tokenBucket: TokenBucket.Bucket)
    | LeakyState(leakyBucket: LeakyBucket.Bucket)
    | FixedState(fixedWindow: FixedWindow.Window)
    | LogState(log: SlidingWindowLog.Log)
    | CounterState(counter: SlidingWindowCounter.Counter)
    | ConcurrentState(gauge: ConcurrentRequests.Gauge)

  /** The member may be called at `now`: its own invariant and clock condition hold. */
  predicate Ready(t: TierState, now: real) {
    match t
    case TokenState(b) => b.Ready(now)
    case LeakyState(b) => b.Ready(now)
    case FixedState(w) => w.Valid()
    case LogState(l) => l.Ready(now)
    case CounterState(c) => c.Valid()
    case ConcurrentState(g) => g.Valid()
  }

  predicate AllReady(ts: seq<TierState>, now: real) {
    forall k :: 0 <= k < |ts| ==> Ready(ts[k], now)
  }

  /** A member that may be called at `now` may also be called at any later time. */
  lemma ReadyLater(t: TierState, now: real, later: real)
    requires Ready(t, now) && now <= later
    ensures Ready(t, later)
  {
  }

  /** One member's `allow_request(cost)` at `now`: its own step, which keeps the member of the
      same kind and callable again at `now`. */
  function Step(t: TierState, cost: nat, now: real): (out: (TierState, RateLimitResult))
    requires Ready(t, now)
    ensures Ready(out.0, now)
    ensures out.0.TokenState? == t.TokenState? && out.0.LeakyState? == t.LeakyState?
    ensures out.0.FixedState? == t.FixedState? && out.0.LogState? == t.LogState?
    ensures out.0.CounterState? == t.CounterState? && out.0.ConcurrentState? == t.ConcurrentState?
  {
    match t
    case TokenState(b) => var (b', r) := TokenBucket.Allow(b, cost, now); (TokenState(b'), r)
    case LeakyState(b) => var (b', r) := LeakyBucket.Allow(b, cost, now); (LeakyState(b'), r)
    case FixedState(w) => var (w', r) := FixedWindow.Allow(w, cost, now); (FixedState(w'), r)
    case LogState(l) => var (l', r) := SlidingWindowLog.Allow(l, cost, now); (LogState(l'), r)
    case CounterState(c) => var (c', r) := SlidingWindowCounter.Allow(c, cost, now); (CounterState(c'), r)
    case ConcurrentState(g) => var (g', r) := ConcurrentRequests.Allow(g, cost); (ConcurrentState(g'), r)
  }

  /** The position of the first member that rejects the request, or the member count if every
      member admits it. */
  function FirstRejection(ts: seq<TierState>, cost: nat, now: real): (n: nat)
    requires AllReady(ts, now)
    ensures n <= |ts|
    decreases |ts|
  {
    if ts == [] then 0
    else if !Step(ts[0], cost, now).1.allowed then 0
    else 1 + FirstRejection(ts[1..], cost, now)
  }

  /** Every member before the first rejection admits, and the member at it rejects. */
  lemma {:induction false} FirstRejectionIsFirst(ts: seq<TierState>, cost: nat, now: real)
    requires AllReady(ts, now)
    ensures var n := FirstRejection(ts, cost, now);
      && (forall k :: 0 <= k < n ==> Step(ts[k], cost, now).1.allowed)
      && (n < |ts| ==> !Step(ts[n], cost, now).1.allowed)
    decreases |ts|
  {
    if ts != [] && Step(ts[0], cost, now).1.allowed {
      var n := FirstRejection(ts, cost, now);
      FirstRejectionIsFirst(ts[1..], cost, now);
      forall k | 1 <= k < n
        ensures Step(ts[k], cost, now).1.allowed
      {
        assert ts[k] == ts[1..][k - 1];
      }
      if n < |ts| {
        assert ts[n] == ts[1..][n - 1];
      }
    }
  }

  /** A position before which every member admits, and at which a member rejects (or the list
      ends), is the first rejection. */
  lemma FirstRejectionAt(ts: seq<TierState>, cost: nat, now: real, i: nat)
    requires AllReady(ts, now) && i <= |ts|
    requires forall k :: 0 <= k < i ==> Step(ts[k], cost, now).1.allowed
    requires i < |ts| ==> !Step(ts[i], cost, now).1.allowed
    ensures FirstRejection(ts, cost, now) == i
  {
    FirstRejectionIsFirst(ts, cost, now);
  }

  /** How many members are consulted: up to and including the first that rejects. */
  function Consulted(ts: seq<TierState>, cost: nat, now: real): (m: nat)
    requires AllReady(ts, now)
    ensures m <= |ts| && (m == |ts| || m == FirstRejection(ts, cost, now) + 1)
  {
    var n := FirstRejection(ts, cost, now);
    if n < |ts| then n + 1 else n
  }

  /** The loop of `allow_request`: each member is called in order, stopping after the first
      rejection; the results come back in order. */
  function RunInOrder(ts: seq<TierState>, cost: nat, now: real): (out: (seq<TierState>, seq<RateLimitResult>))
    requires AllReady(ts, now)
    ensures |out.0| == |ts| && |out.1| <= |ts|
    decreases |ts|
  {
    if ts == [] then ([], [])
    else
      var (t', r) := Step(ts[0], cost, now);
      if !r.allowed then ([t'] + ts[1..], [r])
      else
        var (rest', rs) := RunInOrder(ts[1..], cost, now);
        ([t'] + rest', [r] + rs)
  }

  /** The run consults exactly the members up to the first rejection: those take their own step
      and report its result, and the members after them are untouched. */
  lemma {:induction false} RunInOrderSteps(ts: seq<TierState>, cost: nat, now: real)
    requires AllReady(ts, now)
    ensures var (after, rs) := RunInOrder(ts, cost, now);
      var m := Consulted(ts, cost, now);
      && |rs| == m
      && (forall k :: 0 <= k < m ==> after[k] == Step(ts[k], cost, now).0 && rs[k] == Step(ts[k], cost, now).1)
      && (forall k :: m <= k < |ts| ==> after[k] == ts[k])
    decreases |ts|
  {
    if ts != [] && Step(ts[0], cost, now).1.allowed {
      var (after, rs) := RunInOrder(ts, cost, now);
      var (after', rs') := RunInOrder(ts[1..], cost, now);
      RunInOrderSteps(ts[1..], cost, now);
      assert Consulted(ts, cost, now) == Consulted(ts[1..], cost, now) + 1;
      forall k | 1 <= k < |ts|
        ensures after[k] == after'[k - 1] && ts[k] == ts[1..][k - 1]
      {
      }
      forall k | 1 <= k < |rs|
        ensures rs[k] == rs'[k - 1]
      {
      }
    }
  }

  /** `min(results, key=lambda r: r.remaining)`: the first result with the fewest requests
      remaining. */
  function MostRestrictive(rs: seq<RateLimitResult>): (m: RateLimitResult)
    requires rs != []
    ensures exists i :: 0 <= i < |rs| && rs[i] == m && forall j :: 0 <= j < i ==> rs[j].remaining > m.remaining
    ensures forall j :: 0 <= j < |rs| ==> m.remaining <= rs[j].remaining
    decreases |rs|
  {
    if |rs| == 1 then rs[0]
    else
      var m' := MostRestrictive(rs[1..]);
      if rs[0].remaining <= m'.remaining then rs[0]
      else
        var i' :| 0 <= i' < |rs[1..]| && rs[1..][i'] == m' && forall j :: 0 <= j < i' ==> rs[1..][j].remaining > m'.remaining;
        assert rs[1 + i'] == m';
        assert forall j :: 1 <= j < |rs| ==> rs[j] == rs[1..][j - 1];
        m'
  }

  /** What `allow_request` returns: the first rejection, or the most restrictive of the
      admissions. An empty list of members has no result (`min` of an empty list raises). */
  function Decision(ts: seq<TierState>, cost: nat, now: real): (r: Option<RateLimitResult>)
    requires AllReady(ts, now)
    ensures r.None? <==> ts == []
    ensures r.Some? ==> exists k :: 0 <= k < |ts| && r.value == Step(ts[k], cost, now).1
  {
    RunInOrderSteps(ts, cost, now);
    var rs := RunInOrder(ts, cost, now).1;
    if rs == [] then None
    else if !rs[|rs| - 1].allowed then Some(rs[|rs| - 1])
    else Some(MostRestrictive(rs))
  }

  /** A run in which the members before `i` admit and member `i` rejects: the members up to `i`
      have taken their step, the rest are untouched, and the answer is member `i`'s result. */
  lemma RejectedAt(ts: seq<TierState>, cost: nat, now: real, i: nat, after: seq<TierState>)
    requires AllReady(ts, now) && i < |ts| && |after| == |ts|
    requires forall k :: 0 <= k < i ==> Step(ts[k], cost, now).1.allowed
    requires !Step(ts[i], cost, now).1.allowed
    requires forall k :: 0 <= k <= i ==> after[k] == Step(ts[k], cost, now).0
    requires forall k :: i < k < |ts| ==> after[k] == ts[k]
    ensures after == RunInOrder(ts, cost, now).0
    ensures Decision(ts, cost, now) == Some(Step(ts[i], cost, now).1)
  {
    FirstRejectionAt(ts, cost, now, i);
    RunInOrderSteps(ts, cost, now);
  }

  /** A run in which every member admits: all of them have taken their step, the results are
      theirs in order, and the answer is the most restrictive of them. */
  lemma AdmittedByAll(ts: seq<TierState>, cost: nat, now: real, after: seq<TierState>, rs: seq<RateLimitResult>)
    requires AllReady(ts, now) && |after| == |ts| && |rs| == |ts|
    requires forall k :: 0 <= k < |ts| ==> Step(ts[k], cost, now).1.allowed
    requires forall k :: 0 <= k < |ts| ==> after[k] == Step(ts[k], cost, now).0 && rs[k] == Step(ts[k], cost, now).1
    ensures after == RunInOrder(ts, cost, now).0 && rs == RunInOrder(ts, cost, now).1
    ensures Decision(ts, cost, now) == if ts == [] then None else Some(MostRestrictive(rs))
  {
    FirstRejectionAt(ts, cost, now, |ts|);
    RunInOrderSteps(ts, cost, now);
    assert rs == RunInOrder(ts, cost, now).1;
  }

  /** The members stay callable at `now` after the call. */
  lemma RunKeepsReady(ts: seq<TierState>, cost: nat, now: real)
    requires AllReady(ts, now)
    ensures AllReady(RunInOrder(ts, cost, now).0, now)
  {
    RunInOrderSteps(ts, cost, now);
  }

  /** There is an answer exactly when there is a member, and it is an admission exactly when
      every member, called on its own, admits. */
  lemma AdmitsIffEveryTierAdmits(ts: seq<TierState>, cost: nat, now: real)
    requires AllReady(ts, now)
    ensures Decision(ts, cost, now).None? <==> ts == []
    ensures ts != [] ==>
      (Decision(ts, cost, now).value.allowed <==> forall k :: 0 <= k < |ts| ==> Step(ts[k], cost, now).1.allowed)
  {
    FirstRejectionIsFirst(ts, cost, now);
    RunInOrderSteps(ts, cost, now);
    var n := FirstRejection(ts, cost, now);
    var rs := RunInOrder(ts, cost, now).1;
    if n < |ts| {
      assert rs[|rs| - 1] == Step(ts[n], cost, now).1;
    } else if ts != [] {
      var m := MostRestrictive(rs);
      var i :| 0 <= i < |rs| && rs[i] == m;
      assert m.allowed;
    }
  }

  /** A rejection is the first rejecting member's own result, returned as it is. The members
      before it keep the step they took (nothing is rolled back) and the members after it are
      not called. */
  lemma RejectionIsFirstRejecting(ts: seq<TierState>, cost: nat, now: real)
    requires AllReady(ts, now) && ts != [] && !Decision(ts, cost, now).value.allowed
    ensures var n := FirstRejection(ts, cost, now);
      var after := RunInOrder(ts, cost, now).0;
      && n < |ts| && Decision(ts, cost, now).value == Step(ts[n], cost, now).1
      && (forall k :: 0 <= k <= n ==> after[k] == Step(ts[k], cost, now).0)
      && (forall k :: n < k < |ts| ==> after[k] == ts[k])
  {
    AdmitsIffEveryTierAdmits(ts, cost, now);
    FirstRejectionIsFirst(ts, cost, now);
    RunInOrderSteps(ts, cost, now);
  }

  /** On an admission every member has been consulted: each has taken its step, the results
      are theirs in order, and the answer is the most restrictive of them. */
  lemma AdmissionConsultsEveryTier(ts: seq<TierState>, cost: nat, now: real)
    requires AllReady(ts, now) && ts != [] && Decision(ts, cost, now).value.allowed
    ensures var (after, rs) := RunInOrder(ts, cost, now);
      && |rs| == |ts| && Decision(ts, cost, now).value == MostRestrictive(rs)
      && (forall k :: 0 <= k < |ts| ==> rs[k] == Step(ts[k], cost, now).1)
      && (forall k :: 0 <= k < |ts| ==> after[k] == Step(ts[k], cost, now).0)
  {
    AdmitsIffEveryTierAdmits(ts, cost, now);
    FirstRejectionAt(ts, cost, now, |ts|);
    RunInOrderSteps(ts, cost, now);
  }

  /** An admission carries the fewest remaining requests of all members. */
  lemma AdmissionHasFewestRemaining(ts: seq<TierState>, cost: nat, now: real)
    requires AllReady(ts, now) && ts != [] && Decision(ts, cost, now).value.allowed
    ensures forall k :: 0 <= k < |ts| ==> Decision(ts, cost, now).value.remaining <= Step(ts[k], cost, now).1.remaining
  {
    AdmissionConsultsEveryTier(ts, cost, now);
    var rs := RunInOrder(ts, cost, now).1;
    forall k | 0 <= k < |ts|
      ensures Decision(ts, cost, now).value.remaining <= Step(ts[k], cost, now).1.remaining
    {
      assert rs[k] == Step(ts[k], cost, now).1;
    }
  }

  /** An admission is the result of the first member with the fewest remaining requests: every
      member before it has strictly more left. */
  lemma AdmissionIsFirstMostRestrictive(ts: seq<TierState>, cost: nat, now: real)
    requires AllReady(ts, now) && ts != [] && Decision(ts, cost, now).value.allowed
    ensures var r := Decision(ts, cost, now).value;
      exists i :: 0 <= i < |ts| && r == Step(ts[i], cost, now).1
                  && forall j :: 0 <= j < i ==> Step(ts[j], cost, now).1.remaining > r.remaining
  {
    AdmissionConsultsEveryTier(ts, cost, now);
    var rs := RunInOrder(ts, cost, now).1;
    var m := MostRestrictive(rs);
    var i :| 0 <= i < |rs| && rs[i] == m && forall j :: 0 <= j < i ==> rs[j].remaining > m.remaining;
    assert m == Step(ts[i], cost, now).1;
    forall j | 0 <= j < i
      ensures Step(ts[j], cost, now).1.remaining > m.remaining
    {
      assert rs[j] == Step(ts[j], cost, now).1;
    }
  }

  /** Nothing is rolled back: a full token bucket in front of a fixed window of limit 0 loses a
      token on a request that the combination rejects. */
  lemma RejectionKeepsEarlierConsumption()
    ensures var ts := [TokenState(TokenBucket.Initial(10, 1.0, 0.0)), FixedState(FixedWindow.Initial(60, 0))];
      var after := RunInOrder(ts, 1, 0.0).0;
      !Decision(ts, 1, 0.0).value.allowed && after[0].tokenBucket.tokens == 9.0
  {
  }

  /** A member of the combination: a reference to one of the six in-place limiters. */
  datatype Tier =
    | TokenTier(tokenLimiter: TokenBucket.TokenBucketLimiter)
    | LeakyTier(leakyLimiter: LeakyBucket.LeakyBucketLimiter)
    | FixedTier(fixedLimiter: FixedWindow.FixedWindowLimiter)
    | LogTier(logLimiter: SlidingWindowLog.SlidingWindowLogLimiter)
    | CounterTier(counterLimiter: SlidingWindowCounter.SlidingWindowCounterLimiter)
    | ConcurrentTier(concurrentLimiter: ConcurrentRequests.ConcurrentRequestsLimiter)

  /** The limiter object behind a member. */
  function Obj(t: Tier): object {
    match t
    case TokenTier(x) => x
    case LeakyTier(x) => x
    case FixedTier(x) => x
    case LogTier(x) => x
    case CounterTier(x) => x
    case ConcurrentTier(x) => x
  }

  /** The value of a member's fields. */
  function ModelOf(t: Tier): TierState
    reads Obj(t)
  {
    match t
    case TokenTier(x) => TokenState(x.Model())
    case LeakyTier(x) => LeakyState(x.Model())
    case FixedTier(x) => FixedState(x.Model())
    case LogTier(x) => LogState(x.Model())
    case CounterTier(x) => CounterState(x.Model())
    case ConcurrentTier(x) => ConcurrentState(x.Model())
  }

  /** `limiter.allow_request(tokens)` on one member: its own method, which does what its step
      function says. */
  method AllowTier(t: Tier, cost: nat, now: real) returns (r: RateLimitResult)
    requires Ready(ModelOf(t), now)
    modifies Obj(t)
    ensures (ModelOf(t), r) == Step(old(ModelOf(t)), cost, now)
  {
    match t
    case TokenTier(x) => r := x.AllowRequest(cost, now);
    case LeakyTier(x) => r := x.AllowRequest(cost, now);
    case FixedTier(x) => r := x.AllowRequest(cost, now);
    case LogTier(x) => r := x.AllowRequest(cost, now);
    case CounterTier(x) => r := x.AllowRequest(cost, now);
    case ConcurrentTier(x) => r := x.AllowRequest(cost);
  }

  /** The limiter objects behind a list of members. */
  function Footprint(ts: seq<Tier>): set<object> {
    set k | 0 <= k < |ts| :: Obj(ts[k])
  }

  /** The value of the members' fields, in order. */
  function StatesOf(ts: seq<Tier>): (ss: seq<TierState>)
    reads Footprint(ts)
    ensures |ss| == |ts| && forall k :: 0 <= k < |ts| ==> ss[k] == ModelOf(ts[k])
    decreases |ts|
  {
    if ts == [] then [] else [ModelOf(ts[0])] + StatesOf(ts[1..])
  }

  /** The in-place combination: the list of members given to `__init__`. */
  class MultiTierLimiter {
    const limiters: seq<Tier>

    constructor (limiters: seq<Tier>)
      ensures this.limiters == limiters
    {
      this.limiters := limiters;
    }

    /** No limiter object appears twice in the list. */
    predicate Distinct() {
      forall i, j :: 0 <= i < j < |limiters| ==> Obj(limiters[i]) != Obj(limiters[j])
    }

    /** The value of the members' fields. */
    function States(): seq<TierState>
      reads Footprint(limiters)
    {
      StatesOf(limiters)
    }

    method AllowRequest(cost: nat, now: real) returns (r: Option<RateLimitResult>)
      requires Distinct() && AllReady(States(), now)
      modifies Footprint(limiters)
      ensures AllReady(States(), now)
      ensures States() == RunInOrder(old(States()), cost, now).0
      ensures r == Decision(old(States()), cost, now)
    {
      ghost var s0 := States();
      var results: seq<RateLimitResult> := [];
      var i := 0;
      while i < |limiters|
        invariant 0 <= i <= |limiters| && |results| == i
        invariant forall k :: 0 <= k < i ==> results[k] == Step(s0[k], cost, now).1 && results[k].allowed
        invariant forall k :: 0 <= k < i ==> ModelOf(limiters[k]) == Step(s0[k], cost, now).0
        invariant forall k :: i <= k < |limiters| ==> ModelOf(limiters[k]) == s0[k]
      {
        var result := AllowAt(i, cost, now);
        results := results + [result];
        if !result.allowed {
          // `rollback` is looked up on the earlier members, but no limiter defines it.
          RejectedAt(s0, cost, now, i, States());
          RunKeepsReady(s0, cost, now);
          r := Some(result);
          return;
        }
        i := i + 1;
      }
      AdmittedByAll(s0, cost, now, States(), results);
      RunKeepsReady(s0, cost, now);
      if results == [] {
        r := None;
      } else {
        r := Some(MostRestrictive(results));
      }
    }

    /** The call on member `i`: it takes its own step, and no other member changes. */
    method AllowAt(i: nat, cost: nat, now: real) returns (r: RateLimitResult)
      requires Distinct() && i < |limiters| && Ready(ModelOf(limiters[i]), now)
      modifies Obj(limiters[i])
      ensures (ModelOf(limiters[i]), r) == Step(old(ModelOf(limiters[i])), cost, now)
      ensures forall k :: 0 <= k < |limiters| && k != i ==> ModelOf(limiters[k]) == old(ModelOf(limiters[k]))
    {
      r := AllowTier(limiters[i], cost, now);
      forall k | 0 <= k < |limiters| && k != i
        ensures ModelOf(limiters[k]) == old(ModelOf(limiters[k]))
      {
        assert Obj(limiters[k]) != Obj(limiters[i]);
        assert unchanged(Obj(limiters[k]));
      }
    }
  }
}
