/** The per-tenant token bucket of `ratelimit.rs`, over exact reals. */
module RateLimit {
  import opened Results

  datatype Bucket = Bucket(tokens: real, last: real)

  datatype Limits = Limits(rate: real, burst: real) {
    ghost predicate Valid() {
      rate >= 0.0 && burst >= 1.0
    }
  }

  /** `duration_since` saturates at zero when the clock reads earlier than before. */
  function Elapsed(last: real, now: real): (d: real)
    ensures d >= 0.0 && d >= now - last
  {
    if now >= last then now - last else 0.0
  }

  /** Tokens earned over `d` seconds. */
  function Earned(l: Limits, d: real): real {
    d * l.rate
  }

  lemma EarnedAdds(l: Limits, a: real, b: real)
    ensures Earned(l, a + b) == Earned(l, a) + Earned(l, b)
    ensures Earned(l, 0.0) == 0.0
  {
  }

  lemma EarnedNonNegative(l: Limits, d: real)
    requires l.rate >= 0.0 && d >= 0.0
    ensures Earned(l, d) >= 0.0
  {
  }

  lemma EarnedMonotone(l: Limits, a: real, b: real)
    requires l.rate >= 0.0 && a <= b
    ensures Earned(l, a) <= Earned(l, b)
  {
    EarnedNonNegative(l, b - a);
    EarnedAdds(l, a, b - a);
  }

  function Refilled(l: Limits, b: Bucket, now: real): (tokens: real)
    ensures tokens <= l.burst
  {
    var refilled := b.tokens + Earned(l, Elapsed(b.last, now));
    if refilled <= l.burst then refilled else l.burst
  }

  predicate Grants(l: Limits, b: Bucket, now: real) {
    Refilled(l, b, now) >= 1.0
  }

  function Hit(l: Limits, b: Bucket, now: real): Bucket {
    Bucket(Refilled(l, b, now) - (if Grants(l, b, now) then 1.0 else 0.0), now)
  }

  class RateLimiter {
    const limits: Limits
    var buckets: map<u64, Bucket>

    constructor (rate: real, burst: real)
      ensures limits.rate == rate && limits.burst == (if burst >= 1.0 then burst else 1.0) && buckets == map[]
    {
      limits := Limits(rate, if burst >= 1.0 then burst else 1.0);
      buckets := map[];
    }

    /** `allow`: a tenant's first request finds a full bucket. */
    method Allow(tenant: u64, now: real) returns (ok: bool)
      modifies this
      ensures var b := BucketOf(limits, old(buckets), tenant, now);
              ok == Grants(limits, b, now) && buckets == old(buckets)[tenant := Hit(limits, b, now)]
      ensures limits.Valid() && old(AllWithin(limits, buckets)) ==> AllWithin(limits, buckets)
    {
      hide Earned, Within;
      var bucket := if tenant in buckets then buckets[tenant] else Bucket(limits.burst, now);
      var elapsed := if now >= bucket.last then now - bucket.last else 0.0;
      bucket := bucket.(last := now);
      var refilled := bucket.tokens + Earned(limits, elapsed);
      bucket := bucket.(tokens := if refilled <= limits.burst then refilled else limits.burst);
      ok := bucket.tokens >= 1.0;
      if ok {
        bucket := bucket.(tokens := bucket.tokens - 1.0);
      }
      if limits.Valid() && old(AllWithin(limits, buckets)) {
        FullIsWithin(limits, now);
        HitWithin(limits, BucketOf(limits, buckets, tenant, now), now);
      }
      buckets := buckets[tenant := bucket];
    }
  }

  function BucketOf(l: Limits, buckets: map<u64, Bucket>, tenant: u64, now: real): Bucket {
    if tenant in buckets then buckets[tenant] else Bucket(l.burst, now)
  }

  /** Tokens stay between zero and the burst. */
  ghost predicate Within(l: Limits, b: Bucket) {
    0.0 <= b.tokens <= l.burst
  }

  ghost predicate AllWithin(l: Limits, buckets: map<u64, Bucket>) {
    forall t :: t in buckets ==> Within(l, buckets[t])
  }

  lemma FullIsWithin(l: Limits, now: real)
    requires l.Valid()
    ensures Within(l, Bucket(l.burst, now))
  {
  }

  lemma HitWithin(l: Limits, b: Bucket, now: real)
    requires l.Valid() && Within(l, b)
    ensures Within(l, Hit(l, b, now))
  {
    hide Earned;
    EarnedNonNegative(l, Elapsed(b.last, now));
  }

  // ---------------------------------------------------------------- one tenant's requests

  /** The bucket after requests at the given times, in the order the lock admits them. */
  function After(l: Limits, times: seq<real>): Option<Bucket>
    decreases |times|, 0
  {
    if times == [] then None
    else
      var n := |times| - 1;
      Some(Hit(l, Before(l, times[..n], times[n]), times[n]))
  }

  /** The bucket a request at `now` finds. */
  function Before(l: Limits, times: seq<real>, now: real): Bucket
    decreases |times|, 1
  {
    match After(l, times)
    case Some(b) => b
    case None => Bucket(l.burst, now)
  }

  /** Requests granted among those from index `from` on. */
  function Granted(l: Limits, times: seq<real>, from: nat): nat {
    if |times| <= from then 0
    else
      var n := |times| - 1;
      Granted(l, times[..n], from) + if Grants(l, Before(l, times[..n], times[n]), times[n]) then 1 else 0
  }

  lemma {:induction false} AfterWithin(l: Limits, times: seq<real>)
    requires l.Valid() && times != []
    ensures Within(l, After(l, times).value) && After(l, times).value.last == times[|times| - 1]
    decreases |times|
  {
    var n := |times| - 1;
    if n > 0 {
      AfterWithin(l, times[..n]);
      assert After(l, times[..n]).Some?;
    } else {
      assert times[..n] == [];
    }
    assert Within(l, Before(l, times[..n], times[n]));
    HitWithin(l, Before(l, times[..n], times[n]), times[n]);
  }

  /** How far the clock moved forward, steps back not subtracted. */
  function Climb(times: seq<real>): real {
    if |times| < 2 then 0.0
    else Climb(times[..|times| - 1]) + Elapsed(times[|times| - 2], times[|times| - 1])
  }

  lemma OneHit(l: Limits, front: seq<real>, now: real, from: nat)
    requires front != [] && from < |front|
    ensures var b, all := After(l, front).value, front + [now];
            Granted(l, all, from) as real + After(l, all).value.tokens
              <= Granted(l, front, from) as real + b.tokens + Earned(l, Elapsed(b.last, now))
  {
    hide Elapsed, Earned;
    assert (front + [now])[..|front|] == front;
  }

  /** Tokens left plus requests granted never exceed the burst plus what the clock earned. */
  lemma {:induction false} Budget(l: Limits, times: seq<real>, from: nat)
    requires l.Valid() && from < |times|
    ensures Granted(l, times, from) as real + After(l, times).value.tokens <= l.burst + Earned(l, Climb(times[from..]))
    decreases |times|
  {
    hide Earned;
    var n := |times| - 1;
    var front := times[..n];
    if from == n {
      assert times[from..] == [times[n]];
      EarnedAdds(l, 0.0, 0.0);
    } else {
      Budget(l, front, from);
      AfterWithin(l, front);
      var window := times[from..];
      assert window[..|window| - 1] == front[from..];
      assert window[|window| - 2] == front[|front| - 1];
      var d := Elapsed(front[n - 1], times[n]);
      assert Climb(window) == Climb(front[from..]) + d;
      EarnedAdds(l, Climb(front[from..]), d);
      OneHit(l, front, times[n], from);
      assert times == front + [times[n]];
    }
  }

  /**
   The bound on any window of any request sequence, whatever the clock does: at most the burst plus
   the rate times the clock's forward movement inside the window.
   */
  lemma GrantedBounded(l: Limits, times: seq<real>, from: nat)
    requires l.Valid() && from < |times|
    ensures Granted(l, times, from) as real <= l.burst + Earned(l, Climb(times[from..]))
  {
    Budget(l, times, from);
    AfterWithin(l, times);
  }

  ghost predicate NonDecreasing(times: seq<real>) {
    forall i :: 0 < i < |times| ==> times[i - 1] <= times[i]
  }

  lemma {:induction false} ClimbAtLeast(times: seq<real>)
    requires times != []
    ensures Climb(times) >= times[|times| - 1] - times[0]
    ensures Climb(times) == times[|times| - 1] - times[0] <==> NonDecreasing(times)
    decreases |times|
  {
    var n := |times| - 1;
    if n > 0 {
      ClimbAtLeast(times[..n]);
      if NonDecreasing(times[..n]) && times[n - 1] <= times[n] {
        forall i | 0 < i < |times| ensures times[i - 1] <= times[i] {
          if i < n { assert times[..n][i - 1] <= times[..n][i]; }
        }
      }
      if NonDecreasing(times) {
        forall i | 0 < i < n ensures times[..n][i - 1] <= times[..n][i] { assert times[i - 1] <= times[i]; }
      }
    }
  }

  /** The advertised bound: with a clock that never steps back, burst + rate * window. */
  lemma WindowBound(l: Limits, times: seq<real>, from: nat)
    requires l.Valid() && from < |times| && NonDecreasing(times[from..])
    ensures Granted(l, times, from) as real <= l.burst + Earned(l, times[|times| - 1] - times[from])
  {
    GrantedBounded(l, times, from);
    ClimbAtLeast(times[from..]);
  }

  /** The advertised bound on the first `n` requests. */
  ghost predicate BoundHolds(l: Limits, times: seq<real>, n: nat)
    requires 0 < n <= |times|
  {
    Granted(l, times[..n], 0) as real <= l.burst + Earned(l, times[n - 1] - times[0])
  }

  /**
   The advertised bound holds, for every limiter and every number of requests, exactly when the
   clock never steps back.
   */
  lemma BoundIffOrdered(times: seq<real>)
    ensures NonDecreasing(times) <==> forall l: Limits, n: nat :: l.Valid() && 0 < n <= |times| ==> BoundHolds(l, times, n)
  {
    hide Granted, Earned;
    if NonDecreasing(times) {
      forall l: Limits, n: nat | l.Valid() && 0 < n <= |times| ensures BoundHolds(l, times, n) {
        assert times[..n][0..] == times[..n];
        WindowBound(l, times[..n], 0);
      }
    } else {
      var i := FirstStepBack(times);
      var l := StepBackBreaks(times, i);
    }
  }

  lemma {:induction false} FirstStepBack(times: seq<real>) returns (i: nat)
    requires !NonDecreasing(times)
    ensures 0 < i < |times| && times[i - 1] > times[i] && NonDecreasing(times[..i])
    decreases |times|
  {
    var n := |times| - 1;
    if NonDecreasing(times[..n]) {
      i := n;
      assert times[n - 1] > times[n] by {
        forall j | 0 < j < n ensures times[j - 1] <= times[j] { assert times[..n][j - 1] <= times[..n][j]; }
      }
    } else {
      i := FirstStepBack(times[..n]);
      assert times[..n][..i] == times[..i];
    }
  }

  /** A limiter that has granted all it may by the latest time before the step back is over the bound after it. */
  lemma StepBackBreaks(times: seq<real>, i: nat) returns (l: Limits)
    requires 0 < i < |times| && times[i - 1] > times[i] && NonDecreasing(times[..i])
    ensures l.Valid() && !BoundHolds(l, times, i + 1)
  {
    var front := times[..i];
    var climb := times[i - 1] - times[0];
    ClimbAtLeast(front);
    l := Limits(if climb > 0.0 then 1.0 / climb else 1.0, 1.0);
    if climb > 0.0 { EarnsOne(l, climb); } else { EarnedAdds(l, 0.0, 0.0); }
    GrantsWhatIsEarned(l, front);
    EarnedStrictly(l, times[i] - times[0], climb);
    assert times[..i + 1][..i] == front;
    hide Earned, Grants, Before;
    assert Granted(l, times[..i + 1], 0) >= Granted(l, front, 0);
  }

  lemma EarnsOne(l: Limits, d: real)
    requires d > 0.0 && l.rate == 1.0 / d
    ensures Earned(l, d) == 1.0
  {
  }

  lemma EarnedStrictly(l: Limits, a: real, b: real)
    requires l.rate > 0.0 && a < b
    ensures Earned(l, a) < Earned(l, b)
  {
  }

  /** With burst one and a clock in order, a second request is granted as soon as a token has been earned. */
  lemma {:induction false} GrantsWhatIsEarned(l: Limits, times: seq<real>)
    requires l.Valid() && l.burst == 1.0 && times != [] && NonDecreasing(times)
    ensures var earned := Earned(l, times[|times| - 1] - times[0]);
            Granted(l, times, 0) >= 2 || (Granted(l, times, 0) == 1 && After(l, times) == Some(Bucket(earned, times[|times| - 1])) && earned < 1.0)
    decreases |times|
  {
    var n := |times| - 1;
    var front, now := times[..n], times[n];
    assert front + [now] == times;
    OneMore(l, front, now);
    if n == 0 {
      FullHit(l, now);
    } else {
      hide Earned, After, Granted;
      GrantsWhatIsEarned(l, front);
      var earned := Earned(l, times[n - 1] - times[0]);
      EarnedAdds(l, times[n - 1] - times[0], now - times[n - 1]);
      if Granted(l, front, 0) == 1 {
        assert Before(l, front, now) == Bucket(earned, times[n - 1]);
        PartialHit(l, earned, times[n - 1], now);
      }
    }
  }

  lemma FullHit(l: Limits, now: real)
    requires l.Valid() && l.burst == 1.0
    ensures Granted(l, [], 0) == 0 && Before(l, [], now) == Bucket(1.0, now) && Earned(l, now - now) == 0.0
    ensures Grants(l, Bucket(1.0, now), now) && Hit(l, Bucket(1.0, now), now) == Bucket(0.0, now)
  {
    EarnedAdds(l, 0.0, 0.0);
    hide Earned;
    assert Elapsed(now, now) == 0.0;
  }

  lemma PartialHit(l: Limits, tokens: real, last: real, now: real)
    requires l.Valid() && l.burst == 1.0 && last <= now && tokens < 1.0
    ensures var earned := tokens + Earned(l, now - last);
            && (Grants(l, Bucket(tokens, last), now) <==> earned >= 1.0)
            && (earned < 1.0 ==> Hit(l, Bucket(tokens, last), now) == Bucket(earned, now))
  {
    hide Earned;
    assert Elapsed(last, now) == now - last;
  }

  /** With a clock that steps back the advertised bound fails: three requests granted in one second. */
  lemma BackwardClockGrantsMore()
    ensures var l, times := Limits(1.0, 1.0), [0.0, 1.0, 0.0, 1.0];
            l.Valid() && Granted(l, times, 0) == 3 && l.burst + Earned(l, times[3] - times[0]) == 2.0
  {
    var l := Limits(1.0, 1.0);
    UnitRate(l, 1.0);
    hide Earned, After, Before, Granted, Grants, Hit;
    FirstHit(l, 0.0);
    UnitStep(l, [0.0], Bucket(0.0, 0.0), 1.0);
    assert [0.0] + [1.0] == [0.0, 1.0];
    UnitStep(l, [0.0, 1.0], Bucket(0.0, 1.0), 0.0);
    assert [0.0, 1.0] + [0.0] == [0.0, 1.0, 0.0];
    UnitStep(l, [0.0, 1.0, 0.0], Bucket(0.0, 0.0), 1.0);
    assert [0.0, 1.0, 0.0] + [1.0] == [0.0, 1.0, 0.0, 1.0];
  }

  lemma UnitRate(l: Limits, d: real)
    requires l.rate == 1.0
    ensures Earned(l, d) == d
  {
  }

  lemma FirstHit(l: Limits, now: real)
    requires l == Limits(1.0, 1.0)
    ensures After(l, [now]) == Some(Bucket(0.0, now)) && Granted(l, [now], 0) == 1
  {
    UnitRate(l, 0.0);
    hide Earned;
    assert [now][..0] == [];
    assert Before(l, [], now) == Bucket(1.0, now);
    assert Granted(l, [], 0) == 0;
  }

  lemma UnitStep(l: Limits, times: seq<real>, b: Bucket, now: real)
    requires l == Limits(1.0, 1.0) && After(l, times) == Some(b) && b.tokens == 0.0
    requires Elapsed(b.last, now) == 0.0 || Elapsed(b.last, now) == 1.0
    ensures After(l, times + [now]) == Some(Bucket(0.0, now))
    ensures Granted(l, times + [now], 0) == Granted(l, times, 0) + if Elapsed(b.last, now) == 1.0 then 1 else 0
  {
    UnitRate(l, Elapsed(b.last, now));
    OneMore(l, times, now);
    hide Earned, After, Granted, Elapsed;
    assert Before(l, times, now) == b;
  }

  lemma OneMore(l: Limits, times: seq<real>, now: real)
    ensures After(l, times + [now]) == Some(Hit(l, Before(l, times, now), now))
    ensures Granted(l, times + [now], 0) == Granted(l, times, 0) + if Grants(l, Before(l, times, now), now) then 1 else 0
  {
    assert (times + [now])[..|times|] == times;
  }

  lemma EarnedForward(l: Limits, d: real)
    requires l.rate >= 0.0 && Earned(l, d) >= 1.0
    ensures d >= 0.0
  {
    if d < 0.0 {
      EarnedNonNegative(l, -d);
      EarnedAdds(l, d, -d);
    }
  }

  /** A tenant that leaves time for a token between requests is never refused. */
  lemma {:induction false} SpacedRequestsGranted(l: Limits, times: seq<real>)
    requires l.Valid() && forall i :: 0 < i < |times| ==> Earned(l, times[i] - times[i - 1]) >= 1.0
    ensures Granted(l, times, 0) == |times|
    decreases |times|
  {
    if times != [] {
      var n := |times| - 1;
      hide Earned;
      var front := times[..n];
      SpacedRequestsGranted(l, front);
      if n > 0 {
        AfterWithin(l, front);
        var d := times[n] - times[n - 1];
        assert Earned(l, d) >= 1.0;
        EarnedForward(l, d);
      }
    }
  }

  /**
   The burst is granted: as many requests as it has whole tokens are never refused, whatever the
   clock does and however slowly tokens are earned.
   */
  lemma BurstGranted(l: Limits, times: seq<real>)
    requires l.Valid() && |times| as real <= l.burst
    ensures Granted(l, times, 0) == |times|
  {
    if times != [] { BurstLeft(l, times); }
  }

  /** Each request granted so far has cost at most one of the first tokens. */
  lemma {:induction false} BurstLeft(l: Limits, times: seq<real>)
    requires l.Valid() && times != [] && |times| as real <= l.burst
    ensures Granted(l, times, 0) == |times| && After(l, times).Some? && After(l, times).value.tokens >= l.burst - |times| as real
    decreases |times|
  {
    hide Earned;
    var n := |times| - 1;
    var b := Before(l, times[..n], times[n]);
    if n > 0 {
      BurstLeft(l, times[..n]);
      AfterWithin(l, times[..n]);
    } else {
      assert times[..0] == [] && Granted(l, [], 0) == 0;
      assert b == Bucket(l.burst, times[0]);
    }
    EarnedNonNegative(l, Elapsed(b.last, times[n]));
    assert Refilled(l, b, times[n]) >= l.burst - n as real;
  }

  // ---------------------------------------------------------------- all tenants

  datatype Call = Call(tenant: u64, at: real)

  /** The buckets after any calls, in lock order. */
  function Buckets(l: Limits, calls: seq<Call>): map<u64, Bucket> {
    if calls == [] then map[]
    else
      var n := |calls| - 1;
      var before, c := Buckets(l, calls[..n]), calls[n];
      before[c.tenant := Hit(l, BucketOf(l, before, c.tenant, c.at), c.at)]
  }

  function Times(calls: seq<Call>, tenant: u64): seq<real> {
    if calls == [] then []
    else Times(calls[..|calls| - 1], tenant) + if calls[|calls| - 1].tenant == tenant then [calls[|calls| - 1].at] else []
  }

  /** A tenant's bucket, hence every answer it gets, depends on its own calls alone. */
  lemma {:induction false} TenantsIndependent(l: Limits, calls: seq<Call>, tenant: u64, now: real)
    ensures tenant in Buckets(l, calls) <==> Times(calls, tenant) != []
    ensures BucketOf(l, Buckets(l, calls), tenant, now) == Before(l, Times(calls, tenant), now)
    decreases |calls|
  {
    if calls != [] {
      var n := |calls| - 1;
      var front, c := calls[..n], calls[n];
      TenantsIndependent(l, front, tenant, now);
      if c.tenant == tenant {
        TenantsIndependent(l, front, tenant, c.at);
        var times := Times(calls, tenant);
        assert times[..|times| - 1] == Times(front, tenant);
      } else {
        assert Times(calls, tenant) == Times(front, tenant);
      }
    }
  }

  /** Requests of the tenant granted among all calls from index `from` on. */
  function GrantedTo(l: Limits, calls: seq<Call>, from: nat, tenant: u64): nat {
    if |calls| <= from then 0
    else
      var n := |calls| - 1;
      var c := calls[n];
      GrantedTo(l, calls[..n], from, tenant)
        + if c.tenant == tenant && Grants(l, BucketOf(l, Buckets(l, calls[..n]), tenant, c.at), c.at) then 1 else 0
  }

  ghost predicate InOrder(calls: seq<Call>, from: nat) {
    forall i :: from < i < |calls| ==> calls[i - 1].at <= calls[i].at
  }

  /** Seen by one tenant, a window over all calls is a window over its own. */
  lemma {:induction false} OwnWindow(l: Limits, calls: seq<Call>, from: nat, tenant: u64)
    requires from <= |calls|
    ensures var k, times := |Times(calls[..from], tenant)|, Times(calls, tenant);
            k <= |times| && GrantedTo(l, calls, from, tenant) == Granted(l, times, k)
    decreases |calls|
  {
    if from == |calls| {
      assert calls[..from] == calls;
    } else {
      var n := |calls| - 1;
      var front, c := calls[..n], calls[n];
      OwnWindow(l, front, from, tenant);
      assert front[..from] == calls[..from];
      TenantsIndependent(l, front, tenant, c.at);
      var times := Times(calls, tenant);
      if c.tenant == tenant {
        assert times[..|times| - 1] == Times(front, tenant);
      } else {
        assert times == Times(front, tenant);
      }
    }
  }

  /** Among any calls of other tenants, a tenant's own calls up to the burst are all granted. */
  lemma TenantBurstGranted(l: Limits, calls: seq<Call>, tenant: u64)
    requires l.Valid() && |Times(calls, tenant)| as real <= l.burst
    ensures GrantedTo(l, calls, 0, tenant) == |Times(calls, tenant)|
  {
    assert calls[..0] == [];
    OwnWindow(l, calls, 0, tenant);
    BurstGranted(l, Times(calls, tenant));
  }

  /** From index `k` on, the times ascend and stay between `lo` and `hi`. */
  ghost predicate WindowOf(times: seq<real>, k: nat, lo: real, hi: real) {
    k <= |times| && NonDecreasing(times[k..]) && forall i :: k <= i < |times| ==> lo <= times[i] <= hi
  }

  lemma WindowGrows(times: seq<real>, k: nat, lo: real, hi: real, at: real)
    requires WindowOf(times, k, lo, hi) && lo <= at && hi <= at
    ensures WindowOf(times, k, lo, at) && WindowOf(times + [at], k, lo, at)
  {
    var own := times[k..];
    assert (times + [at])[k..] == own + [at];
    forall i | 0 < i < |own| + 1 ensures (own + [at])[i - 1] <= (own + [at])[i] {
      if i == |own| { assert own[i - 1] == times[k + i - 1]; }
    }
  }

  lemma {:induction false} WindowTimes(calls: seq<Call>, from: nat, end: nat, tenant: u64)
    requires from <= end < |calls| && InOrder(calls, from)
    ensures WindowOf(Times(calls[..end + 1], tenant), |Times(calls[..from], tenant)|, calls[from].at, calls[end].at)
    decreases end
  {
    hide WindowOf, InOrder;
    var c, front := calls[end], calls[..end];
    var k, before := |Times(calls[..from], tenant)|, Times(front, tenant);
    assert calls[..end + 1][..end] == front;
    OrderedSpan(calls, from, end);
    if from == end {
      EmptyWindow(before, c.at);
      WindowGrows(before, k, c.at, c.at, c.at);
    } else {
      WindowTimes(calls, from, end - 1, tenant);
      OrderedSpan(calls, from, end - 1);
      LastStep(calls, from, end);
      WindowGrows(before, k, calls[from].at, calls[end - 1].at, c.at);
    }
    assert before + [] == before;
  }

  lemma EmptyWindow(times: seq<real>, at: real)
    ensures WindowOf(times, |times|, at, at)
  {
  }

  lemma LastStep(calls: seq<Call>, from: nat, end: nat)
    requires from < end < |calls| && InOrder(calls, from)
    ensures calls[end - 1].at <= calls[end].at
  {
  }

  /**
   Whatever the other tenants do: over any stretch of calls whose timestamps do not step back, a
   tenant is granted at most the burst plus the rate times the length of the stretch.
   */
  lemma TenantBounded(l: Limits, calls: seq<Call>, from: nat, tenant: u64)
    requires l.Valid() && from < |calls| && InOrder(calls, from)
    ensures GrantedTo(l, calls, from, tenant) as real <= l.burst + Earned(l, calls[|calls| - 1].at - calls[from].at)
  {
    hide Earned, GrantedTo, Granted, Times;
    var k, times := |Times(calls[..from], tenant)|, Times(calls, tenant);
    OwnWindow(l, calls, from, tenant);
    WindowTimes(calls, from, |calls| - 1, tenant);
    assert calls[..|calls|] == calls;
    var window := calls[|calls| - 1].at - calls[from].at;
    OrderedSpan(calls, from, |calls| - 1);
    if k < |times| {
      WindowBound(l, times, k);
      EarnedMonotone(l, times[|times| - 1] - times[k], window);
    } else {
      NothingAfterLast(l, times);
      EarnedNonNegative(l, window);
    }
  }

  lemma NothingAfterLast(l: Limits, times: seq<real>)
    ensures Granted(l, times, |times|) == 0
  {
  }

  lemma {:induction false} OrderedSpan(calls: seq<Call>, from: nat, end: nat)
    requires from <= end < |calls| && InOrder(calls, from)
    ensures calls[from].at <= calls[end].at
    decreases end
  {
    if from < end {
      OrderedSpan(calls, from, end - 1);
    }
  }
}
