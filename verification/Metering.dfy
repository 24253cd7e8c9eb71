/** Per-tenant metering and the latency histogram of `metrics.rs`. */
module Metering {
  import opened Results

  const MAX_TRACKED_TENANTS: nat := 10_000

  /** The key usage beyond the cap is folded into. */
  const OVERFLOW_TENANT: u64 := 0xffff_ffff_ffff_ffff

  const BOUNDS_NS: seq<nat> :=
    [100_000, 250_000, 500_000, 1_000_000, 2_500_000, 5_000_000, 10_000_000, 25_000_000, 50_000_000, 100_000_000,
     250_000_000, 500_000_000, 1_000_000_000]

  datatype Usage = Usage(queries: nat, capsulesReturned: nat, inserts: nat, deletes: nat)

  datatype Event = Queried(returned: nat) | Inserted | Deleted

  datatype Entry = Entry(tenant: u64, event: Event)

  function NoUsage(): Usage {
    Usage(0, 0, 0, 0)
  }

  function EventUsage(e: Event): Usage {
    match e
    case Queried(n) => Usage(1, n, 0, 0)
    case Inserted => Usage(0, 0, 1, 0)
    case Deleted => Usage(0, 0, 0, 1)
  }

  function Plus(a: Usage, b: Usage): Usage {
    Usage(a.queries + b.queries, a.capsulesReturned + b.capsulesReturned, a.inserts + b.inserts, a.deletes + b.deletes)
  }

  // ---------------------------------------------------------------- which key a tenant is billed under

  function KeyOf(tenants: map<u64, Usage>, tenant: u64): u64 {
    if tenant in tenants || |tenants| < MAX_TRACKED_TENANTS then tenant else OVERFLOW_TENANT
  }

  function UsageAt(tenants: map<u64, Usage>, key: u64): Usage {
    if key in tenants then tenants[key] else NoUsage()
  }

  function Metered(tenants: map<u64, Usage>, e: Entry): map<u64, Usage> {
    var key := KeyOf(tenants, e.tenant);
    tenants[key := Plus(UsageAt(tenants, key), EventUsage(e.event))]
  }

  /** The tenant map after a run of events. */
  function Run(log: seq<Entry>): map<u64, Usage> {
    if log == [] then map[] else Metered(Run(log[..|log| - 1]), log[|log| - 1])
  }

  /** At most the cap and the overflow key; keys are never given up. */
  lemma {:induction false} Bounded(log: seq<Entry>)
    ensures |Run(log)| <= MAX_TRACKED_TENANTS + 1
    ensures |Run(log)| > MAX_TRACKED_TENANTS ==> OVERFLOW_TENANT in Run(log)
    decreases |log|
  {
    if log != [] {
      var front, e := log[..|log| - 1], log[|log| - 1];
      Bounded(front);
      var key := KeyOf(Run(front), e.tenant);
      assert Run(log).Keys == Run(front).Keys + {key};
      if key !in Run(front) {
        assert |Run(log)| == |Run(front)| + 1;
      }
    }
  }

  lemma {:induction false} KeysGrow(log: seq<Entry>, n: nat)
    requires n <= |log|
    ensures Run(log[..n]).Keys <= Run(log).Keys && |Run(log[..n])| <= |Run(log)|
    decreases |log|
  {
    if n < |log| {
      var front := log[..|log| - 1];
      KeysGrow(front, n);
      assert front[..n] == log[..n];
      CardinalitySubset(Run(front).Keys, Run(log).Keys);
    } else {
      assert log[..n] == log;
    }
  }

  lemma {:induction false} CardinalitySubset<T>(a: set<T>, b: set<T>)
    requires a <= b
    ensures |a| <= |b|
  {
    if x :| x in a {
      CardinalitySubset(a - {x}, b - {x});
    } else {
      assert a == {};
    }
  }

  /** A tenant never in the map stays out once the map is full. */
  lemma {:induction false} LockedOut(log: seq<Entry>, n: nat, tenant: u64)
    requires n <= |log| && |Run(log[..n])| >= MAX_TRACKED_TENANTS
    requires tenant !in Run(log[..n]) && tenant != OVERFLOW_TENANT
    ensures tenant !in Run(log)
    decreases |log|
  {
    if n < |log| {
      var front := log[..|log| - 1];
      assert front[..n] == log[..n];
      LockedOut(front, n, tenant);
      KeysGrow(front, n);
    } else {
      assert log[..n] == log;
    }
  }

  /** Once a tenant has had an event, its key is settled for the rest of the run. */
  lemma KeyIsStable(log: seq<Entry>, n: nat)
    requires n < |log|
    ensures KeyOf(Run(log[..n]), log[n].tenant) == KeyOf(Run(log), log[n].tenant)
    ensures KeyOf(Run(log), log[n].tenant) in Run(log)
  {
    var t, before, after := log[n].tenant, Run(log[..n]), Run(log[..n + 1]);
    assert log[..n + 1][..n] == log[..n];
    KeysGrow(log, n + 1);
    KeysGrow(log, n);
    assert KeyOf(before, t) in after;
    if KeyOf(before, t) != t {
      LockedOut(log, n, t);
    }
  }

  // ---------------------------------------------------------------- conservation

  /** What the events billed under one key amount to, keys taken from the final map. */
  function BilledTo(tenants: map<u64, Usage>, log: seq<Entry>, key: u64): Usage {
    if log == [] then NoUsage()
    else
      var rest, e := BilledTo(tenants, log[..|log| - 1], key), log[|log| - 1];
      if KeyOf(tenants, e.tenant) == key then Plus(rest, EventUsage(e.event)) else rest
  }

  lemma {:induction false} BilledBySettledKeys(log: seq<Entry>, a: map<u64, Usage>, b: map<u64, Usage>, key: u64)
    requires forall i :: 0 <= i < |log| ==> KeyOf(a, log[i].tenant) == KeyOf(b, log[i].tenant)
    ensures BilledTo(a, log, key) == BilledTo(b, log, key)
    decreases |log|
  {
    if log != [] {
      assert KeyOf(a, log[|log| - 1].tenant) == KeyOf(b, log[|log| - 1].tenant);
      BilledBySettledKeys(log[..|log| - 1], a, b, key);
    }
  }

  /** Each key's counters are exactly the events of the tenants billed under it: none lost, none counted twice. */
  lemma {:induction false} KeyConserved(log: seq<Entry>, key: u64)
    ensures UsageAt(Run(log), key) == BilledTo(Run(log), log, key)
    decreases |log|
  {
    if log != [] {
      var n := |log| - 1;
      var front, e := log[..n], log[n];
      KeyConserved(front, key);
      KeyIsStable(log, n);
      forall i | 0 <= i < |front| ensures KeyOf(Run(front), front[i].tenant) == KeyOf(Run(log), front[i].tenant) {
        assert front[..i] == log[..i];
        KeyIsStable(front, i);
        KeyIsStable(log, i);
      }
      BilledBySettledKeys(front, Run(front), Run(log), key);
      hide Run, KeyOf, Metered, UsageAt, Plus, EventUsage;
      assert KeyOf(Run(front), e.tenant) == KeyOf(Run(log), e.tenant);
      LastEntry(log);
      MeteredAt(Run(front), e, key);
    }
  }

  lemma LastEntry(log: seq<Entry>)
    requires log != []
    ensures Run(log) == Metered(Run(log[..|log| - 1]), log[|log| - 1])
  {
  }

  lemma MeteredAt(tenants: map<u64, Usage>, e: Entry, key: u64)
    ensures UsageAt(Metered(tenants, e), key)
            == if KeyOf(tenants, e.tenant) == key then Plus(UsageAt(tenants, key), EventUsage(e.event)) else UsageAt(tenants, key)
  {
    hide KeyOf, Plus, EventUsage;
  }

  ghost function Sum(tenants: map<u64, Usage>): Usage
    decreases |tenants|
  {
    if tenants == map[] then NoUsage()
    else
      var key: u64 :| key in tenants;
      Plus(tenants[key], Sum(tenants - {key}))
  }

  lemma PlusSwap(a: Usage, b: Usage, c: Usage)
    ensures Plus(a, Plus(b, c)) == Plus(b, Plus(a, c))
    ensures Plus(Plus(a, b), c) == Plus(Plus(a, c), b)
    ensures Plus(Plus(NoUsage(), b), c) == Plus(c, b)
  {
  }

  lemma {:induction false} SumWithout(tenants: map<u64, Usage>, key: u64)
    requires key in tenants
    ensures Sum(tenants) == Plus(tenants[key], Sum(tenants - {key}))
    decreases |tenants|
  {
    var picked: u64 :| picked in tenants && Sum(tenants) == Plus(tenants[picked], Sum(tenants - {picked}));
    if picked != key {
      var a, b := tenants - {picked}, tenants - {key};
      SumWithout(a, key);
      SumWithout(b, picked);
      assert a - {key} == b - {picked};
      assert a[key] == tenants[key] && b[picked] == tenants[picked];
      PlusSwap(tenants[picked], tenants[key], Sum(a - {key}));
    }
  }

  function Total(log: seq<Entry>): Usage {
    if log == [] then NoUsage() else Plus(Total(log[..|log| - 1]), EventUsage(log[|log| - 1].event))
  }

  /** Summed over all keys, every counter equals the events recorded. */
  lemma {:induction false} TotalConserved(log: seq<Entry>)
    ensures Sum(Run(log)) == Total(log)
    decreases |log|
  {
    if log != [] {
      var front, e := log[..|log| - 1], log[|log| - 1];
      TotalConserved(front);
      MeteredAdds(Run(front), e);
    }
  }

  lemma MeteredAdds(before: map<u64, Usage>, e: Entry)
    ensures Sum(Metered(before, e)) == Plus(Sum(before), EventUsage(e.event))
  {
    hide Sum, Plus, EventUsage;
    var after, key := Metered(before, e), KeyOf(before, e.tenant);
    SumWithout(after, key);
    assert after - {key} == before - {key};
    PlusSwap(UsageAt(before, key), EventUsage(e.event), Sum(before - {key}));
    if key in before {
      SumWithout(before, key);
    } else {
      assert before - {key} == before;
    }
  }

  // ---------------------------------------------------------------- the counters in full

  /** The event is counted once, under the tenant's own key or the overflow key; every other key stays as it was. */
  ghost predicate Takes(before: map<u64, Usage>, tenant: u64, event: Event, after: map<u64, Usage>) {
    var key := if tenant in before || |before| < 10_000 then tenant else 0xffff_ffff_ffff_ffff;
    && after.Keys == before.Keys + {key} && (forall k :: k in before && k != key ==> after[k] == before[k])
    && Counted(if key in before then before[key] else Usage(0, 0, 0, 0), event, after[key])
  }

  predicate Counted(was: Usage, event: Event, now: Usage) {
    && now.queries == was.queries + (if event.Queried? then 1 else 0)
    && now.capsulesReturned == was.capsulesReturned + (if event.Queried? then event.returned else 0)
    && now.inserts == was.inserts + (if event.Inserted? then 1 else 0)
    && now.deletes == was.deletes + (if event.Deleted? then 1 else 0)
  }

  lemma MeteredTakes(before: map<u64, Usage>, tenant: u64, event: Event)
    ensures Takes(before, tenant, event, Metered(before, Entry(tenant, event)))
  {
    hide Plus, EventUsage, Counted;
    var key := KeyOf(before, tenant);
    var after := Metered(before, Entry(tenant, event));
    PlusCounts(UsageAt(before, key), event);
    assert after.Keys == before.Keys + {key};
    assert after[key] == Plus(UsageAt(before, key), EventUsage(event));
  }

  lemma PlusCounts(was: Usage, event: Event)
    ensures Counted(was, event, Plus(was, EventUsage(event)))
  {
  }

  datatype Kind = Query | Insert | Delete

  function KindOf(e: Event): Kind {
    match e
    case Queried(_) => Query
    case Inserted => Insert
    case Deleted => Delete
  }

  predicate BilledAt(tenants: map<u64, Usage>, log: seq<Entry>, key: u64, kind: Kind, i: nat) {
    i < |log| && KeyOf(tenants, log[i].tenant) == key && KindOf(log[i].event) == kind
  }

  /** The places in the log of the events of one kind billed under `key`. */
  function Events(tenants: map<u64, Usage>, log: seq<Entry>, key: u64, kind: Kind): (s: set<nat>)
    ensures forall i: nat :: i in s <==> BilledAt(tenants, log, key, kind, i)
  {
    set i: nat | 0 <= i < |log| && BilledAt(tenants, log, key, kind, i)
  }

  lemma EventsSnoc(tenants: map<u64, Usage>, log: seq<Entry>, key: u64, kind: Kind)
    requires log != []
    ensures var n := |log| - 1;
            |Events(tenants, log, key, kind)| == |Events(tenants, log[..n], key, kind)| + if BilledAt(tenants, log, key, kind, n) then 1 else 0
  {
    var n := |log| - 1;
    forall i: nat ensures BilledAt(tenants, log, key, kind, i) <==> BilledAt(tenants, log[..n], key, kind, i) || (i == n && BilledAt(tenants, log, key, kind, n)) {
      BilledEarlier(tenants, log, key, kind, i);
    }
    BilledEarlier(tenants, log, key, kind, n);
    hide BilledAt;
    OneMoreMember(Events(tenants, log, key, kind), Events(tenants, log[..n], key, kind), n);
  }

  lemma BilledEarlier(tenants: map<u64, Usage>, log: seq<Entry>, key: u64, kind: Kind, i: nat)
    requires log != []
    ensures var n := |log| - 1;
            BilledAt(tenants, log[..n], key, kind, i) <==> i < n && BilledAt(tenants, log, key, kind, i)
  {
    hide KeyOf;
  }

  lemma OneMoreMember(all: set<nat>, before: set<nat>, n: nat)
    requires n !in before && forall i: nat :: i in all <==> i in before || (i == n && n in all)
    ensures |all| == |before| + if n in all then 1 else 0
  {
    if n in all { assert all == before + {n}; } else { assert all == before; }
  }

  lemma {:induction false} BilledCounts(tenants: map<u64, Usage>, log: seq<Entry>, key: u64)
    ensures var billed := BilledTo(tenants, log, key);
            && billed.queries == |Events(tenants, log, key, Query)|
            && billed.inserts == |Events(tenants, log, key, Insert)|
            && billed.deletes == |Events(tenants, log, key, Delete)|
    decreases |log|
  {
    hide KeyOf, Events;
    if log == [] {
      NoEvents(tenants, key);
    } else {
      BilledCounts(tenants, log[..|log| - 1], key);
      EventsSnoc(tenants, log, key, Query);
      EventsSnoc(tenants, log, key, Insert);
      EventsSnoc(tenants, log, key, Delete);
    }
  }

  lemma NoEvents(tenants: map<u64, Usage>, key: u64)
    ensures forall kind :: Events(tenants, [], key, kind) == {}
  {
  }

  /** Each counter under a key is the number of events of its kind billed there. */
  lemma CountersCount(log: seq<Entry>, key: u64)
    ensures var usage := UsageAt(Run(log), key);
            && usage.queries == |Events(Run(log), log, key, Query)|
            && usage.inserts == |Events(Run(log), log, key, Insert)|
            && usage.deletes == |Events(Run(log), log, key, Delete)|
  {
    hide Run, UsageAt, BilledTo, Events;
    KeyConserved(log, key);
    BilledCounts(Run(log), log, key);
  }

  /** The tenants a log names. */
  function TenantsOf(log: seq<Entry>): (s: set<u64>)
    ensures forall t :: t in s <==> exists i :: 0 <= i < |log| && log[i].tenant == t
  {
    set i | 0 <= i < |log| :: log[i].tenant
  }

  /** Up to ten thousand tenants, each is billed under its own key, and there are no others. */
  lemma {:induction false} OwnKeys(log: seq<Entry>)
    requires |TenantsOf(log)| <= 10_000
    ensures Run(log).Keys == TenantsOf(log)
    ensures forall i :: 0 <= i < |log| ==> KeyOf(Run(log), log[i].tenant) == log[i].tenant
    decreases |log|
  {
    if log == [] {
      assert TenantsOf(log) == {};
    } else {
      var n := |log| - 1;
      var front, t := log[..n], log[n].tenant;
      TenantsSnoc(log);
      if t in TenantsOf(front) { assert TenantsOf(front) + {t} == TenantsOf(front); }
      OwnKeys(front);
      assert |Run(front)| == |Run(front).Keys|;
      assert Run(log).Keys == Run(front).Keys + {t};
    }
  }

  lemma TenantsSnoc(log: seq<Entry>)
    requires log != []
    ensures var n := |log| - 1;
            TenantsOf(log) == TenantsOf(log[..n]) + {log[n].tenant} && |TenantsOf(log[..n])| <= |TenantsOf(log)|
            && (log[n].tenant !in TenantsOf(log[..n]) ==> |TenantsOf(log[..n])| < |TenantsOf(log)|)
  {
    var n := |log| - 1;
    forall x ensures x in TenantsOf(log) <==> x in TenantsOf(log[..n]) + {log[n].tenant} {
      if i :| 0 <= i < |log| && log[i].tenant == x {
        if i < n { assert log[..n][i].tenant == x; }
      }
      if i :| 0 <= i < n && log[..n][i].tenant == x { assert log[i].tenant == x; }
    }
    assert TenantsOf(log) == TenantsOf(log[..n]) + {log[n].tenant};
    CardinalitySubset(TenantsOf(log[..n]), TenantsOf(log));
  }

  // ---------------------------------------------------------------- latency histogram

  /** The first bucket whose bound admits the latency; anything slower goes to the last one. */
  function BucketFor(latency: nat, from: nat): (b: nat)
    requires from <= |BOUNDS_NS|
    ensures b < |BOUNDS_NS|
    decreases |BOUNDS_NS| - from
  {
    if from == |BOUNDS_NS| then |BOUNDS_NS| - 1
    else if latency <= BOUNDS_NS[from] then from
    else BucketFor(latency, from + 1)
  }

  lemma {:induction false} BucketForAdmits(latency: nat, from: nat)
    requires from <= |BOUNDS_NS| && forall i :: 0 <= i < from ==> latency > BOUNDS_NS[i]
    ensures forall i :: 0 <= i < |BOUNDS_NS| - 1 ==> (BucketFor(latency, from) <= i <==> latency <= BOUNDS_NS[i])
    decreases |BOUNDS_NS| - from
  {
    if from < |BOUNDS_NS| && latency > BOUNDS_NS[from] {
      BucketForAdmits(latency, from + 1);
    }
  }

  function CountAt(latencies: seq<nat>, bucket: nat): nat {
    if latencies == [] then 0
    else CountAt(latencies[..|latencies| - 1], bucket) + if BucketFor(latencies[|latencies| - 1], 0) == bucket then 1 else 0
  }

  function CountWithin(latencies: seq<nat>, bound: nat): nat {
    if latencies == [] then 0
    else CountWithin(latencies[..|latencies| - 1], bound) + if latencies[|latencies| - 1] <= bound then 1 else 0
  }

  /** The cumulative row rendered for bucket `i`. */
  function Row(buckets: seq<nat>, i: nat): nat
    requires i < |buckets|
  {
    buckets[i] + if i == 0 then 0 else Row(buckets, i - 1)
  }

  ghost predicate Histogram(buckets: seq<nat>, latencies: seq<nat>) {
    |buckets| == |BOUNDS_NS| && forall i :: 0 <= i < |BOUNDS_NS| ==> buckets[i] == CountAt(latencies, i)
  }

  class Metrics {
    var queriesTotal: nat
    var capsulesReturnedTotal: nat
    var candidatesScoredTotal: nat
    var latencySumNs: nat
    const buckets: array<nat>
    var tenants: map<u64, Usage>

    /** The histogram holds exactly the latencies recorded so far. */
    ghost predicate Holds(latencies: seq<nat>)
      reads this, buckets
    {
      queriesTotal == |latencies| && Histogram(buckets[..], latencies)
    }

    constructor ()
      ensures Holds([]) && tenants == Run([]) && fresh(buckets)
    {
      queriesTotal, capsulesReturnedTotal, candidatesScoredTotal, latencySumNs := 0, 0, 0, 0;
      buckets := new nat[13](_ => 0);
      tenants := map[];
    }

    /** `record_query`, whatever was recorded before. */
    method RecordQuery(returned: nat, candidates: nat, latency: nat, ghost before: seq<nat>)
      requires Holds(before)
      modifies this`queriesTotal, this`capsulesReturnedTotal, this`candidatesScoredTotal, this`latencySumNs, buckets
      ensures Holds(before + [latency])
      ensures capsulesReturnedTotal == old(capsulesReturnedTotal) + returned
      ensures candidatesScoredTotal == old(candidatesScoredTotal) + candidates && latencySumNs == old(latencySumNs) + latency
    {
      queriesTotal := queriesTotal + 1;
      capsulesReturnedTotal := capsulesReturnedTotal + returned;
      candidatesScoredTotal := candidatesScoredTotal + candidates;
      latencySumNs := latencySumNs + latency;
      var i := 0;
      while i < |BOUNDS_NS| && latency > BOUNDS_NS[i]
        invariant i <= |BOUNDS_NS| && BucketFor(latency, i) == BucketFor(latency, 0)
      {
        i := i + 1;
      }
      var bucket := if i < |BOUNDS_NS| then i else |BOUNDS_NS| - 1;
      assert bucket == BucketFor(latency, 0);
      assert (before + [latency])[..|before|] == before;
      buckets[bucket] := buckets[bucket] + 1;
    }

    /** `with_tenant` and the three recorders built on it. */
    method WithTenant(tenant: u64, event: Event)
      modifies this`tenants
      ensures tenants == Metered(old(tenants), Entry(tenant, event))
      ensures Takes(old(tenants), tenant, event, tenants)
    {
      hide Takes;
      var key := if tenant in tenants || |tenants| < MAX_TRACKED_TENANTS then tenant else OVERFLOW_TENANT;
      var usage := if key in tenants then tenants[key] else NoUsage();
      match event {
        case Queried(returned) =>
          usage := usage.(queries := usage.queries + 1, capsulesReturned := usage.capsulesReturned + returned);
        case Inserted => usage := usage.(inserts := usage.inserts + 1);
        case Deleted => usage := usage.(deletes := usage.deletes + 1);
      }
      MeteredTakes(tenants, tenant, event);
      tenants := tenants[key := usage];
    }
  }

  function CountUpTo(latencies: seq<nat>, bucket: nat): nat {
    if latencies == [] then 0
    else CountUpTo(latencies[..|latencies| - 1], bucket) + if BucketFor(latencies[|latencies| - 1], 0) <= bucket then 1 else 0
  }

  lemma {:induction false} CountUpToAdds(latencies: seq<nat>, bucket: nat)
    ensures CountUpTo(latencies, bucket) == CountAt(latencies, bucket) + if bucket == 0 then 0 else CountUpTo(latencies, bucket - 1)
    decreases |latencies|
  {
    if latencies != [] { CountUpToAdds(latencies[..|latencies| - 1], bucket); }
  }

  lemma {:induction false} RowCounts(buckets: seq<nat>, latencies: seq<nat>, i: nat)
    requires Histogram(buckets, latencies) && i < |buckets|
    ensures Row(buckets, i) == CountUpTo(latencies, i)
    decreases i
  {
    CountUpToAdds(latencies, i);
    if i > 0 { RowCounts(buckets, latencies, i - 1); }
  }

  lemma {:induction false} UpToIsWithin(latencies: seq<nat>, i: nat)
    requires i < |BOUNDS_NS|
    ensures i < |BOUNDS_NS| - 1 ==> CountUpTo(latencies, i) == CountWithin(latencies, BOUNDS_NS[i])
    ensures CountUpTo(latencies, |BOUNDS_NS| - 1) == |latencies|
    ensures CountWithin(latencies, BOUNDS_NS[i]) <= |latencies|
    ensures CountWithin(latencies, BOUNDS_NS[i]) == |latencies| <==> forall x :: x in latencies ==> x <= BOUNDS_NS[i]
    decreases |latencies|
  {
    if latencies != [] {
      var front, last := latencies[..|latencies| - 1], latencies[|latencies| - 1];
      UpToIsWithin(front, i);
      BucketForAdmits(last, 0);
      assert latencies == front + [last] && last in latencies;
      assert forall x :: x in latencies <==> x in front || x == last;
    }
  }

  /**
   The rendered rows: each counts the queries within its bound, except the last, labelled one
   second, which counts every query; it is right exactly when none was slower.
   */
  lemma RowsRendered(buckets: seq<nat>, latencies: seq<nat>, i: nat)
    requires Histogram(buckets, latencies) && i < |BOUNDS_NS|
    ensures i < |BOUNDS_NS| - 1 ==> Row(buckets, i) == CountWithin(latencies, BOUNDS_NS[i])
    ensures i == |BOUNDS_NS| - 1 ==> Row(buckets, i) == |latencies|
    ensures i == |BOUNDS_NS| - 1 ==>
      (Row(buckets, i) == CountWithin(latencies, BOUNDS_NS[i]) <==> forall x :: x in latencies ==> x <= BOUNDS_NS[i])
  {
    RowCounts(buckets, latencies, i);
    UpToIsWithin(latencies, i);
  }

  /** One query of a second and a nanosecond is rendered as taking at most one second. */
  lemma SlowQueryMiscounted(buckets: seq<nat>)
    requires Histogram(buckets, [1_000_000_001])
    ensures BOUNDS_NS[12] == 1_000_000_000 && Row(buckets, 12) == 1 && CountWithin([1_000_000_001], BOUNDS_NS[12]) == 0
  {
    RowsRendered(buckets, [1_000_000_001], 12);
  }
}
