/** Capped candidate selection: sort by key, truncate, list the survivors by ordinal. */
module Selection {
  import opened Sorting

  /** A candidate with its sort key: tier first, then distance, then ordinal. */
  datatype Candidate = Candidate(tier: nat, distance: nat, ordinal: nat)

  predicate Leq(a: Candidate, b: Candidate) {
    a.tier < b.tier || (a.tier == b.tier && (a.distance < b.distance || (a.distance == b.distance && a.ordinal <= b.ordinal)))
  }

  function Ordinals(pool: seq<Candidate>): (r: seq<nat>)
    ensures |r| == |pool|
  {
    seq(|pool|, i requires 0 <= i < |pool| => pool[i].ordinal)
  }

  function Take<T>(xs: seq<T>, n: nat): seq<T> {
    if n <= |xs| then xs[..n] else xs
  }

  function Select(pool: seq<Candidate>, cap: nat): seq<nat> {
    SortBy(Ordinals(Take(SortBy(pool, Leq), cap)), LeqNat)
  }

  ghost predicate Ascending(xs: seq<nat>) {
    forall i, j :: 0 <= i < j < |xs| ==> xs[i] < xs[j]
  }

  ghost function ElementSet(xs: seq<nat>): set<nat> {
    set x | x in xs
  }

  /** `out` lists, in ascending order, the `cap` elements of `pool` with the smallest keys. */
  ghost predicate CappedTopK(out: seq<nat>, pool: set<nat>, key: nat -> Candidate, cap: nat) {
    && Ascending(out) && ElementSet(out) <= pool
    && |out| == (if |pool| <= cap then |pool| else cap)
    && forall a, b :: a in out && b in pool && b !in out ==> Leq(key(a), key(b))
  }

  lemma AscendingSize(xs: seq<nat>)
    requires Ascending(xs)
    ensures |ElementSet(xs)| == |xs|
  {
    SetSize(xs);
  }

  /** A duplicate-free listing of the pool, each element with its own key. */
  ghost predicate Lists(pool: seq<Candidate>, all: set<nat>, key: nat -> Candidate) {
    && (forall i :: 0 <= i < |pool| ==> pool[i].ordinal in all && pool[i] == key(pool[i].ordinal))
    && (forall i, j :: 0 <= i < j < |pool| ==> pool[i].ordinal != pool[j].ordinal)
    && |pool| == |all|
  }

  lemma ListsAll(pool: seq<Candidate>, all: set<nat>, key: nat -> Candidate)
    requires Lists(pool, all, key)
    ensures ElementSet(Ordinals(pool)) == all
  {
    var os := Ordinals(pool);
    SetSize(os);
    assert Distinct(os);
    assert ElementSet(os) <= all;
    SubsetOfSameSize(ElementSet(os), all);
  }

  lemma SubsetOfSameSize(a: set<nat>, b: set<nat>)
    requires a <= b && |a| == |b|
    ensures a == b
  {
    assert |b - a| == |b| - |a|;
  }

  lemma ListsPermuted(pool: seq<Candidate>, sorted: seq<Candidate>, all: set<nat>, key: nat -> Candidate)
    requires Lists(pool, all, key) && multiset(pool) == multiset(sorted)
    ensures Lists(sorted, all, key)
  {
    SameElements(pool, sorted);
    assert Distinct(pool);
    DistinctPermutation(pool, sorted);
    forall i | 0 <= i < |sorted| ensures sorted[i].ordinal in all && sorted[i] == key(sorted[i].ordinal) {
      assert sorted[i] in pool;
    }
    forall i, j | 0 <= i < j < |sorted| ensures sorted[i].ordinal != sorted[j].ordinal {
      assert sorted[i] != sorted[j] && sorted[i] in pool && sorted[j] in pool;
    }
  }

  lemma LeqIsPreorder()
    ensures TotalPreorder(Leq) && TotalPreorder(LeqNat)
  {
  }

  lemma TakeOrdinals(sorted: seq<Candidate>, cap: nat)
    ensures Ordinals(Take(sorted, cap)) == Take(Ordinals(sorted), cap)
  {
  }

  lemma AscendingFromSort(xs: seq<nat>)
    requires Distinct(xs)
    ensures Ascending(SortBy(xs, LeqNat)) && |SortBy(xs, LeqNat)| == |xs|
    ensures forall x :: x in SortBy(xs, LeqNat) <==> x in xs
  {
    LeqIsPreorder();
    SortSorts(xs, LeqNat);
    SortElements(xs, LeqNat);
    DistinctPermutation(xs, SortBy(xs, LeqNat));
  }

  /** Sort, truncate, list by ordinal: the true top of the pool. */
  lemma SelectIsTopK(pool: seq<Candidate>, cap: nat, all: set<nat>, key: nat -> Candidate)
    requires Lists(pool, all, key)
    ensures CappedTopK(Select(pool, cap), all, key, cap)
  {
    var sorted := SortBy(pool, Leq);
    LeqIsPreorder();
    SortSorts(pool, Leq);
    SortElements(pool, Leq);
    ListsPermuted(pool, sorted, all, key);
    ListsAll(sorted, all, key);
    TakeOrdinals(sorted, cap);
    var os := Ordinals(sorted);
    var kept := Take(os, cap);
    assert Distinct(os);
    assert Distinct(kept);
    AscendingFromSort(kept);
    var out := Select(pool, cap);
    hide SortBy, Leq;
    assert ElementSet(out) <= all by {
      forall x | x in out ensures x in all { assert x in os; }
    }
    forall a, b | a in out && b in all && b !in out ensures Leq(key(a), key(b)) {
      KeptPrecedes(sorted, cap, all, key, a, b);
    }
  }

  lemma KeptPrecedes(sorted: seq<Candidate>, cap: nat, all: set<nat>, key: nat -> Candidate, a: nat, b: nat)
    requires Lists(sorted, all, key) && SortedBy(sorted, Leq)
    requires var kept := Take(Ordinals(sorted), cap); a in kept && b in all && b !in kept
    ensures Leq(key(a), key(b))
  {
    hide Leq;
    ListsAll(sorted, all, key);
    var os := Ordinals(sorted);
    var kept := Take(os, cap);
    var i :| 0 <= i < |kept| && kept[i] == a;
    assert b in ElementSet(os);
    var j :| 0 <= j < |os| && os[j] == b;
    assert j >= |kept|;
    assert sorted[i].ordinal == a && sorted[j].ordinal == b && i < j;
    assert Leq(sorted[i], sorted[j]);
  }

  /** Elements that all precede the rest of the pool survive whenever they fit under the cap. */
  lemma PreferredSurvive(out: seq<nat>, pool: set<nat>, key: nat -> Candidate, cap: nat, preferred: set<nat>)
    requires CappedTopK(out, pool, key, cap) && preferred <= pool && |preferred| <= cap
    requires forall p, q :: p in preferred && q in pool - preferred ==> !Leq(key(q), key(p))
    ensures preferred <= ElementSet(out)
  {
    AscendingSize(out);
    if p :| p in preferred && p !in ElementSet(out) {
      assert ElementSet(out) <= preferred - {p} by {
        forall a | a in out ensures a in preferred - {p} {
          assert Leq(key(a), key(p));
        }
      }
      SubsetSize(ElementSet(out), preferred - {p});
      if |pool| <= cap {
        SubsetOfSameSize(ElementSet(out), pool);
      }
      assert false;
    }
  }

  lemma SubsetSize(a: set<nat>, b: set<nat>)
    requires a <= b
    ensures |a| <= |b|
  {
    assert |b - a| == |b| - |a|;
  }
}
