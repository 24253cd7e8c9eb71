/** The standard library's stable `sort_by` and `dedup`, by their results. */
module Sorting {

  ghost predicate TotalPreorder<T(!new)>(leq: (T, T) -> bool) {
    && (forall x, y :: leq(x, y) || leq(y, x))
    && (forall x, y, z :: leq(x, y) && leq(y, z) ==> leq(x, z))
  }

  ghost predicate SortedBy<T>(xs: seq<T>, leq: (T, T) -> bool) {
    forall i, j :: 0 <= i < j < |xs| ==> leq(xs[i], xs[j])
  }

  ghost predicate Distinct<T>(xs: seq<T>) {
    forall i, j :: 0 <= i < j < |xs| ==> xs[i] != xs[j]
  }

  predicate LeqNat(a: nat, b: nat) {
    a <= b
  }

  /** Places `x` before the first element that is not smaller, hence before its equals. */
  function Insert<T>(x: T, xs: seq<T>, leq: (T, T) -> bool): seq<T> {
    if xs == [] || leq(x, xs[0]) then [x] + xs
    else [xs[0]] + Insert(x, xs[1..], leq)
  }

  function SortBy<T>(xs: seq<T>, leq: (T, T) -> bool): seq<T> {
    if xs == [] then [] else Insert(xs[0], SortBy(xs[1..], leq), leq)
  }

  lemma {:induction false} InsertElements<T>(x: T, xs: seq<T>, leq: (T, T) -> bool)
    ensures multiset(Insert(x, xs, leq)) == multiset(xs) + multiset{x}
  {
    if xs == [] || leq(x, xs[0]) {
    } else {
      InsertElements(x, xs[1..], leq);
      assert xs == [xs[0]] + xs[1..];
    }
  }

  lemma {:induction false} SortElements<T>(xs: seq<T>, leq: (T, T) -> bool)
    ensures multiset(SortBy(xs, leq)) == multiset(xs)
    ensures |SortBy(xs, leq)| == |xs|
    ensures forall x :: x in SortBy(xs, leq) <==> x in xs
  {
    if xs != [] {
      SortElements(xs[1..], leq);
      InsertElements(xs[0], SortBy(xs[1..], leq), leq);
      assert xs == [xs[0]] + xs[1..];
    }
    SameElements(SortBy(xs, leq), xs);
  }

  lemma SameElements<T>(xs: seq<T>, ys: seq<T>)
    requires multiset(xs) == multiset(ys)
    ensures |xs| == |ys|
    ensures forall x :: x in xs <==> x in ys
  {
    assert |multiset(xs)| == |xs| && |multiset(ys)| == |ys|;
    forall x ensures x in xs <==> x in ys {
      assert x in xs <==> x in multiset(xs);
      assert x in ys <==> x in multiset(ys);
    }
  }

  lemma {:induction false} InsertSorted<T(!new)>(x: T, xs: seq<T>, leq: (T, T) -> bool)
    requires TotalPreorder(leq) && SortedBy(xs, leq)
    ensures SortedBy(Insert(x, xs, leq), leq)
  {
    if xs == [] || leq(x, xs[0]) {
      var r := Insert(x, xs, leq);
      forall i, j | 0 <= i < j < |r| ensures leq(r[i], r[j]) {
        if i == 0 && j > 1 { assert leq(x, xs[0]) && leq(xs[0], xs[j - 1]); }
      }
    } else {
      InsertSorted(x, xs[1..], leq);
      InsertElements(x, xs[1..], leq);
      var rest := Insert(x, xs[1..], leq);
      SameElements(rest, xs[1..] + [x]);
      forall y | y in rest ensures leq(xs[0], y) {
        if y != x { assert y in xs[1..]; }
      }
      forall i, j | 0 <= i < j < |rest| + 1
        ensures leq(([xs[0]] + rest)[i], ([xs[0]] + rest)[j])
      {
        if i == 0 { assert rest[j - 1] in rest; }
      }
    }
  }

  lemma {:induction false} SortSorts<T(!new)>(xs: seq<T>, leq: (T, T) -> bool)
    requires TotalPreorder(leq)
    ensures SortedBy(SortBy(xs, leq), leq)
  {
    if xs != [] {
      SortSorts(xs[1..], leq);
      InsertSorted(xs[0], SortBy(xs[1..], leq), leq);
    }
  }

  /** Sorting a sorted sequence changes nothing. */
  lemma {:induction false} SortOfSorted<T>(xs: seq<T>, leq: (T, T) -> bool)
    requires SortedBy(xs, leq)
    ensures SortBy(xs, leq) == xs
  {
    if xs != [] {
      SortOfSorted(xs[1..], leq);
      assert xs == [xs[0]] + xs[1..];
    }
  }

  lemma {:induction false} DistinctIffNoRepeat<T>(xs: seq<T>)
    ensures Distinct(xs) <==> forall x :: multiset(xs)[x] <= 1
  {
    if xs != [] {
      DistinctIffNoRepeat(xs[1..]);
      assert xs == [xs[0]] + xs[1..];
      var m := multiset(xs[1..]);
      assert multiset(xs) == m + multiset{xs[0]};
      if Distinct(xs) {
        assert xs[0] !in xs[1..];
        assert Distinct(xs[1..]);
      } else if Distinct(xs[1..]) {
        var i, j :| 0 <= i < j < |xs| && xs[i] == xs[j];
        assert i == 0 && xs[j] in xs[1..];
        assert multiset(xs)[xs[0]] > 1;
      } else {
        var x :| m[x] > 1;
        assert multiset(xs)[x] > 1;
      }
    }
  }

  /** Permutations agree on having no repeated element. */
  lemma DistinctPermutation<T>(xs: seq<T>, ys: seq<T>)
    requires multiset(xs) == multiset(ys)
    ensures Distinct(xs) <==> Distinct(ys)
  {
    DistinctIffNoRepeat(xs);
    DistinctIffNoRepeat(ys);
  }

  /** `Vec::dedup`: drops every element equal to its predecessor. */
  function Dedup<T(==)>(xs: seq<T>): seq<T> {
    if |xs| < 2 then xs
    else if xs[0] == xs[1] then Dedup(xs[1..])
    else [xs[0]] + Dedup(xs[1..])
  }

  lemma {:induction false} DedupElements<T>(xs: seq<T>)
    ensures forall x :: x in Dedup(xs) <==> x in xs
    ensures xs != [] ==> Dedup(xs) != [] && Dedup(xs)[0] == xs[0]
  {
    if |xs| >= 2 {
      DedupElements(xs[1..]);
    }
  }

  /** Sort then dedup yields the elements once each, in order. */
  lemma {:induction false} DedupSorted<T(!new)>(xs: seq<T>, leq: (T, T) -> bool)
    requires TotalPreorder(leq) && SortedBy(xs, leq)
    requires forall x, y :: leq(x, y) && leq(y, x) ==> x == y
    ensures SortedBy(Dedup(xs), leq) && Distinct(Dedup(xs))
  {
    if |xs| >= 2 {
      DedupSorted(xs[1..], leq);
      DedupElements(xs[1..]);
      if xs[0] != xs[1] {
        var rest := Dedup(xs[1..]);
        forall y | y in rest ensures leq(xs[0], y) && y != xs[0] {
          var j :| 0 <= j < |xs[1..]| && xs[1..][j] == y;
          assert y == xs[j + 1] && leq(xs[1], y) && leq(xs[0], xs[1]);
        }
        forall i, j | 0 <= i < j < |rest| + 1
          ensures leq(([xs[0]] + rest)[i], ([xs[0]] + rest)[j]) && ([xs[0]] + rest)[i] != ([xs[0]] + rest)[j]
        {
          if i == 0 { assert rest[j - 1] in rest; }
        }
      }
    }
  }

  lemma {:induction false} DedupOfDistinct<T>(xs: seq<T>)
    requires Distinct(xs)
    ensures Dedup(xs) == xs
  {
    if |xs| >= 2 {
      assert xs[0] != xs[1];
      DedupOfDistinct(xs[1..]);
    }
  }

  /** A sequence and its set of elements have the same size exactly when nothing repeats. */
  lemma {:induction false} SetSize<T>(xs: seq<T>)
    ensures |set x | x in xs| <= |xs|
    ensures |set x | x in xs| == |xs| <==> Distinct(xs)
  {
    if xs == [] {
      assert (set x | x in xs) == {};
    } else {
      var rest := xs[1..];
      SetSize(rest);
      var all, others := set x | x in xs, set x | x in rest;
      assert all == others + {xs[0]} by {
        forall x ensures x in all <==> x in others + {xs[0]} {
          assert x in xs <==> x == xs[0] || x in rest;
        }
      }
      if xs[0] in rest {
        assert all == others;
        var j :| 0 <= j < |rest| && rest[j] == xs[0];
        assert xs[j + 1] == xs[0];
      } else {
        assert xs[0] !in others;
        assert Distinct(xs) <==> Distinct(rest) by {
          forall i, j | Distinct(rest) && 0 <= i < j < |xs| ensures xs[i] != xs[j] {
            if i == 0 { assert xs[j] == rest[j - 1]; } else { assert rest[i - 1] != rest[j - 1]; }
          }
          forall i, j | Distinct(xs) && 0 <= i < j < |rest| ensures rest[i] != rest[j] {
            assert xs[i + 1] != xs[j + 1];
          }
        }
      }
    }
  }

}
