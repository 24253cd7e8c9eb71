/** Reciprocal-rank fusion of a lexical and a dense order, over exact reals. */
module Fusion {
  import opened Sorting

  function Indices(n: nat): (r: seq<nat>)
    ensures |r| == n
  {
    seq(n, i => i)
  }

  function Precedes(scores: seq<real>): (nat, nat) -> bool {
    (a: nat, b: nat) =>
      if a < |scores| && b < |scores| then scores[a] > scores[b] || (scores[a] == scores[b] && a <= b) else a <= b
  }

  /** The ranking by `scores`: every index once, best first. */
  function Ranking(scores: seq<real>): seq<nat> {
    SortBy(Indices(|scores|), Precedes(scores))
  }

  ghost predicate Permutes(order: seq<nat>, n: nat) {
    |order| == n && Distinct(order) && forall i :: i in order <==> 0 <= i < n
  }

  lemma RankingPermutes(scores: seq<real>)
    ensures Permutes(Ranking(scores), |scores|)
  {
    var all := Indices(|scores|);
    SortElements(all, Precedes(scores));
    DistinctPermutation(all, Ranking(scores));
    forall i | 0 <= i < |scores| ensures i in all { assert all[i] == i; }
  }

  /** Where `i` stands in `order`. */
  ghost function Rank(order: seq<nat>, i: nat): (r: nat)
    requires i in order
    ensures r < |order| && order[r] == i
  {
    var r :| 0 <= r < |order| && order[r] == i;
    r
  }

  lemma RankOf(order: seq<nat>, r: nat)
    requires Distinct(order) && r < |order|
    ensures Rank(order, order[r]) == r
  {
  }

  ghost function Share(order: seq<nat>, i: nat, k: real): real
    requires i in order && k >= 0.0
  {
    1.0 / (k + Rank(order, i) as real + 1.0)
  }

  /** `fused[index] += 1 / (k + rank + 1)` over one order. */
  method AddShares(fused: seq<real>, order: seq<nat>, k: real) returns (out: seq<real>)
    requires k >= 0.0 && Permutes(order, |fused|)
    ensures |out| == |fused| && forall i :: 0 <= i < |fused| ==> out[i] == fused[i] + Share(order, i, k)
  {
    out := fused;
    for rank := 0 to |order|
      invariant |out| == |fused|
      invariant forall i :: 0 <= i < |fused| ==> out[i] == if Rank(order, i) < rank then fused[i] + Share(order, i, k) else fused[i]
    {
      RankOf(order, rank);
      var index := order[rank];
      assert index in order;
      assert forall i :: 0 <= i < |fused| && i != index ==> Rank(order, i) != rank;
      out := out[index := out[index] + 1.0 / (k + rank as real + 1.0)];
    }
  }

  ghost function FusedScore(lexical: seq<real>, dense: seq<real>, k: real, i: nat): real
    requires |dense| == |lexical| && k >= 0.0 && i < |lexical|
  {
    RankingPermutes(lexical);
    RankingPermutes(dense);
    Share(Ranking(lexical), i, k) + Share(Ranking(dense), i, k)
  }

  /** The fused scores, one per candidate and in the candidates' own order. */
  method Fuse(lexical: seq<real>, dense: seq<real>, k: real) returns (fused: seq<real>)
    requires |dense| == |lexical| && k >= 0.0
    ensures |fused| == |lexical| && forall i :: 0 <= i < |lexical| ==> fused[i] == FusedScore(lexical, dense, k, i)
    ensures forall i :: 0 <= i < |lexical| ==>
              fused[i] == 1.0 / (k + |AheadOf(lexical, i)| as real + 1.0) + 1.0 / (k + |AheadOf(dense, i)| as real + 1.0)
  {
    forall i: nat | i < |lexical| ensures FusedScore(lexical, dense, k, i)
        == 1.0 / (k + |AheadOf(lexical, i)| as real + 1.0) + 1.0 / (k + |AheadOf(dense, i)| as real + 1.0)
    {
      FusedByCounting(lexical, dense, k, i);
    }
    RankingPermutes(lexical);
    RankingPermutes(dense);
    var zeros := seq(|lexical|, _ => 0.0);
    var half := AddShares(zeros, Ranking(lexical), k);
    fused := AddShares(half, Ranking(dense), k);
  }

  lemma ShareDecreases(order: seq<nat>, a: nat, b: nat, k: real)
    requires a in order && b in order && k >= 0.0 && Rank(order, a) < Rank(order, b)
    ensures Share(order, a, k) > Share(order, b, k)
  {
    ReciprocalDecreases(k + Rank(order, a) as real + 1.0, k + Rank(order, b) as real + 1.0);
  }

  lemma ReciprocalDecreases(x: real, y: real)
    requires 0.0 < x < y
    ensures 1.0 / x > 1.0 / y
  {
    assert (1.0 / x - 1.0 / y) * (x * y) == y - x;
    assert x * y > 0.0;
  }

  /** Ahead in both orders means strictly ahead after fusion. */
  lemma FusionRespectsAgreement(lexical: seq<real>, dense: seq<real>, k: real, a: nat, b: nat)
    requires |dense| == |lexical| && k >= 0.0 && a < |lexical| && b < |lexical|
    requires a in Ranking(lexical) && b in Ranking(lexical) && a in Ranking(dense) && b in Ranking(dense)
    requires Rank(Ranking(lexical), a) < Rank(Ranking(lexical), b) && Rank(Ranking(dense), a) < Rank(Ranking(dense), b)
    ensures FusedScore(lexical, dense, k, a) > FusedScore(lexical, dense, k, b)
  {
    ShareDecreases(Ranking(lexical), a, b, k);
    ShareDecreases(Ranking(dense), a, b, k);
  }

  lemma PrecedesIsPreorder(scores: seq<real>)
    ensures TotalPreorder(Precedes(scores))
  {
  }

  /** A higher score is a better rank, so agreement of the two scorers survives fusion. */
  lemma BetterScoreBetterRank(scores: seq<real>, a: nat, b: nat)
    requires a < |scores| && b < |scores| && scores[a] > scores[b]
    ensures a in Ranking(scores) && b in Ranking(scores) && Rank(Ranking(scores), a) < Rank(Ranking(scores), b)
  {
    RankingPermutes(scores);
    PrecedesIsPreorder(scores);
    SortSorts(Indices(|scores|), Precedes(scores));
    var i, j := Rank(Ranking(scores), a), Rank(Ranking(scores), b);
    assert forall p, q :: 0 <= p < q < |Ranking(scores)| ==> Precedes(scores)(Ranking(scores)[p], Ranking(scores)[q]);
    assert Ranking(scores)[i] == a && Ranking(scores)[j] == b && !Precedes(scores)(b, a);
  }

  lemma DominanceSurvives(lexical: seq<real>, dense: seq<real>, k: real, a: nat, b: nat)
    requires |dense| == |lexical| && k >= 0.0 && a < |lexical| && b < |lexical|
    requires lexical[a] > lexical[b] && dense[a] > dense[b]
    ensures FusedScore(lexical, dense, k, a) > FusedScore(lexical, dense, k, b)
  {
    BetterScoreBetterRank(lexical, a, b);
    BetterScoreBetterRank(dense, a, b);
    FusionRespectsAgreement(lexical, dense, k, a, b);
  }

  // ---------------------------------------------------------------- ranks by counting

  predicate Ahead(scores: seq<real>, j: nat, i: nat) {
    j < |scores| && i < |scores| && (scores[j] > scores[i] || (scores[j] == scores[i] && j < i))
  }

  /** The candidates ahead of `i`: those with a higher score, and earlier ones with the same. */
  function AheadOf(scores: seq<real>, i: nat): (s: set<nat>)
    ensures forall j: nat :: j in s <==> Ahead(scores, j, i)
  {
    set j: nat | 0 <= j < |scores| && Ahead(scores, j, i)
  }

  /** A candidate's rank is the number of candidates ahead of it. */
  lemma RankCounts(scores: seq<real>, i: nat)
    requires i < |scores|
    ensures i in Ranking(scores) && Rank(Ranking(scores), i) == |AheadOf(scores, i)|
  {
    RankingPermutes(scores);
    PrecedesIsPreorder(scores);
    SortSorts(Indices(|scores|), Precedes(scores));
    var order := Ranking(scores);
    var r := Rank(order, i);
    var front := order[..r];
    forall p, q | 0 <= p < q < |order| ensures Precedes(scores)(order[p], order[q]) {}
    hide Ranking;
    forall j: nat ensures j in AheadOf(scores, i) <==> j in front {
      FrontIsAhead(scores, order, r, i, j);
    }
    FrontSize(order, r, AheadOf(scores, i));
  }

  lemma FrontIsAhead(scores: seq<real>, order: seq<nat>, r: nat, i: nat, j: nat)
    requires Permutes(order, |scores|) && r < |order| && order[r] == i
    requires forall p, q :: 0 <= p < q < |order| ==> Precedes(scores)(order[p], order[q])
    ensures Ahead(scores, j, i) <==> j in order[..r]
  {
    assert i in order;
    if j in order[..r] {
      var p :| 0 <= p < r && order[p] == j;
      assert Precedes(scores)(order[p], order[r]) && j in order;
    }
    if Ahead(scores, j, i) {
      assert j in order;
      var q :| 0 <= q < |order| && order[q] == j;
      assert q < r;
      assert order[..r][q] == j;
    }
  }

  lemma {:induction false} FrontSize(order: seq<nat>, r: nat, s: set<nat>)
    requires Distinct(order) && r <= |order| && forall j: nat :: j in s <==> j in order[..r]
    ensures |s| == r
    decreases r
  {
    if r == 0 {
      assert s == {};
    } else {
      var last := order[r - 1];
      assert order[..r] == order[..r - 1] + [last];
      FrontSize(order, r - 1, s - {last});
      assert last in s;
    }
  }

  /** The fused score in full: one over `k` plus one plus the number ahead, in each of the two orders. */
  lemma FusedByCounting(lexical: seq<real>, dense: seq<real>, k: real, i: nat)
    requires |dense| == |lexical| && k >= 0.0 && i < |lexical|
    ensures FusedScore(lexical, dense, k, i)
            == 1.0 / (k + |AheadOf(lexical, i)| as real + 1.0) + 1.0 / (k + |AheadOf(dense, i)| as real + 1.0)
  {
    hide Ranking, AheadOf;
    RankCounts(lexical, i);
    RankCounts(dense, i);
  }
}
