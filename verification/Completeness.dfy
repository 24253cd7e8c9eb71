/** When the caps and the budget leave room, an answer holds everything the search found. */
module Completeness {
  import opened Sorting
  import opened Capsules
  import opened Gates
  import opened Lsh
  import opened Selection
  import opened CandidateSearch
  import opened BandedSearch
  import opened Merging
  import opened Retrieve

  /**
   What the search finds before any cap: in a segment with more eligible capsules than the threshold,
   those the banded search meets, if it meets any; otherwise the eligible capsules that match a term
   or are near the probe, or all eligible ones when there are none.
   */
  ghost function Searched(env: Env, cs: seq<Capsule>, p: Probe, config: RetrievalConfig): set<nat> {
    var gated, matched := Eligible(cs, p), Matched(env, cs, p);
    var banded := AnnPool(env, cs, gated, matched, p);
    if |gated| > config.annThreshold && banded != {} then banded else ExactPool(cs, gated, matched, p, config)
  }

  /** A capsule either search finds: it matches, or shares the bucket, or is near and within distance 15 unless the segment is small. */
  ghost predicate Reachable(env: Env, cs: seq<Capsule>, o: nat, p: Probe, config: RetrievalConfig)
    requires o < |cs|
  {
    || MatchesTerm(env, cs[o], p) || SemanticBucket(cs[o].semanticBits) == SemanticBucket(p.semanticBits)
    || (Near(cs[o], p, config) && (|Eligible(cs, p)| <= config.annThreshold || |Differing(p.semanticBits, cs[o].semanticBits)| <= 15))
  }

  lemma SearchedIsEligible(env: Env, cs: seq<Capsule>, p: Probe, config: RetrievalConfig)
    ensures Searched(env, cs, p, config) <= Eligible(cs, p)
    ensures forall o :: o in Eligible(cs, p) && Reachable(env, cs, o, p, config) ==> o in Searched(env, cs, p, config)
  {
    hide Eligible, MatchesTerm, AnnPool, HammingDistance, Differing, SemanticBucket;
    var gated, matched := Eligible(cs, p), Matched(env, cs, p);
    AnnWithin(env, cs, gated, matched, p);
    forall o | o in gated && Reachable(env, cs, o, p, config) ensures o in Searched(env, cs, p, config) {
      DistanceCountsBits(p.semanticBits, cs[o].semanticBits);
      if |gated| > config.annThreshold { AnnRecall(env, cs, gated, matched, p, o); }
    }
  }

  function CapsuleTokens(c: Capsule): nat {
    TokensOf(c.claim, c.evidence)
  }

  /** The tokens of the first `n` capsules that belong to `s`. */
  ghost function TokensIn(cs: seq<Capsule>, s: set<nat>, n: nat): nat
    requires n <= |cs|
  {
    if n == 0 then 0 else TokensIn(cs, s, n - 1) + if n - 1 in s then CapsuleTokens(cs[n - 1]) else 0
  }

  /** The segment has few enough answers for every cap, and few enough tokens for the budget. */
  ghost predicate Roomy(env: Env, cs: seq<Capsule>, p: Probe, config: RetrievalConfig) {
    var found := Searched(env, cs, p, config);
    && |found| <= config.maxScored && |found| <= p.maxCapsules
    && TokensIn(cs, found, |cs|) <= p.maxTokens
  }

  /** Given room, the answer holds exactly the capsules found. */
  ghost predicate Complete(env: Env, cs: seq<Capsule>, p: Probe, config: RetrievalConfig, frame: Frame) {
    Roomy(env, cs, p, config) ==>
      forall o: nat :: o < |cs| ==> (Holds(frame, cs[o].id) <==> o in Searched(env, cs, p, config))
  }

  // ---------------------------------------------------------------- a budget that suffices

  function SumTokens(scored: seq<Scored>): nat {
    if scored == [] then 0 else CapsuleTokens(scored[0].capsule) + SumTokens(scored[1..])
  }

  lemma {:induction false} AmpleBudgetKeepsAll(scored: seq<Scored>, budget: nat, first: bool)
    requires SumTokens(scored) <= budget
    ensures Budgeted(scored, budget, first) == scored
    decreases |scored|
  {
    hide TokensOf;
    if scored != [] {
      AmpleBudgetKeepsAll(scored[1..], budget - CapsuleTokens(scored[0].capsule), false);
      assert scored == [scored[0]] + scored[1..];
    }
  }

  lemma {:induction false} SumOfInsert(x: Scored, xs: seq<Scored>)
    ensures SumTokens(Insert(x, xs, ScoredLeq)) == CapsuleTokens(x.capsule) + SumTokens(xs)
    decreases |xs|
  {
    hide CapsuleTokens, ScoredLeq;
    if xs == [] || ScoredLeq(x, xs[0]) {
      assert ([x] + xs)[1..] == xs;
    } else {
      SumOfInsert(x, xs[1..]);
      var rest := Insert(x, xs[1..], ScoredLeq);
      assert ([xs[0]] + rest)[1..] == rest;
    }
  }

  lemma {:induction false} SumOfSorted(xs: seq<Scored>)
    ensures SumTokens(SortBy(xs, ScoredLeq)) == SumTokens(xs)
    decreases |xs|
  {
    if xs != [] {
      SumOfSorted(xs[1..]);
      SumOfInsert(xs[0], SortBy(xs[1..], ScoredLeq));
    }
  }

  lemma {:induction false} SumSnoc(xs: seq<Scored>, x: Scored)
    ensures SumTokens(xs + [x]) == SumTokens(xs) + CapsuleTokens(x.capsule)
    decreases |xs|
  {
    hide CapsuleTokens;
    if xs == [] {
      assert (xs + [x])[1..] == [];
    } else {
      SumSnoc(xs[1..], x);
      assert (xs + [x])[1..] == xs[1..] + [x];
    }
  }

  lemma {:induction false} TokensAgree(cs: seq<Capsule>, s: set<nat>, t: set<nat>, n: nat)
    requires n <= |cs| && forall o: nat :: o < n ==> (o in s <==> o in t)
    ensures TokensIn(cs, s, n) == TokensIn(cs, t, n)
  {
    if n > 0 { TokensAgree(cs, s, t, n - 1); }
  }

  lemma WithoutLast(ordinals: seq<nat>, n: nat)
    requires Ascending(ordinals) && ordinals != [] && ordinals[|ordinals| - 1] == n
    ensures var front := ordinals[..|ordinals| - 1];
            && Ascending(front) && (forall i :: 0 <= i < |front| ==> front[i] < n) && n in ElementSet(ordinals)
            && forall o: nat :: o < n ==> (o in ElementSet(front) <==> o in ElementSet(ordinals))
  {
    var front := ordinals[..|ordinals| - 1];
    assert ordinals == front + [n];
    assert ordinals[|ordinals| - 1] in ordinals;
  }

  lemma AllBelow(ordinals: seq<nat>, n: nat)
    requires Ascending(ordinals) && (forall i :: 0 <= i < |ordinals| ==> ordinals[i] <= n)
    requires ordinals != [] ==> ordinals[|ordinals| - 1] != n
    ensures (forall i :: 0 <= i < |ordinals| ==> ordinals[i] < n) && n !in ElementSet(ordinals)
  {
    if ordinals != [] {
      var last := ordinals[|ordinals| - 1];
      forall i | 0 <= i < |ordinals| ensures ordinals[i] < n {
        assert i < |ordinals| - 1 ==> ordinals[i] < last;
      }
    }
  }

  /** Summing along an ascending list is summing over its set. */
  lemma {:induction false} SumIsTokensIn(cs: seq<Capsule>, ordinals: seq<nat>, pool: seq<Scored>, n: nat)
    requires n <= |cs| && Ascending(ordinals) && |pool| == |ordinals|
    requires forall i :: 0 <= i < |ordinals| ==> ordinals[i] < n && pool[i].capsule == cs[ordinals[i]]
    ensures SumTokens(pool) == TokensIn(cs, ElementSet(ordinals), n)
    decreases n
  {
    hide CapsuleTokens, ElementSet;
    if n > 0 {
      var k := |ordinals| - 1;
      if ordinals != [] && ordinals[k] == n - 1 {
        var front, rest := ordinals[..k], pool[..k];
        WithoutLast(ordinals, n - 1);
        SumIsTokensIn(cs, front, rest, n - 1);
        TokensAgree(cs, ElementSet(front), ElementSet(ordinals), n - 1);
        SumSnoc(rest, pool[k]);
        assert pool == rest + [pool[k]];
      } else {
        AllBelow(ordinals, n - 1);
        SumIsTokensIn(cs, ordinals, pool, n - 1);
      }
    }
  }

  // ---------------------------------------------------------------- the whole answer

  /** What `retrieve` determines of its frame, for a segment with room: nothing found is left out. */
  lemma RoomyIsComplete(env: Env, cs: seq<Capsule>, p: Probe, config: RetrievalConfig, scoring: Scoring,
                        ordinals: seq<nat>, pool: seq<Scored>, frame: Frame)
    requires DistinctIds(cs) && Chosen(env, cs, p, config, ordinals) && ScoredBy(cs, p, config, scoring, ordinals, pool)
    requires frame.capsules == Frames(Budgeted(Take(SortBy(pool, ScoredLeq), p.maxCapsules), p.maxTokens, true))
    ensures Complete(env, cs, p, config, frame)
  {
    hide ScoredBy, Eligible, Chosen, Searched, Budgeted, TokensIn, ScoredLeq;
    if Roomy(env, cs, p, config) {
      var found := Searched(env, cs, p, config);
      ChosenFound(env, cs, p, config, ordinals);
      PoolCapsules(cs, p, config, scoring, ordinals, pool);
      SumIsTokensIn(cs, ordinals, pool, |cs|);
      SumOfSorted(pool);
      SortElements(pool, ScoredLeq);
      var sorted := SortBy(pool, ScoredLeq);
      AscendingSize(ordinals);
      assert Take(sorted, p.maxCapsules) == sorted;
      AmpleBudgetKeepsAll(sorted, p.maxTokens, true);
      FramesOfPool(cs, ordinals, pool, sorted, frame);
    }
  }

  lemma ChosenFound(env: Env, cs: seq<Capsule>, p: Probe, config: RetrievalConfig, ordinals: seq<nat>)
    requires Chosen(env, cs, p, config, ordinals) && |Searched(env, cs, p, config)| <= config.maxScored
    ensures ElementSet(ordinals) == Searched(env, cs, p, config) && Ascending(ordinals)
  {
    hide Eligible, ExactPool, AnnPool, Matched, CappedTopK;
    var gated, matched := Eligible(cs, p), Matched(env, cs, p);
    var banded := AnnPool(env, cs, gated, matched, p);
    if |gated| > config.annThreshold && banded != {} {
      AllChosen(ordinals, banded, AnnKey(env, cs, matched, p), config.maxScored);
    } else {
      AllChosen(ordinals, ExactPool(cs, gated, matched, p, config), ExactKey(cs, matched, p), config.maxScored);
    }
  }

  /** A cap that fits chooses the whole pool. */
  lemma AllChosen(ordinals: seq<nat>, pool: set<nat>, key: nat -> Candidate, cap: nat)
    requires CappedTopK(ordinals, pool, key, cap) && |pool| <= cap
    ensures ElementSet(ordinals) == pool && Ascending(ordinals)
  {
    AscendingSize(ordinals);
    SubsetOfSameSize(ElementSet(ordinals), pool);
  }

  lemma PoolCapsules(cs: seq<Capsule>, p: Probe, config: RetrievalConfig, scoring: Scoring, ordinals: seq<nat>, pool: seq<Scored>)
    requires ScoredBy(cs, p, config, scoring, ordinals, pool)
    ensures |pool| == |ordinals| && forall i :: 0 <= i < |ordinals| ==> ordinals[i] < |cs| && pool[i].capsule == cs[ordinals[i]]
  {
  }

  lemma FramesOfPool(cs: seq<Capsule>, ordinals: seq<nat>, pool: seq<Scored>, sorted: seq<Scored>, frame: Frame)
    requires DistinctIds(cs) && |pool| == |ordinals|
    requires forall i :: 0 <= i < |ordinals| ==> ordinals[i] < |cs| && pool[i].capsule == cs[ordinals[i]]
    requires (forall s :: s in sorted <==> s in pool) && frame.capsules == Frames(sorted)
    ensures forall o: nat :: o < |cs| ==> (Holds(frame, cs[o].id) <==> o in ElementSet(ordinals))
  {
    forall o: nat | o < |cs| ensures Holds(frame, cs[o].id) <==> o in ElementSet(ordinals) {
      if o in ElementSet(ordinals) {
        var i :| 0 <= i < |ordinals| && ordinals[i] == o;
        assert pool[i] in sorted;
        var j :| 0 <= j < |sorted| && sorted[j] == pool[i];
        assert frame.capsules[j].id == cs[o].id && frame.capsules[j] in frame.capsules;
      }
      if Holds(frame, cs[o].id) {
        var f :| f in frame.capsules && f.id == cs[o].id;
        var j :| 0 <= j < |sorted| && frame.capsules[j] == f;
        assert sorted[j] in pool;
        var i :| 0 <= i < |pool| && pool[i] == sorted[j];
        assert cs[ordinals[i]].id == cs[o].id && ordinals[i] in ordinals;
      }
    }
  }
}
