/** One segment's answer to a probe: score, fuse, order, budget, and expand relations. */
module Retrieve {
  import opened Results
  import opened Sorting
  import opened Capsules
  import opened Lsh
  import opened Index
  import opened Gates
  import opened Selection
  import opened CandidateSearch
  import opened BandedSearch
  import opened Fusion

  datatype Note = Note(kind: RelationKind, from: u128, to: u128, weight: i16)

  datatype FrameCapsule = FrameCapsule(
    id: u128, claim: Bytes, evidence: Bytes, trustLevel: byte, validFrom: i64, validUntil: Option<i64>,
    sourceId: u64, sourceHash: Digest, notes: seq<Note>, score: real)

  datatype Frame = Frame(epoch: u64, capsules: seq<FrameCapsule>, conflicts: seq<FrameCapsule>, candidateCount: nat)

  /** The scoring formulas of the query modes, taken as any functions of the capsule and of two vectors. */
  datatype Scoring = Scoring(
    lexical: Capsule -> real, cosine: (seq<u32>, seq<u32>) -> real, hybrid: Capsule -> real, parent: Capsule -> real)

  datatype Scored = Scored(capsule: Capsule, score: real)

  function MakeFrame(c: Capsule, score: real, notes: seq<Note>): FrameCapsule {
    FrameCapsule(c.id, c.claim, c.evidence, c.trustLevel, c.validFrom, c.validUntil, c.sourceId, c.sourceHash, notes, score)
  }

  /** `f` discloses `c`: everything but score and notes is copied from it. */
  ghost predicate Shows(f: FrameCapsule, c: Capsule) {
    f == MakeFrame(c, f.score, f.notes)
  }

  predicate DistinctFrames(fs: seq<FrameCapsule>) {
    forall i, j :: 0 <= i < j < |fs| ==> fs[i].id != fs[j].id
  }

  // ---------------------------------------------------------------- scoring

  method ScoreAll(cs: seq<Capsule>, ordinals: seq<nat>, scoring: Scoring) returns (scored: seq<Scored>)
    requires forall o :: o in ordinals ==> o < |cs|
    ensures |scored| == |ordinals|
    ensures forall i :: 0 <= i < |ordinals| ==> ordinals[i] in ordinals && scored[i] == Scored(cs[ordinals[i]], scoring.lexical(cs[ordinals[i]]))
  {
    scored := [];
    for i := 0 to |ordinals|
      invariant |scored| == i
      invariant forall k :: 0 <= k < i ==> ordinals[k] in ordinals && scored[k] == Scored(cs[ordinals[k]], scoring.lexical(cs[ordinals[k]]))
    {
      assert ordinals[i] in ordinals;
      scored := scored + [Scored(cs[ordinals[i]], scoring.lexical(cs[ordinals[i]]))];
    }
  }

  function Scores(scored: seq<Scored>): (r: seq<real>)
    ensures |r| == |scored|
  {
    seq(|scored|, i requires 0 <= i < |scored| => scored[i].score)
  }

  function Cosines(scored: seq<Scored>, query: seq<u32>, scoring: Scoring): (r: seq<real>)
    ensures |r| == |scored|
  {
    seq(|scored|, i requires 0 <= i < |scored| => scoring.cosine(query, scored[i].capsule.embedding))
  }

  /** Dense re-ranking: scores are replaced by fused ones, the pool itself is untouched. */
  method Rerank(scored: seq<Scored>, p: Probe, config: RetrievalConfig, scoring: Scoring) returns (out: seq<Scored>)
    requires config.rrfK >= 0.0
    ensures |out| == |scored|
    ensures forall i :: 0 <= i < |scored| ==> out[i].capsule == scored[i].capsule
    ensures p.embedding == [] ==> out == scored
    ensures p.embedding != [] ==> forall i :: 0 <= i < |scored| ==>
      out[i].score == FusedScore(Scores(scored), Cosines(scored, p.embedding, scoring), config.rrfK, i)
  {
    out := scored;
    if p.embedding == [] || scored == [] { return; }
    var fused := Fuse(Scores(scored), Cosines(scored, p.embedding, scoring), config.rrfK);
    for i := 0 to |scored|
      invariant |out| == |scored|
      invariant forall k :: 0 <= k < i ==> out[k] == Scored(scored[k].capsule, fused[k])
      invariant forall k :: i <= k < |scored| ==> out[k] == scored[k]
    {
      out := out[i := Scored(out[i].capsule, fused[i])];
    }
  }

  /** Best score first; trust, then freshness, break ties. */
  predicate ScoredLeq(a: Scored, b: Scored) {
    a.score > b.score
    || (a.score == b.score
        && (a.capsule.trustLevel > b.capsule.trustLevel
            || (a.capsule.trustLevel == b.capsule.trustLevel && a.capsule.lastVerifiedAt >= b.capsule.lastVerifiedAt)))
  }

  lemma ScoredLeqIsPreorder()
    ensures TotalPreorder(ScoredLeq)
  {
  }

  /** By score, then trust, then the time of last verification, each highest first. */
  ghost predicate BestFirst(scored: seq<Scored>) {
    forall i, j :: 0 <= i < j < |scored| ==>
      var a, b := scored[i], scored[j];
      || a.score > b.score
      || (a.score == b.score && a.capsule.trustLevel > b.capsule.trustLevel)
      || (a.score == b.score && a.capsule.trustLevel == b.capsule.trustLevel && a.capsule.lastVerifiedAt >= b.capsule.lastVerifiedAt)
  }

  /** The best `limit` of the pool, best first: what is cut off could have stood behind all of them. */
  ghost predicate BestOf(pool: seq<Scored>, limit: nat, considered: seq<Scored>) {
    exists cut :: |considered| == (if |pool| <= limit then |pool| else limit)
                  && multiset(considered + cut) == multiset(pool) && BestFirst(considered + cut)
  }

  lemma OrderedIsBestFirst(sorted: seq<Scored>)
    requires SortedBy(sorted, ScoredLeq)
    ensures BestFirst(sorted)
  {
    forall i, j | 0 <= i < j < |sorted| ensures ScoredLeq(sorted[i], sorted[j]) {}
  }

  lemma SortedIsBestFirst(pool: seq<Scored>, limit: nat)
    ensures BestOf(pool, limit, Take(SortBy(pool, ScoredLeq), limit))
  {
    hide SortBy, ScoredLeq, BestFirst;
    var sorted := SortBy(pool, ScoredLeq);
    SortElements(pool, ScoredLeq);
    ScoredLeqIsPreorder();
    SortSorts(pool, ScoredLeq);
    OrderedIsBestFirst(sorted);
    var cut := if limit <= |sorted| then sorted[limit..] else [];
    assert Take(sorted, limit) + cut == sorted;
  }

  // ---------------------------------------------------------------- token budget

  /** Where words begin: at a byte that is not blank, with a blank or nothing before it. */
  predicate WordStartsAt(text: Bytes, i: nat) {
    i < |text| && !IsBlank(text[i]) && (i == 0 || IsBlank(text[i - 1]))
  }

  function WordStarts(text: Bytes): (s: set<nat>)
    ensures forall i: nat :: i in s <==> WordStartsAt(text, i)
  {
    set i: nat | 0 <= i < |text| && WordStartsAt(text, i)
  }

  ghost function StartsFrom(text: Bytes, at: nat): (s: set<nat>)
    ensures forall i: nat :: i in s <==> i in WordStarts(text) && at <= i
  {
    set i: nat | i in WordStarts(text) && at <= i
  }

  lemma {:induction false} WordsCounted(text: Bytes, at: nat)
    requires at <= |text|
    ensures WordCount(text[at..], at > 0 && !IsBlank(text[at - 1])) == |StartsFrom(text, at)|
    decreases |text| - at
  {
    hide IsBlank;
    if at == |text| {
      assert StartsFrom(text, at) == {};
    } else {
      WordsCounted(text, at + 1);
      assert text[at..][0] == text[at] && text[at..][1..] == text[at + 1..];
      assert at !in StartsFrom(text, at + 1);
      if at in WordStarts(text) {
        assert StartsFrom(text, at) == {at} + StartsFrom(text, at + 1);
      } else {
        assert StartsFrom(text, at) == StartsFrom(text, at + 1);
      }
    }
  }

  /** The tokens of a capsule: the words of its claim and of its evidence, each counted as one at least. */
  lemma TokensCountWords(claim: Bytes, evidence: Bytes)
    ensures var n, m := |WordStarts(claim)|, |WordStarts(evidence)|;
            TokensOf(claim, evidence) == (if n == 0 then 1 else n) + if m == 0 then 1 else m
  {
    WordsCounted(claim, 0);
    WordsCounted(evidence, 0);
    assert claim[0..] == claim && evidence[0..] == evidence;
    assert StartsFrom(claim, 0) == WordStarts(claim) && StartsFrom(evidence, 0) == WordStarts(evidence);
  }

  predicate IsBlank(b: byte) {
    b == 32 || 9 <= b <= 13
  }

  /** Words of `text`, `inside` telling whether the previous byte belonged to one. */
  function WordCount(text: Bytes, inside: bool): nat {
    if text == [] then 0
    else if IsBlank(text[0]) then WordCount(text[1..], false)
    else (if inside then 0 else 1) + WordCount(text[1..], true)
  }

  function ApproximateTokens(text: Bytes): (n: nat)
    ensures n >= 1
  {
    var n := WordCount(text, false);
    if n < 1 then 1 else n
  }

  function TokensOf(claim: Bytes, evidence: Bytes): (n: nat)
    ensures n >= 2
  {
    ApproximateTokens(claim) + ApproximateTokens(evidence)
  }

  /** The capsules kept: the first always, a later one when it fits what the budget still allows. */
  function Budgeted(scored: seq<Scored>, budget: nat, first: bool): seq<Scored> {
    if scored == [] then []
    else
      var t := TokensOf(scored[0].capsule.claim, scored[0].capsule.evidence);
      if first || t <= budget then [scored[0]] + Budgeted(scored[1..], if t <= budget then budget - t else 0, false)
      else Budgeted(scored[1..], budget, first)
  }

  function Frames(scored: seq<Scored>): (r: seq<FrameCapsule>)
    ensures |r| == |scored|
  {
    seq(|scored|, i requires 0 <= i < |scored| => MakeFrame(scored[i].capsule, scored[i].score, []))
  }

  function TotalTokens(fs: seq<FrameCapsule>): nat {
    if fs == [] then 0 else TokensOf(fs[0].claim, fs[0].evidence) + TotalTokens(fs[1..])
  }

  /** The budget loop over the first `limit` candidates. */
  method FillBudget(scored: seq<Scored>, limit: nat, maxTokens: nat) returns (out: seq<FrameCapsule>)
    ensures out == Frames(Budgeted(Take(scored, limit), maxTokens, true))
    ensures exists positions :: Filled(Take(scored, limit), positions, maxTokens, out, 1)
  {
    hide TokensOf, Filled;
    var considered := Take(scored, limit);
    var budget := maxTokens;
    out := [];
    ghost var kept: seq<Scored> := [];
    for i := 0 to |considered|
      invariant out == Frames(kept) && (out == [] <==> kept == [])
      invariant kept + Budgeted(considered[i..], budget, kept == []) == Budgeted(considered, maxTokens, true)
    {
      var s := considered[i];
      assert considered[i..][0] == s && considered[i..][1..] == considered[i + 1..];
      var tokens := TokensOf(s.capsule.claim, s.capsule.evidence);
      if out == [] || tokens <= budget {
        budget := if tokens <= budget then budget - tokens else 0;
        ghost var rest := Budgeted(considered[i + 1..], budget, false);
        assert kept + ([s] + rest) == (kept + [s]) + rest;
        out := out + [MakeFrame(s.capsule, s.score, [])];
        kept := kept + [s];
      }
    }
    assert considered[|considered|..] == [];
    assert kept + [] == kept;
    ghost var positions := BudgetDecides(considered, maxTokens);
  }

  /** Where each kept capsule stood in the scored order. */
  ghost predicate Subsequence(out: seq<Scored>, positions: seq<nat>, scored: seq<Scored>) {
    |positions| == |out| && Ascending(positions)
    && forall i :: 0 <= i < |out| ==> positions[i] < |scored| && out[i] == scored[positions[i]]
  }

  lemma ShiftAll(rest: seq<Scored>, inner: seq<nat>, scored: seq<Scored>) returns (shifted: seq<nat>)
    requires scored != [] && Subsequence(rest, inner, scored[1..])
    ensures Subsequence(rest, shifted, scored) && forall i :: 0 <= i < |shifted| ==> shifted[i] > 0
  {
    shifted := seq(|inner|, i requires 0 <= i < |inner| => inner[i] + 1);
    forall i | 0 <= i < |rest| ensures shifted[i] < |scored| && rest[i] == scored[shifted[i]] {
      assert scored[1..][inner[i]] == scored[inner[i] + 1];
    }
  }

  lemma ShiftPositions(rest: seq<Scored>, inner: seq<nat>, scored: seq<Scored>, keep: bool) returns (positions: seq<nat>)
    requires scored != [] && Subsequence(rest, inner, scored[1..])
    ensures Subsequence(if keep then [scored[0]] + rest else rest, positions, scored)
  {
    positions := ShiftAll(rest, inner, scored);
    if keep {
      positions := [0] + positions;
    }
  }

  lemma {:induction false} BudgetedIsSubsequence(scored: seq<Scored>, budget: nat, first: bool) returns (positions: seq<nat>)
    ensures Subsequence(Budgeted(scored, budget, first), positions, scored)
    ensures first ==> (Budgeted(scored, budget, first) == [] <==> scored == [])
    decreases |scored|
  {
    hide TokensOf, Subsequence;
    if scored == [] {
      positions := [];
      EmptySubsequence(scored);
    } else {
      var t := TokensOf(scored[0].capsule.claim, scored[0].capsule.evidence);
      var keep := first || t <= budget;
      var left := if !keep then budget else if t <= budget then budget - t else 0;
      var inner := BudgetedIsSubsequence(scored[1..], left, !keep && first);
      positions := ShiftPositions(Budgeted(scored[1..], left, !keep && first), inner, scored, keep);
    }
  }

  lemma EmptySubsequence(scored: seq<Scored>)
    ensures Subsequence([], [], scored)
  {
  }

  lemma {:induction false} BudgetHolds(scored: seq<Scored>, budget: nat)
    ensures TotalTokens(Frames(Budgeted(scored, budget, false))) <= budget
    decreases |scored|
  {
    hide TokensOf;
    if scored != [] {
      var t := TokensOf(scored[0].capsule.claim, scored[0].capsule.evidence);
      if t <= budget {
        BudgetHolds(scored[1..], budget - t);
        var rest := Budgeted(scored[1..], budget - t, false);
        assert Frames([scored[0]] + rest)[1..] == Frames(rest);
      } else {
        BudgetHolds(scored[1..], budget);
      }
    }
  }

  lemma {:induction false} NothingFitsZero(scored: seq<Scored>)
    ensures Budgeted(scored, 0, false) == []
  {
    if scored != [] { NothingFitsZero(scored[1..]); }
  }

  /** The tokens returned stay within the budget, unless the single best capsule alone exceeds it. */
  lemma BudgetKept(scored: seq<Scored>, budget: nat)
    ensures var out := Frames(Budgeted(scored, budget, true));
            TotalTokens(out) <= budget || |out| == 1
  {
    if scored != [] {
      var t := TokensOf(scored[0].capsule.claim, scored[0].capsule.evidence);
      var left := if t <= budget then budget - t else 0;
      var rest := Budgeted(scored[1..], left, false);
      BudgetHolds(scored[1..], left);
      assert Frames([scored[0]] + rest)[1..] == Frames(rest);
      if t > budget { NothingFitsZero(scored[1..]); }
    }
  }

  // ---------------------------------------------------------------- the budget in full

  function FrameTokens(f: FrameCapsule): nat {
    TokensOf(f.claim, f.evidence)
  }

  /** The entries `out` are those at `positions` of `considered`. */
  ghost predicate PickedAt(considered: seq<Scored>, positions: seq<nat>, out: seq<FrameCapsule>) {
    && |positions| == |out| && Ascending(positions)
    && forall i :: 0 <= i < |out| ==>
         positions[i] < |considered| && out[i] == MakeFrame(considered[positions[i]].capsule, considered[positions[i]].score, [])
  }

  /** Exactly `m` entries were kept before position `k`, which was not. */
  ghost predicate LeftOutAfter(positions: seq<nat>, m: nat, k: nat) {
    m <= |positions| && (forall i :: 0 <= i < m ==> positions[i] < k) && forall i :: m <= i < |positions| ==> positions[i] > k
  }

  /** From entry `free` on, what is kept fits what is left of the budget, and what is left out does not. */
  ghost predicate Filled(considered: seq<Scored>, positions: seq<nat>, budget: nat, out: seq<FrameCapsule>, free: nat) {
    && PickedAt(considered, positions, out)
    && (forall i :: free <= i < |out| ==> TotalTokens(out[..i]) + FrameTokens(out[i]) <= budget)
    && forall m: nat, k: nat :: k < |considered| && LeftOutAfter(positions, m, k) ==>
         TotalTokens(out[..m]) + TokensOf(considered[k].capsule.claim, considered[k].capsule.evidence) > budget
  }

  lemma FilledNothing(budget: nat)
    ensures Filled([], [], budget, [], 0)
  {
  }

  /** One position further on, nothing kept before. */
  lemma FilledSkips(s: Scored, rest: seq<Scored>, inner: seq<nat>, budget: nat, out: seq<FrameCapsule>) returns (positions: seq<nat>)
    requires Filled(rest, inner, budget, out, 0) && TokensOf(s.capsule.claim, s.capsule.evidence) > budget
    ensures Filled([s] + rest, positions, budget, out, 0)
  {
    hide TokensOf, TotalTokens, FrameTokens;
    positions := seq(|inner|, i requires 0 <= i < |inner| => inner[i] + 1);
    var all := [s] + rest;
    assert PickedAt(all, positions, out);
    forall m: nat, k: nat | k < |all| && LeftOutAfter(positions, m, k)
      ensures TotalTokens(out[..m]) + TokensOf(all[k].capsule.claim, all[k].capsule.evidence) > budget
    {
      if k > 0 {
        LeftOutShifts(inner, positions, m, k);
        assert all[k] == rest[k - 1];
      } else {
        NoneBeforeFirst(positions, m);
      }
    }
  }

  lemma NoneBeforeFirst(positions: seq<nat>, m: nat)
    requires LeftOutAfter(positions, m, 0)
    ensures m == 0
  {
    assert positions == [] || positions[0] >= 0;
  }

  lemma LeftOutShifts(inner: seq<nat>, positions: seq<nat>, m: nat, k: nat)
    requires |positions| == |inner| && (forall i :: 0 <= i < |inner| ==> positions[i] == inner[i] + 1)
    requires k > 0 && LeftOutAfter(positions, m, k)
    ensures LeftOutAfter(inner, m, k - 1)
  {
    forall i | 0 <= i < m ensures inner[i] < k - 1 { assert positions[i] < k; }
    forall i | m <= i < |inner| ensures inner[i] > k - 1 { assert positions[i] > k; }
  }

  /** The same with `s` kept in front, which may or may not fit. */
  lemma FilledKeeps(s: Scored, rest: seq<Scored>, inner: seq<nat>, budget: nat, left: nat, out: seq<FrameCapsule>) returns (positions: seq<nat>)
    requires Filled(rest, inner, left, out, 0)
    requires var t := TokensOf(s.capsule.claim, s.capsule.evidence); if t <= budget then left == budget - t else out == [] && left == 0
    ensures positions != [] && positions[0] == 0
    ensures var t := TokensOf(s.capsule.claim, s.capsule.evidence);
            Filled([s] + rest, positions, budget, [MakeFrame(s.capsule, s.score, [])] + out, if t <= budget then 0 else 1)
  {
    hide TokensOf, TotalTokens, FrameTokens, PickedAt, LeftOutAfter;
    var shifted := seq(|inner|, i requires 0 <= i < |inner| => inner[i] + 1);
    positions := [0] + shifted;
    var all, f := [s] + rest, MakeFrame(s.capsule, s.score, []);
    var whole, t := [f] + out, TokensOf(s.capsule.claim, s.capsule.evidence);
    PickedFirst(s, rest, inner, out);
    FrameTokensOf(s);
    forall i | (if t <= budget then 0 else 1) <= i < |whole| ensures TotalTokens(whole[..i]) + FrameTokens(whole[i]) <= budget {
      if i > 0 {
        PrefixTokens(f, out, i - 1);
      } else {
        NoTokens();
        assert whole[..0] == [];
      }
    }
    forall m: nat, k: nat | k < |all| && LeftOutAfter(positions, m, k)
      ensures m <= |whole| && TotalTokens(whole[..m]) + TokensOf(all[k].capsule.claim, all[k].capsule.evidence) > budget
    {
      LeftOutBehind(inner, shifted, m, k);
      LeftOutWithin(rest, inner, out, m - 1, k - 1);
      PrefixTokens(f, out, m - 1);
      assert all[k] == rest[k - 1];
    }
  }

  lemma PrefixTokens(f: FrameCapsule, out: seq<FrameCapsule>, i: nat)
    requires i <= |out|
    ensures TotalTokens(([f] + out)[..i + 1]) == FrameTokens(f) + TotalTokens(out[..i])
  {
    hide TokensOf;
    assert ([f] + out)[..i + 1][1..] == out[..i];
  }

  lemma LeftOutWithin(considered: seq<Scored>, positions: seq<nat>, out: seq<FrameCapsule>, m: nat, k: nat)
    requires PickedAt(considered, positions, out) && LeftOutAfter(positions, m, k)
    ensures m <= |out|
  {
  }

  lemma FrameTokensOf(s: Scored)
    ensures FrameTokens(MakeFrame(s.capsule, s.score, [])) == TokensOf(s.capsule.claim, s.capsule.evidence)
  {
  }

  lemma NoTokens()
    ensures TotalTokens([]) == 0
  {
  }

  lemma PickedFirst(s: Scored, rest: seq<Scored>, inner: seq<nat>, out: seq<FrameCapsule>)
    requires PickedAt(rest, inner, out)
    ensures PickedAt([s] + rest, [0] + seq(|inner|, i requires 0 <= i < |inner| => inner[i] + 1), [MakeFrame(s.capsule, s.score, [])] + out)
  {
  }

  lemma LeftOutBehind(inner: seq<nat>, shifted: seq<nat>, m: nat, k: nat)
    requires |shifted| == |inner| && forall i :: 0 <= i < |inner| ==> shifted[i] == inner[i] + 1
    requires LeftOutAfter([0] + shifted, m, k)
    ensures m > 0 && k > 0 && LeftOutAfter(inner, m - 1, k - 1)
  {
    var positions := [0] + shifted;
    assert positions[0] == 0;
    forall i | 0 <= i < m - 1 ensures inner[i] < k - 1 { assert positions[i + 1] < k; }
    forall i | m - 1 <= i < |inner| ensures inner[i] > k - 1 { assert positions[i + 1] > k; }
  }

  lemma {:induction false} BudgetFills(scored: seq<Scored>, budget: nat) returns (positions: seq<nat>)
    ensures Filled(scored, positions, budget, Frames(Budgeted(scored, budget, false)), 0)
    decreases |scored|
  {
    hide TokensOf, Filled;
    if scored == [] {
      positions := [];
      FilledNothing(budget);
    } else {
      var s, rest := scored[0], scored[1..];
      assert scored == [s] + rest;
      var t := TokensOf(s.capsule.claim, s.capsule.evidence);
      if t <= budget {
        var inner := BudgetFills(rest, budget - t);
        FramesFirst(s, Budgeted(rest, budget - t, false));
        positions := FilledKeeps(s, rest, inner, budget, budget - t, Frames(Budgeted(rest, budget - t, false)));
      } else {
        var inner := BudgetFills(rest, budget);
        positions := FilledSkips(s, rest, inner, budget, Frames(Budgeted(rest, budget, false)));
      }
    }
  }

  lemma FramesFirst(s: Scored, rest: seq<Scored>)
    ensures Frames([s] + rest) == [MakeFrame(s.capsule, s.score, [])] + Frames(rest)
  {
  }

  /**
   The budget in full: the first candidate is kept; a later one is kept when its tokens and those of
   the entries kept before it are within the budget, and left out only when they are not.
   */
  lemma BudgetDecides(considered: seq<Scored>, maxTokens: nat) returns (positions: seq<nat>)
    ensures var out := Frames(Budgeted(considered, maxTokens, true));
            && Filled(considered, positions, maxTokens, out, 1)
            && (considered != [] ==> positions != [] && positions[0] == 0)
  {
    hide TokensOf, Filled;
    if considered == [] {
      positions := [];
      FilledNothing(maxTokens);
      FilledLater([], [], maxTokens, []);
    } else {
      var s, rest := considered[0], considered[1..];
      assert considered == [s] + rest;
      var t := TokensOf(s.capsule.claim, s.capsule.evidence);
      var left := if t <= maxTokens then maxTokens - t else 0;
      var inner := BudgetFills(rest, left);
      FramesFirst(s, Budgeted(rest, left, false));
      if t > maxTokens { NothingFitsZero(rest); }
      positions := FilledKeeps(s, rest, inner, maxTokens, left, Frames(Budgeted(rest, left, false)));
      if t <= maxTokens { FilledLater(considered, positions, maxTokens, Frames(Budgeted(considered, maxTokens, true))); }
    }
  }

  /** The answer: the best of the pool up to the limit, of these the first and whatever still fits the budget. */
  ghost predicate PickedFrom(pool: seq<Scored>, p: Probe, out: seq<FrameCapsule>) {
    exists considered, positions :: BestOf(pool, p.maxCapsules, considered) && PickedInOrder(considered, positions, p, out)
  }

  ghost predicate PickedInOrder(considered: seq<Scored>, positions: seq<nat>, p: Probe, out: seq<FrameCapsule>) {
    && Filled(considered, positions, p.maxTokens, out, 1) && (considered != [] ==> positions != [] && positions[0] == 0)
  }

  lemma BudgetedIsPicked(pool: seq<Scored>, p: Probe)
    ensures PickedFrom(pool, p, Frames(Budgeted(Take(SortBy(pool, ScoredLeq), p.maxCapsules), p.maxTokens, true)))
  {
    hide BestOf, Filled, Budgeted;
    var considered := Take(SortBy(pool, ScoredLeq), p.maxCapsules);
    SortedIsBestFirst(pool, p.maxCapsules);
    var positions := BudgetDecides(considered, p.maxTokens);
    assert PickedInOrder(considered, positions, p, Frames(Budgeted(considered, p.maxTokens, true)));
  }

  lemma FilledLater(considered: seq<Scored>, positions: seq<nat>, budget: nat, out: seq<FrameCapsule>)
    requires Filled(considered, positions, budget, out, 0)
    ensures Filled(considered, positions, budget, out, 1)
  {
  }

  // ---------------------------------------------------------------- relations

  function Included(kind: RelationKind, p: Probe): bool {
    match kind
    case Supports => p.includeSupporting
    case Contradicts => p.includeContradictions
    case Supersedes => p.includeContradictions
    case _ => false
  }

  /** A related capsule may be shown: gates passed, or (for conflicts) at least the authorization gates. */
  predicate Relatable(kind: RelationKind, c: Capsule, p: Probe) {
    PassesGates(c, p) || ((kind == Contradicts || kind == Supersedes) && p.includeContradictions && Authorized(c, p))
  }

  /** Every entry shows a capsule of the segment whose authorization gates pass, each once. */
  ghost predicate ConflictsOk(cs: seq<Capsule>, p: Probe, out: seq<FrameCapsule>) {
    DistinctFrames(out)
    && forall i :: 0 <= i < |out| ==> exists o: nat :: o < |cs| && Shows(out[i], cs[o]) && Authorized(cs[o], p)
  }

  /** A related capsule met along an edge of a selected one. */
  datatype Hit = Hit(ordinal: nat, note: Note)

  ghost predicate Finds(byId: map<u128, nat>, cs: seq<Capsule>) {
    forall id :: id in byId ==> byId[id] < |cs|
  }

  ghost predicate Permitted(cs: seq<Capsule>, p: Probe, hits: seq<Hit>) {
    forall h :: h in hits ==> h.ordinal < |cs| && Authorized(cs[h.ordinal], p)
  }

  function EdgeHits(cs: seq<Capsule>, byId: map<u128, nat>, p: Probe, edges: seq<RelationEdge>): (hits: seq<Hit>)
    requires Finds(byId, cs)
    ensures Permitted(cs, p, hits)
  {
    if edges == [] then []
    else
      var e := edges[|edges| - 1];
      EdgeHits(cs, byId, p, edges[..|edges| - 1])
      + if Included(e.kind, p) && e.to in byId && Relatable(e.kind, cs[byId[e.to]], p)
        then [Hit(byId[e.to], Note(e.kind, e.from, e.to, e.weight))] else []
  }

  /** Every includable edge of every selected capsule, in order. */
  function RelationHits(cs: seq<Capsule>, byId: map<u128, nat>, p: Probe, selected: seq<FrameCapsule>): (hits: seq<Hit>)
    requires Finds(byId, cs)
    ensures Permitted(cs, p, hits)
  {
    if selected == [] then []
    else
      var last := selected[|selected| - 1];
      RelationHits(cs, byId, p, selected[..|selected| - 1])
      + if last.id in byId then EdgeHits(cs, byId, p, cs[byId[last.id]].relationEdges) else []
  }

  /** The capsules met, each once, in the order first met. */
  function FirstMet(hits: seq<Hit>): (r: seq<nat>)
    ensures forall o :: o in r <==> exists h :: h in hits && h.ordinal == o
    ensures Distinct(r)
  {
    if hits == [] then []
    else
      var front, h := FirstMet(hits[..|hits| - 1]), hits[|hits| - 1];
      assert hits == hits[..|hits| - 1] + [h];
      if h.ordinal in front then front else front + [h.ordinal]
  }

  /** The notes on one capsule, in the order met. */
  function NotesOn(hits: seq<Hit>, o: nat): seq<Note> {
    if hits == [] then []
    else NotesOn(hits[..|hits| - 1], o) + if hits[|hits| - 1].ordinal == o then [hits[|hits| - 1].note] else []
  }

  /** One entry per capsule met, unscored, carrying all its notes. */
  function Noted(cs: seq<Capsule>, hits: seq<Hit>): (r: seq<FrameCapsule>)
    requires forall h :: h in hits ==> h.ordinal < |cs|
    ensures |r| == |FirstMet(hits)|
  {
    var met := FirstMet(hits);
    assert forall i :: 0 <= i < |met| ==> met[i] in met;
    seq(|met|, i requires 0 <= i < |met| => MakeFrame(cs[met[i]], 0.0, NotesOn(hits, met[i])))
  }

  lemma {:induction false} Unmet(hits: seq<Hit>, o: nat)
    requires forall h :: h in hits ==> h.ordinal != o
    ensures NotesOn(hits, o) == []
    decreases |hits|
  {
    if hits != [] {
      var front, h := hits[..|hits| - 1], hits[|hits| - 1];
      assert h in hits;
      Unmet(front, o);
    }
  }

  /** One more hit extends the notes of its entry, or adds an entry at the end. */
  lemma NotedSnoc(cs: seq<Capsule>, hits: seq<Hit>, h: Hit)
    requires h.ordinal < |cs| && forall g :: g in hits ==> g.ordinal < |cs|
    ensures var met, old_, new_ := FirstMet(hits), Noted(cs, hits), Noted(cs, hits + [h]);
            && (forall i :: 0 <= i < |met| ==> new_[i] == (if met[i] == h.ordinal then old_[i].(notes := old_[i].notes + [h.note]) else old_[i]))
            && (if h.ordinal in met then |new_| == |old_| else new_ == old_ + [MakeFrame(cs[h.ordinal], 0.0, [h.note])])
  {
    hide FirstMet, NotesOn;
    var met := FirstMet(hits);
    HitSnoc(hits, h);
    if h.ordinal !in met {
      forall g | g in hits ensures g.ordinal != h.ordinal { assert g.ordinal in met; }
      Unmet(hits, h.ordinal);
      assert [] + [h.note] == [h.note];
      assert forall i :: 0 <= i < |met| ==> met[i] in met;
    }
  }

  lemma HitSnoc(hits: seq<Hit>, h: Hit)
    ensures FirstMet(hits + [h]) == FirstMet(hits) + if h.ordinal in FirstMet(hits) then [] else [h.ordinal]
    ensures forall o :: NotesOn(hits + [h], o) == NotesOn(hits, o) + if h.ordinal == o then [h.note] else []
  {
    var all := hits + [h];
    assert all[..|all| - 1] == hits;
    assert FirstMet(hits) + [] == FirstMet(hits);
  }

  lemma NotedAgain(cs: seq<Capsule>, hits: seq<Hit>, h: Hit, i: nat)
    requires DistinctIds(cs) && h.ordinal < |cs| && forall g :: g in hits ==> g.ordinal < |cs|
    requires i < |Noted(cs, hits)| && Noted(cs, hits)[i].id == cs[h.ordinal].id
    ensures var out := Noted(cs, hits); out[i := out[i].(notes := out[i].notes + [h.note])] == Noted(cs, hits + [h])
  {
    NotedSnoc(cs, hits, h);
    hide Noted, NotesOn;
    EntryIds(cs, hits);
    var met := FirstMet(hits);
    assert met[i] == h.ordinal;
    forall k | 0 <= k < |met| && k != i ensures met[k] != h.ordinal {}
  }

  lemma NotedFirst(cs: seq<Capsule>, hits: seq<Hit>, h: Hit)
    requires h.ordinal < |cs| && forall g :: g in hits ==> g.ordinal < |cs|
    requires forall k :: 0 <= k < |Noted(cs, hits)| ==> Noted(cs, hits)[k].id != cs[h.ordinal].id
    ensures Noted(cs, hits) + [MakeFrame(cs[h.ordinal], 0.0, [h.note])] == Noted(cs, hits + [h])
  {
    NotedSnoc(cs, hits, h);
    hide Noted, NotesOn;
    EntryIds(cs, hits);
  }

  method AddConflict(cs: seq<Capsule>, ghost hits: seq<Hit>, out: seq<FrameCapsule>, h: Hit) returns (grown: seq<FrameCapsule>)
    requires DistinctIds(cs) && h.ordinal < |cs| && (forall g :: g in hits ==> g.ordinal < |cs|) && out == Noted(cs, hits)
    ensures (forall g :: g in hits + [h] ==> g.ordinal < |cs|) && grown == Noted(cs, hits + [h])
  {
    hide Noted, DistinctIds;
    for i := 0 to |out|
      invariant forall k :: 0 <= k < i ==> out[k].id != cs[h.ordinal].id
    {
      if out[i].id == cs[h.ordinal].id {
        NotedAgain(cs, hits, h, i);
        return out[i := out[i].(notes := out[i].notes + [h.note])];
      }
    }
    NotedFirst(cs, hits, h);
    grown := out + [MakeFrame(cs[h.ordinal], 0.0, [h.note])];
  }

  lemma EntryIds(cs: seq<Capsule>, hits: seq<Hit>)
    requires forall h :: h in hits ==> h.ordinal < |cs|
    ensures var met := FirstMet(hits);
            (forall i :: 0 <= i < |met| ==> met[i] in met && met[i] < |cs| && Noted(cs, hits)[i].id == cs[met[i]].id)
  {
  }

  /** Entries made from permitted hits are distinct capsules of the segment that are authorized. */
  lemma NotedOk(cs: seq<Capsule>, p: Probe, hits: seq<Hit>)
    requires DistinctIds(cs) && Permitted(cs, p, hits)
    ensures ConflictsOk(cs, p, Noted(cs, hits))
  {
    hide Authorized, NotesOn;
    var met, out := FirstMet(hits), Noted(cs, hits);
    EntryIds(cs, hits);
    forall i | 0 <= i < |out| ensures exists o: nat :: o < |cs| && Shows(out[i], cs[o]) && Authorized(cs[o], p) {
      assert met[i] in met;
      var h :| h in hits && h.ordinal == met[i];
      assert Shows(out[i], cs[met[i]]);
    }
  }

  /** Nothing unless asked for; otherwise every capsule the selected ones point at, with its notes. */
  function Expanded(cs: seq<Capsule>, p: Probe, selected: seq<FrameCapsule>): seq<FrameCapsule>
    requires Finds(IdIndex(cs), cs)
  {
    if p.maxHops == 0 || (!p.includeSupporting && !p.includeContradictions) then []
    else Noted(cs, RelationHits(cs, IdIndex(cs), p, selected))
  }

  /** `expand_relations`. */
  method ExpandRelations(env: Env, cs: seq<Capsule>, index: SegmentIndex, p: Probe, selected: seq<FrameCapsule>) returns (out: seq<FrameCapsule>)
    requires index == IndexOf(env, cs) && DistinctIds(cs)
    ensures Finds(IdIndex(cs), cs) && out == Expanded(cs, p, selected)
    ensures ConflictsOk(cs, p, out)
  {
    IdIndexFinds(cs);
    assert index.byId == IdIndex(cs);
    hide IndexOf, IdIndex, PassesGates, Authorized, Noted, RelationHits, ConflictsOk;
    if p.maxHops == 0 || (!p.includeSupporting && !p.includeContradictions) {
      out := [];
      NoConflicts(cs, p);
    } else {
      out := ExpandAll(cs, index.byId, p, selected);
    }
  }

  lemma NoConflicts(cs: seq<Capsule>, p: Probe)
    ensures ConflictsOk(cs, p, [])
  {
  }

  method ExpandAll(cs: seq<Capsule>, byId: map<u128, nat>, p: Probe, selected: seq<FrameCapsule>) returns (out: seq<FrameCapsule>)
    requires DistinctIds(cs) && Finds(byId, cs)
    ensures out == Noted(cs, RelationHits(cs, byId, p, selected)) && ConflictsOk(cs, p, out)
  {
    hide PassesGates, Authorized, Noted;
    out := [];
    ghost var hits: seq<Hit> := [];
    NothingNoted(cs);
    for s := 0 to |selected|
      invariant hits == RelationHits(cs, byId, p, selected[..s]) && Permitted(cs, p, hits) && out == Noted(cs, hits)
    {
      assert selected[..s + 1][..s] == selected[..s];
      if selected[s].id in byId {
        out, hits := ExpandEdges(cs, byId, p, hits, out, cs[byId[selected[s].id]].relationEdges);
      } else {
        assert hits + [] == hits;
      }
    }
    assert selected[..|selected|] == selected;
    NotedOk(cs, p, hits);
  }

  lemma NothingNoted(cs: seq<Capsule>)
    ensures Noted(cs, []) == []
  {
  }

  method ExpandEdges(cs: seq<Capsule>, byId: map<u128, nat>, p: Probe, ghost before: seq<Hit>, out: seq<FrameCapsule>, edges: seq<RelationEdge>)
    returns (grown: seq<FrameCapsule>, ghost hits: seq<Hit>)
    requires DistinctIds(cs) && Finds(byId, cs) && Permitted(cs, p, before) && out == Noted(cs, before)
    ensures hits == before + EdgeHits(cs, byId, p, edges) && Permitted(cs, p, hits) && grown == Noted(cs, hits)
  {
    hide PassesGates, Authorized, Noted;
    grown, hits := out, before;
    for e := 0 to |edges|
      invariant hits == before + EdgeHits(cs, byId, p, edges[..e]) && Permitted(cs, p, hits) && grown == Noted(cs, hits)
    {
      var edge := edges[e];
      assert edges[..e + 1][..e] == edges[..e];
      if Included(edge.kind, p) && edge.to in byId && Relatable(edge.kind, cs[byId[edge.to]], p) {
        var h := Hit(byId[edge.to], Note(edge.kind, edge.from, edge.to, edge.weight));
        GatesIncludeAuthorization(cs[h.ordinal], p);
        grown := AddConflict(cs, hits, grown, h);
        assert before + (EdgeHits(cs, byId, p, edges[..e]) + [h]) == hits + [h];
        hits := hits + [h];
      } else {
        assert EdgeHits(cs, byId, p, edges[..e]) + [] == EdgeHits(cs, byId, p, edges[..e]);
      }
    }
    assert edges[..|edges|] == edges;
  }

  lemma GatesIncludeAuthorization(c: Capsule, p: Probe)
    ensures PassesGates(c, p) ==> Authorized(c, p)
  {
  }

  // ---------------------------------------------------------------- relations in full

  /**
   Edge `e` of capsule `c` leads the caller to `target`: a supporting edge when those are asked for
   and the target may be seen, a contradicting or superseding one when contradictions are and it
   may be known. No other kind leads anywhere.
   */
  ghost predicate Leads(p: Probe, c: Capsule, e: RelationEdge, target: Capsule) {
    && e in c.relationEdges && e.to == target.id
    && ((e.kind == Supports && p.includeSupporting && MaySee(target, p))
        || ((e.kind == Contradicts || e.kind == Supersedes) && p.includeContradictions && MayKnow(target, p)))
  }

  lemma HitIsLead(p: Probe, c: Capsule, e: RelationEdge, target: Capsule)
    requires e in c.relationEdges && e.to == target.id
    ensures Included(e.kind, p) && Relatable(e.kind, target, p) <==> Leads(p, c, e, target)
  {
    hide PassesGates, Authorized, MaySee, MayKnow;
    GatesMean(target, p);
    SeenIsKnown(target, p);
  }

  lemma SeenIsKnown(c: Capsule, p: Probe)
    ensures MaySee(c, p) ==> MayKnow(c, p)
  {
    hide HasBit;
  }

  function NoteOf(e: RelationEdge): Note {
    Note(e.kind, e.from, e.to, e.weight)
  }

  /** Some edge among the first `n` of `c` leads to `cs[o]` and is noted as `note`. */
  ghost predicate LedBy(cs: seq<Capsule>, p: Probe, c: Capsule, n: nat, o: nat, note: Note) {
    o < |cs| && exists i: nat :: i < n && i < |c.relationEdges| && Leads(p, c, c.relationEdges[i], cs[o]) && note == NoteOf(c.relationEdges[i])
  }

  lemma {:induction false} EdgeHitsMean(cs: seq<Capsule>, p: Probe, c: Capsule, n: nat, o: nat, note: Note)
    requires DistinctIds(cs) && Finds(IdIndex(cs), cs) && n <= |c.relationEdges|
    ensures Hit(o, note) in EdgeHits(cs, IdIndex(cs), p, c.relationEdges[..n]) <==> LedBy(cs, p, c, n, o, note)
  {
    hide IdIndex, Included, Relatable, Leads, Permitted;
    if n > 0 {
      var e := c.relationEdges[n - 1];
      EdgeHitsMean(cs, p, c, n - 1, o, note);
      assert c.relationEdges[..n][..n - 1] == c.relationEdges[..n - 1] && c.relationEdges[..n][n - 1] == e && e in c.relationEdges;
      IdIndexFinds(cs);
      if e.to in IdIndex(cs) { HitIsLead(p, c, e, cs[IdIndex(cs)[e.to]]); }
      if o < |cs| && cs[o].id == e.to { assert IdIndex(cs)[e.to] == o; }
      LeadsToTarget(p, c, e, cs, o);
      if LedBy(cs, p, c, n, o, note) && !LedBy(cs, p, c, n - 1, o, note) {
        var i: nat :| i < n && i < |c.relationEdges| && Leads(p, c, c.relationEdges[i], cs[o]) && note == NoteOf(c.relationEdges[i]);
        assert i == n - 1;
      }
    }
  }

  lemma LeadsToTarget(p: Probe, c: Capsule, e: RelationEdge, cs: seq<Capsule>, o: nat)
    ensures o < |cs| && Leads(p, c, e, cs[o]) ==> cs[o].id == e.to
  {
    hide MaySee, MayKnow;
  }

  /** Some edge of the capsule behind one of the first `n` entries leads to `cs[o]`. */
  ghost predicate LedFrom(cs: seq<Capsule>, p: Probe, selected: seq<FrameCapsule>, n: nat, o: nat, note: Note) {
    exists s: nat, j: nat :: s < n && s < |selected| && j < |cs| && cs[j].id == selected[s].id && LedBy(cs, p, cs[j], |cs[j].relationEdges|, o, note)
  }

  lemma {:induction false} RelationHitsMean(cs: seq<Capsule>, p: Probe, selected: seq<FrameCapsule>, n: nat, o: nat, note: Note)
    requires DistinctIds(cs) && Finds(IdIndex(cs), cs) && n <= |selected|
    ensures Hit(o, note) in RelationHits(cs, IdIndex(cs), p, selected[..n]) <==> LedFrom(cs, p, selected, n, o, note)
  {
    hide IdIndex, EdgeHits, LedBy, Permitted;
    if n > 0 {
      var last := selected[n - 1];
      RelationHitsMean(cs, p, selected, n - 1, o, note);
      assert selected[..n][..n - 1] == selected[..n - 1] && selected[..n][n - 1] == last;
      IdIndexFinds(cs);
      if last.id in IdIndex(cs) {
        var c := cs[IdIndex(cs)[last.id]];
        EdgeHitsMean(cs, p, c, |c.relationEdges|, o, note);
        assert c.relationEdges[..|c.relationEdges|] == c.relationEdges;
      }
      if s: nat, j: nat :| s < n && s < |selected| && j < |cs| && cs[j].id == selected[s].id && LedBy(cs, p, cs[j], |cs[j].relationEdges|, o, note) {
        assert IdIndex(cs)[selected[s].id] == j;
        if s < n - 1 { assert LedFrom(cs, p, selected, n - 1, o, note); }
      }
    }
  }

  lemma {:induction false} NotesOnMean(hits: seq<Hit>, o: nat, note: Note)
    ensures note in NotesOn(hits, o) <==> Hit(o, note) in hits
    decreases |hits|
  {
    if hits != [] {
      NotesOnMean(hits[..|hits| - 1], o, note);
      assert hits == hits[..|hits| - 1] + [hits[|hits| - 1]];
    }
  }

  /** `f` is a copy of `cs[o]` without a score, with a note for exactly the edges that lead there. */
  ghost predicate Relates(cs: seq<Capsule>, p: Probe, selected: seq<FrameCapsule>, f: FrameCapsule, o: nat) {
    && o < |cs| && f == MakeFrame(cs[o], 0.0, f.notes)
    && forall note :: note in f.notes <==> LedFrom(cs, p, selected, |selected|, o, note)
  }

  ghost predicate Led(cs: seq<Capsule>, p: Probe, selected: seq<FrameCapsule>, o: nat) {
    exists note :: LedFrom(cs, p, selected, |selected|, o, note)
  }

  /** Which capsule an entry shows. */
  lemma NotedEntry(cs: seq<Capsule>, hits: seq<Hit>, f: FrameCapsule) returns (o: nat)
    requires (forall h :: h in hits ==> h.ordinal < |cs|) && f in Noted(cs, hits)
    ensures o < |cs| && f == MakeFrame(cs[o], 0.0, f.notes) && o in FirstMet(hits) && f.notes == NotesOn(hits, o)
  {
    hide NotesOn;
    EntryIds(cs, hits);
    var i :| 0 <= i < |Noted(cs, hits)| && Noted(cs, hits)[i] == f;
    o := FirstMet(hits)[i];
  }

  lemma EntryOf(cs: seq<Capsule>, hits: seq<Hit>, o: nat) returns (f: FrameCapsule)
    requires (forall h :: h in hits ==> h.ordinal < |cs|) && o in FirstMet(hits)
    ensures f in Noted(cs, hits) && f.id == cs[o].id
  {
    EntryIds(cs, hits);
    var i :| 0 <= i < |FirstMet(hits)| && FirstMet(hits)[i] == o;
    f := Noted(cs, hits)[i];
  }

  lemma ExpandedEntry(cs: seq<Capsule>, p: Probe, selected: seq<FrameCapsule>, f: FrameCapsule) returns (o: nat)
    requires DistinctIds(cs) && Finds(IdIndex(cs), cs) && f in Expanded(cs, p, selected)
    ensures Relates(cs, p, selected, f, o) && Led(cs, p, selected, o)
  {
    hide IdIndex, RelationHits, LedFrom, Noted, NotesOn, FirstMet;
    assert selected[..|selected|] == selected;
    var hits := RelationHits(cs, IdIndex(cs), p, selected);
    o := NotedEntry(cs, hits, f);
    forall note ensures note in f.notes <==> LedFrom(cs, p, selected, |selected|, o, note) {
      NotesOnMean(hits, o, note);
      RelationHitsMean(cs, p, selected, |selected|, o, note);
    }
    var h :| h in hits && h.ordinal == o;
    assert h == Hit(o, h.note);
    RelationHitsMean(cs, p, selected, |selected|, o, h.note);
  }

  lemma LedIsExpanded(cs: seq<Capsule>, p: Probe, selected: seq<FrameCapsule>, o: nat) returns (f: FrameCapsule)
    requires DistinctIds(cs) && Finds(IdIndex(cs), cs) && o < |cs| && p.maxHops > 0 && Led(cs, p, selected, o)
    ensures f in Expanded(cs, p, selected) && f.id == cs[o].id
  {
    hide IdIndex, RelationHits, LedFrom, Noted, NotesOn, FirstMet;
    assert selected[..|selected|] == selected;
    var hits := RelationHits(cs, IdIndex(cs), p, selected);
    var note :| LedFrom(cs, p, selected, |selected|, o, note);
    RelationHitsMean(cs, p, selected, |selected|, o, note);
    if !p.includeSupporting && !p.includeContradictions { NothingLeads(cs, p, selected, o, note); }
    assert Hit(o, note).ordinal == o;
    f := EntryOf(cs, hits, o);
  }

  lemma NothingLeads(cs: seq<Capsule>, p: Probe, selected: seq<FrameCapsule>, o: nat, note: Note)
    requires !p.includeSupporting && !p.includeContradictions
    ensures !LedFrom(cs, p, selected, |selected|, o, note)
  {
    hide MaySee, MayKnow;
  }

  /**
   The related entries in full: one for each capsule that some selected entry leads to, when a hop
   is allowed, and none else; each with a note for exactly the edges that lead there.
   */
  lemma ExpandedMeans(cs: seq<Capsule>, p: Probe, selected: seq<FrameCapsule>)
    requires DistinctIds(cs) && Finds(IdIndex(cs), cs)
    ensures forall f :: f in Expanded(cs, p, selected) ==> p.maxHops > 0 && exists o: nat :: Relates(cs, p, selected, f, o) && Led(cs, p, selected, o)
    ensures forall o: nat :: o < |cs| && p.maxHops > 0 && Led(cs, p, selected, o) ==> exists f :: f in Expanded(cs, p, selected) && f.id == cs[o].id
  {
    hide IdIndex, RelationHits, Relates, Led, Noted;
    forall f | f in Expanded(cs, p, selected) ensures exists o: nat :: Relates(cs, p, selected, f, o) && Led(cs, p, selected, o) {
      var o := ExpandedEntry(cs, p, selected, f);
    }
    forall o: nat | o < |cs| && p.maxHops > 0 && Led(cs, p, selected, o) ensures exists f :: f in Expanded(cs, p, selected) && f.id == cs[o].id {
      var f := LedIsExpanded(cs, p, selected, o);
    }
  }

  // ---------------------------------------------------------------- the whole answer

  ghost function Matched(env: Env, cs: seq<Capsule>, p: Probe): set<nat> {
    set o | o in Eligible(cs, p) && MatchesTerm(env, cs[o], p)
  }

  /** The banded pool's top when the eligible set is large and that pool not empty, the exact pool's top otherwise. */
  ghost predicate Chosen(env: Env, cs: seq<Capsule>, p: Probe, config: RetrievalConfig, ordinals: seq<nat>) {
    var gated, matched := Eligible(cs, p), Matched(env, cs, p);
    var banded := AnnPool(env, cs, gated, matched, p);
    if |gated| > config.annThreshold && config.maxScored >= 1 && banded != {}
    then CappedTopK(ordinals, banded, AnnKey(env, cs, matched, p), config.maxScored)
    else CappedTopK(ordinals, ExactPool(cs, gated, matched, p, config), ExactKey(cs, matched, p), config.maxScored)
  }

  /** The candidates that reach scoring. */
  method Candidates(env: Env, cs: seq<Capsule>, index: SegmentIndex, p: Probe, config: RetrievalConfig) returns (ordinals: seq<nat>)
    requires index == IndexOf(env, cs) && |cs| <= U32_WRAP && DistinctIds(cs)
    ensures Ascending(ordinals) && |ordinals| <= config.maxScored && forall o :: o in ordinals ==> o in Eligible(cs, p)
    ensures config.maxScored >= 1 ==> (ordinals == [] <==> Eligible(cs, p) == {})
    ensures Chosen(env, cs, p, config, ordinals)
  {
    hide IndexOf, Eligible, HammingDistance, MatchesTerm, ExactPool, AnnPool, Superseded, CappedTopK;
    var candidates := GateScan(env, cs, index, p);
    ghost var gated := candidates.Members();
    var lookup := FindLookup(env, cs, index, p, candidates);
    assert lookup.Members() <= gated;
    ghost var matched := lookup.Members();
    assert matched == Matched(env, cs, p);
    var count := candidates.CountOnes();
    ExactPoolEmpty(cs, gated, matched, p, config);
    if count > config.annThreshold {
      ordinals := AnnSearch(env, cs, index, p, config, candidates, lookup);
      AnnWithin(env, cs, gated, matched, p);
      CappedWithin(ordinals, AnnPool(env, cs, gated, matched, p), gated, AnnKey(env, cs, matched, p), config.maxScored);
      if ordinals == [] {
        ordinals := ExactSearch(env, cs, index, p, config, candidates, lookup);
        CappedWithin(ordinals, ExactPool(cs, gated, matched, p, config), gated, ExactKey(cs, matched, p), config.maxScored);
      } else {
        assert ordinals[0] in ordinals;
      }
    } else {
      ordinals := ExactSearch(env, cs, index, p, config, candidates, lookup);
      CappedWithin(ordinals, ExactPool(cs, gated, matched, p, config), gated, ExactKey(cs, matched, p), config.maxScored);
    }
  }

  lemma AnnWithin(env: Env, cs: seq<Capsule>, gated: set<nat>, lookup: set<nat>, p: Probe)
    ensures AnnPool(env, cs, gated, lookup, p) <= gated
  {
  }

  lemma CappedWithin(out: seq<nat>, pool: set<nat>, gated: set<nat>, key: nat -> Candidate, cap: nat)
    requires CappedTopK(out, pool, key, cap) && pool <= gated
    ensures Ascending(out) && |out| <= cap && forall o :: o in out ==> o in gated
    ensures cap >= 1 ==> (out == [] <==> pool == {})
  {
    forall o | o in out ensures o in gated { assert o in ElementSet(out); }
  }

  /** The entry shows an eligible capsule of the segment, under its own score unless vectors were fused in. */
  ghost predicate FromEligible(cs: seq<Capsule>, p: Probe, scoring: Scoring, f: FrameCapsule) {
    exists o: nat :: o in Eligible(cs, p) && Shows(f, cs[o]) && (p.embedding == [] ==> f.score == scoring.lexical(cs[o]))
  }

  ghost predicate ScoreOrder(fs: seq<FrameCapsule>) {
    forall i, j :: 0 <= i < j < |fs| ==> fs[i].score >= fs[j].score
  }

  /**
   `retrieve`: at most the limit, each capsule once, best score first, all of them eligible, within
   the token budget; and something whenever anything is eligible.
   */
  method Retrieve(env: Env, segment: Segment, p: Probe, config: RetrievalConfig, scoring: Scoring)
    returns (frame: Frame, ghost ordinals: seq<nat>, ghost pool: seq<Scored>)
    requires |segment.capsules| <= U32_WRAP && DistinctIds(segment.capsules) && config.rrfK >= 0.0
    ensures Chosen(env, segment.capsules, p, config, ordinals) && ScoredBy(segment.capsules, p, config, scoring, ordinals, pool)
    ensures frame.capsules == Frames(Budgeted(Take(SortBy(pool, ScoredLeq), p.maxCapsules), p.maxTokens, true))
    ensures PickedFrom(pool, p, frame.capsules)
    ensures frame.candidateCount == |ordinals|
    ensures |frame.capsules| <= p.maxCapsules && DistinctFrames(frame.capsules) && ScoreOrder(frame.capsules)
    ensures forall f :: f in frame.capsules ==> FromEligible(segment.capsules, p, scoring, f)
    ensures config.maxScored >= 1 && p.maxCapsules >= 1 ==> (frame.capsules == [] <==> Eligible(segment.capsules, p) == {})
    ensures TotalTokens(frame.capsules) <= p.maxTokens || |frame.capsules| == 1
    ensures ConflictsOk(segment.capsules, p, frame.conflicts) && frame.epoch == segment.epoch
    ensures Finds(IdIndex(segment.capsules), segment.capsules) && frame.conflicts == Expanded(segment.capsules, p, frame.capsules)
  {
    hide IndexOf, IdIndex, Eligible, Chosen, ScoredBy, Budgeted, Expanded, ScoreOrder, TotalTokens, PickedFrom;
    var cs := segment.capsules;
    var index := Build(env, cs);
    var chosen := Candidates(env, cs, index, p, config);
    ordinals := chosen;
    assert forall o :: o in ordinals ==> o < |cs|;
    var capsules;
    capsules, pool := RankAndBudget(cs, p, config, scoring, chosen);
    BudgetedIsPicked(pool, p);
    forall f | f in capsules ensures FromEligible(cs, p, scoring, f) {
      assert ShowsOneOf(cs, chosen, p, scoring, f);
    }
    var conflicts := ExpandRelations(env, cs, index, p, capsules);
    frame := Frame(segment.epoch, capsules, conflicts, |chosen|);
  }

  ghost predicate ShowsOneOf(cs: seq<Capsule>, ordinals: seq<nat>, p: Probe, scoring: Scoring, f: FrameCapsule) {
    exists o: nat :: o in ordinals && o < |cs| && Shows(f, cs[o]) && (p.embedding == [] ==> f.score == scoring.lexical(cs[o]))
  }

  /** Scoring, fusion, ordering and budget over the chosen candidates. */
  method RankAndBudget(cs: seq<Capsule>, p: Probe, config: RetrievalConfig, scoring: Scoring, ordinals: seq<nat>)
    returns (capsules: seq<FrameCapsule>, ghost pool: seq<Scored>)
    requires DistinctIds(cs) && Ascending(ordinals) && (forall o :: o in ordinals ==> o < |cs|) && config.rrfK >= 0.0
    ensures ScoredBy(cs, p, config, scoring, ordinals, pool)
    ensures capsules == Frames(Budgeted(Take(SortBy(pool, ScoredLeq), p.maxCapsules), p.maxTokens, true))
    ensures |capsules| <= p.maxCapsules && DistinctFrames(capsules) && ScoreOrder(capsules)
    ensures TotalTokens(capsules) <= p.maxTokens || |capsules| == 1
    ensures forall f :: f in capsules ==> ShowsOneOf(cs, ordinals, p, scoring, f)
    ensures p.maxCapsules >= 1 ==> (capsules == [] <==> ordinals == [])
  {
    hide ScoredBy, Budgeted, ScoreOrder, TotalTokens;
    var scored := ScoreAll(cs, ordinals, scoring);
    var ranked := Rerank(scored, p, config, scoring);
    pool := ranked;
    RankedScored(cs, p, config, scoring, ordinals, scored, ranked);
    RankedDistinct(cs, ordinals, ranked);
    var ordered := SortBy(ranked, ScoredLeq);
    OrderedFacts(cs, ranked, ordered);
    capsules := FillBudget(ordered, p.maxCapsules, p.maxTokens);
    BudgetKept(Take(ordered, p.maxCapsules), p.maxTokens);
    BudgetedFacts(cs, p, ordered, capsules);
    forall f | f in capsules ensures ShowsOneOf(cs, ordinals, p, scoring, f) {
      var s :| s in ranked && f == MakeFrame(s.capsule, s.score, []);
      var i :| 0 <= i < |ranked| && ranked[i] == s;
      assert ordinals[i] in ordinals && Shows(f, cs[ordinals[i]]);
    }
  }

  /** The pool holds the chosen capsules, under their own scores or, for a probe with a vector, fused ones. */
  ghost predicate ScoredBy(cs: seq<Capsule>, p: Probe, config: RetrievalConfig, scoring: Scoring, ordinals: seq<nat>, pool: seq<Scored>) {
    && |pool| == |ordinals| && config.rrfK >= 0.0
    && (forall i :: 0 <= i < |ordinals| ==> ordinals[i] < |cs| && pool[i].capsule == cs[ordinals[i]])
    && (forall i :: 0 <= i < |ordinals| && p.embedding == [] ==> pool[i].score == scoring.lexical(pool[i].capsule))
    && (forall i :: 0 <= i < |ordinals| && p.embedding != [] ==>
          pool[i].score == FusedScore(LexicalScores(pool, scoring), Cosines(pool, p.embedding, scoring), config.rrfK, i))
  }

  function LexicalScores(pool: seq<Scored>, scoring: Scoring): (r: seq<real>)
    ensures |r| == |pool|
  {
    seq(|pool|, i requires 0 <= i < |pool| => scoring.lexical(pool[i].capsule))
  }

  lemma RankedScored(cs: seq<Capsule>, p: Probe, config: RetrievalConfig, scoring: Scoring, ordinals: seq<nat>, scored: seq<Scored>, ranked: seq<Scored>)
    requires |scored| == |ordinals| == |ranked| && config.rrfK >= 0.0
    requires forall i :: 0 <= i < |ordinals| ==> ordinals[i] < |cs| && scored[i] == Scored(cs[ordinals[i]], scoring.lexical(cs[ordinals[i]]))
    requires forall i :: 0 <= i < |scored| ==> ranked[i].capsule == scored[i].capsule
    requires p.embedding == [] ==> ranked == scored
    requires p.embedding != [] ==> forall i :: 0 <= i < |scored| ==>
      ranked[i].score == FusedScore(Scores(scored), Cosines(scored, p.embedding, scoring), config.rrfK, i)
    ensures ScoredBy(cs, p, config, scoring, ordinals, ranked)
  {
    hide FusedScore;
    assert Scores(scored) == LexicalScores(ranked, scoring);
    assert Cosines(scored, p.embedding, scoring) == Cosines(ranked, p.embedding, scoring);
  }

  ghost predicate DistinctScored(scored: seq<Scored>) {
    forall i, j :: 0 <= i < j < |scored| ==> scored[i].capsule.id != scored[j].capsule.id
  }

  lemma RankedDistinct(cs: seq<Capsule>, ordinals: seq<nat>, ranked: seq<Scored>)
    requires DistinctIds(cs) && Ascending(ordinals) && (forall o :: o in ordinals ==> o < |cs|) && |ranked| == |ordinals|
    requires forall i :: 0 <= i < |ordinals| ==> ordinals[i] in ordinals && ranked[i].capsule == cs[ordinals[i]]
    ensures DistinctScored(ranked)
  {
  }

  /** Ordering the pool permutes it. */
  lemma OrderedFacts(cs: seq<Capsule>, ranked: seq<Scored>, ordered: seq<Scored>)
    requires DistinctScored(ranked) && ordered == SortBy(ranked, ScoredLeq)
    ensures DistinctScored(ordered) && SortedBy(ordered, ScoredLeq) && |ordered| == |ranked|
    ensures forall s :: s in ordered <==> s in ranked
  {
    ScoredLeqIsPreorder();
    SortElements(ranked, ScoredLeq);
    SortSorts(ranked, ScoredLeq);
    assert Distinct(ranked);
    DistinctPermutation(ranked, ordered);
    forall i, j | 0 <= i < j < |ordered| ensures ordered[i].capsule.id != ordered[j].capsule.id {
      assert ordered[i] != ordered[j] && ordered[i] in ranked && ordered[j] in ranked;
      var a :| 0 <= a < |ranked| && ranked[a] == ordered[i];
      var b :| 0 <= b < |ranked| && ranked[b] == ordered[j];
      assert a != b;
    }
  }

  lemma BudgetedFacts(cs: seq<Capsule>, p: Probe, ordered: seq<Scored>, out: seq<FrameCapsule>)
    requires DistinctScored(ordered) && SortedBy(ordered, ScoredLeq)
    requires out == Frames(Budgeted(Take(ordered, p.maxCapsules), p.maxTokens, true))
    ensures |out| <= p.maxCapsules && DistinctFrames(out) && ScoreOrder(out)
    ensures forall f :: f in out ==> exists s :: s in ordered && f == MakeFrame(s.capsule, s.score, [])
    ensures p.maxCapsules >= 1 ==> (out == [] <==> ordered == [])
  {
    var considered := Take(ordered, p.maxCapsules);
    var kept := Budgeted(considered, p.maxTokens, true);
    hide Budgeted;
    var positions := BudgetedIsSubsequence(considered, p.maxTokens, true);
    AscendingBelow(positions, |considered|);
    forall i, j | 0 <= i < j < |out| ensures out[i].id != out[j].id && out[i].score >= out[j].score {
      assert kept[i] == ordered[positions[i]] && kept[j] == ordered[positions[j]] && positions[i] < positions[j];
      assert ScoredLeq(ordered[positions[i]], ordered[positions[j]]);
    }
    forall f | f in out ensures exists s :: s in ordered && f == MakeFrame(s.capsule, s.score, []) {
      var i :| 0 <= i < |out| && out[i] == f;
      assert kept[i] == ordered[positions[i]] && kept[i] in ordered;
    }
  }

  lemma {:induction false} AscendingBelow(xs: seq<nat>, n: nat)
    requires Ascending(xs) && forall i :: 0 <= i < |xs| ==> xs[i] < n
    ensures |xs| <= n
  {
    if xs != [] {
      var last := xs[|xs| - 1];
      AscendingBelow(xs[..|xs| - 1], last);
    }
  }
}
