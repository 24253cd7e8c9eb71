/** `ann_candidate_pool`: only what shares a band or a term with the probe is visited. */
module BandedSearch {
  import opened Results
  import opened Capsules
  import opened BitSets
  import opened Lsh
  import opened Index
  import opened Gates
  import opened Selection
  import opened CandidateSearch

  ghost predicate Dense(env: Env, cs: seq<Capsule>, p: Probe, o: nat) {
    o < |cs| && p.embedding != [] && DenseHit(env, cs, p.embedding, o)
  }

  ghost predicate Banded(cs: seq<Capsule>, p: Probe, o: nat) {
    o < |cs| && SharesBand(p.semanticBits, cs[o].semanticBits)
  }

  /** Gated ordinals that are dense hits, lookup hits, or share a fingerprint band. */
  ghost function AnnPool(env: Env, cs: seq<Capsule>, gated: set<nat>, lookup: set<nat>, p: Probe): (s: set<nat>)
    ensures s <= gated
    ensures forall o :: o in s <==> o in gated && (Dense(env, cs, p, o) || o in lookup || Banded(cs, p, o))
  {
    set o | o in gated && (Dense(env, cs, p, o) || o in lookup || Banded(cs, p, o))
  }

  ghost function Tier(env: Env, cs: seq<Capsule>, lookup: set<nat>, p: Probe, o: nat): nat {
    if Dense(env, cs, p, o) then 0 else if o in lookup then 1 else 2
  }

  ghost function AnnKey(env: Env, cs: seq<Capsule>, lookup: set<nat>, p: Probe): nat -> Candidate {
    (o: nat) => if o < |cs| then Candidate(Tier(env, cs, lookup, p, o), HammingDistance(p.semanticBits, cs[o].semanticBits), o)
                else Candidate(0, 0, o)
  }

  /** The pool is what has been seen, each ordinal once and under its own key. */
  ghost predicate Pooled(env: Env, cs: seq<Capsule>, lookup: set<nat>, p: Probe, pool: seq<Candidate>, seen: set<nat>) {
    Lists(pool, seen, AnnKey(env, cs, lookup, p))
  }

  lemma PoolGrows(env: Env, cs: seq<Capsule>, lookup: set<nat>, p: Probe, pool: seq<Candidate>, seen: set<nat>, c: Candidate)
    requires Pooled(env, cs, lookup, p, pool, seen) && c.ordinal < |cs| && c.ordinal !in seen
    requires c.tier == Tier(env, cs, lookup, p, c.ordinal) && c.distance == HammingDistance(p.semanticBits, cs[c.ordinal].semanticBits)
    ensures Pooled(env, cs, lookup, p, pool + [c], seen + {c.ordinal})
  {
    hide HammingDistance, Tier;
  }

  /** Visits one list of ordinals: authorized and not yet seen ones join the pool in `tier`. */
  method Visit(env: Env, cs: seq<Capsule>, p: Probe, ordinals: seq<nat>, tier: nat, candidates: BitSet, ghost lookup: set<nat>, seen: BitSet, pool: seq<Candidate>)
    returns (grown: seq<Candidate>)
    requires Usable(candidates, cs) && Usable(seen, cs) && candidates.words != seen.words
    requires Pooled(env, cs, lookup, p, pool, seen.Members())
    requires forall o :: o in ordinals ==> o < |cs|
    requires forall o :: o in ordinals && o in candidates.Members() && o !in seen.Members() ==> Tier(env, cs, lookup, p, o) == tier
    modifies seen.words
    ensures Usable(candidates, cs) && Usable(seen, cs) && candidates.Members() == old(candidates.Members())
    ensures forall o: nat :: o in seen.Members() <==> o in old(seen.Members()) || (o in ordinals && o in candidates.Members())
    ensures Pooled(env, cs, lookup, p, grown, seen.Members())
  {
    hide HammingDistance, Dense, Tier, Pooled;
    grown := pool;
    for k := 0 to |ordinals|
      invariant Usable(candidates, cs) && Usable(seen, cs) && candidates.Members() == old(candidates.Members())
      invariant forall o: nat :: o in seen.Members() <==> o in old(seen.Members()) || (o in ordinals[..k] && o in candidates.Members())
      invariant Pooled(env, cs, lookup, p, grown, seen.Members())
    {
      var o := ordinals[k];
      assert o in ordinals;
      assert forall x :: x in ordinals[..k + 1] <==> x in ordinals[..k] || x == o;
      var authorized := candidates.Get(o);
      var known := seen.Get(o);
      if authorized && !known {
        ghost var before := seen.Members();
        seen.Set(o);
        var distance := Hamming(p.semanticBits, cs[o].semanticBits);
        PoolGrows(env, cs, lookup, p, grown, before, Candidate(tier, distance, o));
        assert seen.Members() == before + {o};
        grown := grown + [Candidate(tier, distance, o)];
      }
    }
    assert ordinals[..|ordinals|] == ordinals;
  }

  /** Dense tier: every table of the embedding index, when the probe carries a vector of its width. */
  method VisitDense(env: Env, cs: seq<Capsule>, index: SegmentIndex, p: Probe, candidates: BitSet, ghost lookup: set<nat>, seen: BitSet)
    returns (pool: seq<Candidate>)
    requires index == IndexOf(env, cs) && |cs| <= U32_WRAP
    requires Usable(candidates, cs) && Usable(seen, cs) && candidates.words != seen.words && seen.Members() == {}
    modifies seen.words
    ensures Usable(candidates, cs) && Usable(seen, cs) && candidates.Members() == old(candidates.Members())
    ensures forall o: nat :: o in seen.Members() <==> o in candidates.Members() && Dense(env, cs, p, o)
    ensures Pooled(env, cs, lookup, p, pool, seen.Members())
  {
    hide IndexOf, HammingDistance, Postings, SignatureBand;
    pool := [];
    DenseTablesOf(env, cs);
    if p.embedding == [] || index.embeddingLsh.None? || |p.embedding| != index.embeddingLsh.value.dim { return; }
    var tables := index.embeddingLsh.value.tables;
    for band := 0 to SIGNATURE_BANDS
      invariant Usable(candidates, cs) && Usable(seen, cs) && candidates.Members() == old(candidates.Members())
      invariant forall o: nat :: o in seen.Members() <==> o in candidates.Members() && DenseBelow(env, cs, p, o, band)
      invariant Pooled(env, cs, lookup, p, pool, seen.Members())
    {
      var key := SignatureBand(env, p.embedding, band);
      SignatureHits(env, cs, band, key);
      pool := Visit(env, cs, p, Hits(tables[band], key), 0, candidates, lookup, seen, pool);
    }
  }

  lemma DenseTablesOf(env: Env, cs: seq<Capsule>)
    ensures var d := IndexOf(env, cs).embeddingLsh;
            && (d.None? <==> FirstDim(cs) == 0)
            && (d.Some? ==> d.value.dim == FirstDim(cs) && |d.value.tables| == SIGNATURE_BANDS)
  {
  }

  /** A dense hit through one of the first `bands` tables. */
  ghost predicate DenseBelow(env: Env, cs: seq<Capsule>, p: Probe, o: nat, bands: nat) {
    o < |cs| && |cs[o].embedding| == FirstDim(cs)
    && exists band :: 0 <= band < bands && band < SIGNATURE_BANDS && SignatureBand(env, cs[o].embedding, band) == SignatureBand(env, p.embedding, band)
  }

  /** A shared band among the first `bands`. */
  ghost predicate BandedBelow(cs: seq<Capsule>, p: Probe, o: nat, bands: nat) {
    o < |cs| && exists band :: 0 <= band < bands && band < BANDS && BandKey(p.semanticBits, band) == BandKey(cs[o].semanticBits, band)
  }

  method VisitBands(env: Env, cs: seq<Capsule>, index: SegmentIndex, p: Probe, candidates: BitSet, ghost lookup: set<nat>, seen: BitSet, start: seq<Candidate>)
    returns (pool: seq<Candidate>)
    requires index == IndexOf(env, cs) && |cs| <= U32_WRAP
    requires Usable(candidates, cs) && Usable(seen, cs) && candidates.words != seen.words
    requires forall o: nat :: o in seen.Members() <==> o in candidates.Members() && (Dense(env, cs, p, o) || o in lookup)
    requires Pooled(env, cs, lookup, p, start, seen.Members())
    modifies seen.words
    ensures Usable(candidates, cs) && Usable(seen, cs) && candidates.Members() == old(candidates.Members())
    ensures seen.Members() == AnnPool(env, cs, candidates.Members(), lookup, p)
    ensures Pooled(env, cs, lookup, p, pool, seen.Members())
  {
    hide IndexOf, HammingDistance, Postings, BandKey, Dense;
    pool := start;
    for band := 0 to BANDS
      invariant Usable(candidates, cs) && Usable(seen, cs) && candidates.Members() == old(candidates.Members())
      invariant forall o: nat :: o in seen.Members() <==>
        o in candidates.Members() && (Dense(env, cs, p, o) || o in lookup || BandedBelow(cs, p, o, band))
      invariant Pooled(env, cs, lookup, p, pool, seen.Members())
    {
      var key := BandKey(p.semanticBits, band);
      BandHits(env, cs, band, key);
      BandCount(env, cs);
      pool := Visit(env, cs, p, Hits(index.lsh[band], key), 2, candidates, lookup, seen, pool);
    }
    assert forall o: nat :: Banded(cs, p, o) <==> BandedBelow(cs, p, o, BANDS);
  }

  lemma BandCount(env: Env, cs: seq<Capsule>)
    ensures |IndexOf(env, cs).lsh| == BANDS
  {
  }

  /** The banded search returns the true top of its pool under (tier, distance, ordinal). */
  method AnnSearch(env: Env, cs: seq<Capsule>, index: SegmentIndex, p: Probe, config: RetrievalConfig, candidates: BitSet, lookup: BitSet)
    returns (out: seq<nat>)
    requires index == IndexOf(env, cs) && |cs| <= U32_WRAP
    requires Usable(candidates, cs) && Usable(lookup, cs)
    ensures Usable(candidates, cs) && Usable(lookup, cs)
    ensures candidates.Members() == old(candidates.Members()) && lookup.Members() == old(lookup.Members())
    ensures CappedTopK(out, AnnPool(env, cs, candidates.Members(), lookup.Members(), p),
                       AnnKey(env, cs, lookup.Members(), p), config.maxScored)
  {
    hide IndexOf, HammingDistance, Dense, DenseHit, Banded;
    ghost var matched := lookup.Members();
    var seen := new BitSet(|cs|);
    var pool := VisitDense(env, cs, index, p, candidates, matched, seen);
    var found := lookup.Ones();
    assert forall o :: o in found ==> o in matched;
    assert forall o :: o in matched ==> o in found;
    pool := Visit(env, cs, p, found, 1, candidates, matched, seen, pool);
    pool := VisitBands(env, cs, index, p, candidates, matched, seen, pool);
    SelectIsTopK(pool, config.maxScored, seen.Members(), AnnKey(env, cs, matched, p));
    out := Select(pool, config.maxScored);
  }

  /**
   Recall: before the cap, the pool misses no gated ordinal within distance 15, no lookup hit, and
   no member of the probe's semantic bucket.
   */
  lemma AnnRecall(env: Env, cs: seq<Capsule>, gated: set<nat>, lookup: set<nat>, p: Probe, o: nat)
    requires o in gated && o < |cs|
    requires HammingDistance(p.semanticBits, cs[o].semanticBits) <= 15 || o in lookup
             || SemanticBucket(cs[o].semanticBits) == SemanticBucket(p.semanticBits)
    ensures o in AnnPool(env, cs, gated, lookup, p)
  {
    hide HammingDistance, SemanticBucket, Dense;
    BucketIsFirstBand(p.semanticBits);
    BucketIsFirstBand(cs[o].semanticBits);
    if HammingDistance(p.semanticBits, cs[o].semanticBits) <= 15 {
      NearSharesBand(p.semanticBits, cs[o].semanticBits);
    }
  }

  /** Dense hits come before everything else, so they survive the cap whenever they fit under it. */
  lemma DenseSurvives(out: seq<nat>, env: Env, cs: seq<Capsule>, gated: set<nat>, lookup: set<nat>, p: Probe, cap: nat)
    requires CappedTopK(out, AnnPool(env, cs, gated, lookup, p), AnnKey(env, cs, lookup, p), cap)
    requires forall o :: o in gated ==> o < |cs|
    requires |set o | o in gated && Dense(env, cs, p, o)| <= cap
    ensures forall o :: o in gated && Dense(env, cs, p, o) ==> o in out
  {
    hide Dense, HammingDistance;
    var preferred := set o | o in gated && Dense(env, cs, p, o);
    PreferredSurvive(out, AnnPool(env, cs, gated, lookup, p), AnnKey(env, cs, lookup, p), cap, preferred);
  }

  // ---------------------------------------------------------------- the search in full

  /** Two signatures agree on one of their four sixteen-bit slices. */
  ghost predicate SharesSlice(a: u64, b: u64) {
    exists slice: nat :: slice < 4 && SliceAgrees(a, b, slice)
  }

  ghost predicate SliceAgrees(a: u64, b: u64, slice: nat) {
    forall i: nat :: 16 * slice <= i < 16 * slice + 16 ==> HasBit(a, i) == HasBit(b, i)
  }

  lemma SliceMeans(a: u64, b: u64, slice: nat)
    ensures Slice16(a, slice) == Slice16(b, slice) <==> SliceAgrees(a, b, slice)
  {
    hide Slice16;
    if Slice16(a, slice) != Slice16(b, slice) {
      var i := DifferingSlice(a, b, slice);
      assert HasBit(a, i) != HasBit(b, i);
    } else {
      forall i: nat | 16 * slice <= i < 16 * slice + 16 ensures HasBit(a, i) == HasBit(b, i) { EqualSlices(a, b, slice, i); }
    }
  }

  /** A dense hit has an embedding of the probe's width, which is that of the first one in the segment, and shares a signature slice. */
  lemma DenseMeans(env: Env, cs: seq<Capsule>, p: Probe, o: nat)
    requires o < |cs|
    ensures Dense(env, cs, p, o) <==>
            && p.embedding != [] && |cs[o].embedding| == |p.embedding| && FirstDim(cs) == |p.embedding|
            && SharesSlice(env.signature(cs[o].embedding), env.signature(p.embedding))
  {
    hide Slice16, SliceAgrees;
    var a, b := env.signature(cs[o].embedding), env.signature(p.embedding);
    forall slice: nat ensures Slice16(a, slice) == Slice16(b, slice) <==> SliceAgrees(a, b, slice) { SliceMeans(a, b, slice); }
    if slice: nat :| slice < 4 && SliceAgrees(a, b, slice) {
      assert SignatureBand(env, cs[o].embedding, slice) == SignatureBand(env, p.embedding, slice);
    }
  }

  /** The width the index is built for is that of the first capsule with an embedding. */
  lemma {:induction false} FirstDimMeans(cs: seq<Capsule>)
    ensures FirstDim(cs) == 0 <==> forall c :: c in cs ==> c.embedding == []
    ensures FirstDim(cs) > 0 ==> exists i: nat :: i < |cs| && |cs[i].embedding| == FirstDim(cs) && forall j: nat :: j < i ==> cs[j].embedding == []
  {
    if cs != [] && cs[0].embedding == [] {
      FirstDimMeans(cs[1..]);
      if FirstDim(cs) > 0 {
        var i: nat :| i < |cs| - 1 && |cs[1..][i].embedding| == FirstDim(cs) && forall j: nat :: j < i ==> cs[1..][j].embedding == [];
        forall j: nat | j < i + 1 ensures cs[j].embedding == [] { if j > 0 { assert cs[1..][j - 1].embedding == []; } }
        assert |cs[i + 1].embedding| == FirstDim(cs);
      }
    } else if cs != [] {
      assert cs[0] in cs && |cs[0].embedding| == FirstDim(cs);
    }
  }

  /** Banded: on some of the sixteen bands no bit differs. */
  lemma BandedMeans(cs: seq<Capsule>, p: Probe, o: nat)
    requires o < |cs|
    ensures Banded(cs, p, o) <==>
            exists band: nat :: band < 16 && BandUndiffering(p.semanticBits, cs[o].semanticBits, band)
  {
    hide BandKey, BandUndiffering;
    var a, b := p.semanticBits, cs[o].semanticBits;
    forall band: nat | band < 16 ensures BandKey(a, band) == BandKey(b, band) <==> BandUndiffering(a, b, band) { BandMeans(a, b, band); }
    if band: nat :| band < 16 && BandUndiffering(a, b, band) { assert BandKey(a, band) == BandKey(b, band); }
  }

  ghost predicate BandUndiffering(a: SemanticBits, b: SemanticBits, band: nat)
    requires band < 16
  {
    forall i: nat :: 16 * band <= i < 16 * band + 16 ==> !DiffersAt(a, b, i)
  }

  lemma BandMeans(a: SemanticBits, b: SemanticBits, band: nat)
    requires band < 16
    ensures BandKey(a, band) == BandKey(b, band) <==> BandUndiffering(a, b, band)
  {
    BandKeysAgree(a, b, band);
  }

  /** What the banded search drops could have stood behind all it keeps: dense hits first, then matches, then the rest. */
  lemma AnnTopMeans(env: Env, cs: seq<Capsule>, gated: set<nat>, lookup: set<nat>, p: Probe, cap: nat, out: seq<nat>)
    requires CappedTopK(out, AnnPool(env, cs, gated, lookup, p), AnnKey(env, cs, lookup, p), cap)
    ensures forall a: nat, b: nat :: a in out && b in AnnPool(env, cs, gated, lookup, p) && b !in out && a < |cs| && b < |cs| ==>
              Before(if Dense(env, cs, p, a) then 0 else if a in lookup then 1 else 2, |Differing(p.semanticBits, cs[a].semanticBits)|, a,
                     if Dense(env, cs, p, b) then 0 else if b in lookup then 1 else 2, |Differing(p.semanticBits, cs[b].semanticBits)|, b)
  {
    hide Dense, HammingDistance, Differing;
    forall a: nat, b: nat | a in out && b in AnnPool(env, cs, gated, lookup, p) && b !in out && a < |cs| && b < |cs|
      ensures Before(if Dense(env, cs, p, a) then 0 else if a in lookup then 1 else 2, |Differing(p.semanticBits, cs[a].semanticBits)|, a,
                     if Dense(env, cs, p, b) then 0 else if b in lookup then 1 else 2, |Differing(p.semanticBits, cs[b].semanticBits)|, b)
    {
      DistanceCountsBits(p.semanticBits, cs[a].semanticBits);
      DistanceCountsBits(p.semanticBits, cs[b].semanticBits);
    }
  }
}
