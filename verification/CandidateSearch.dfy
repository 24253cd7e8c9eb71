/** Candidate generation of `retrieve.rs`: the gate scan, the term lookup, the exact and the banded search. */
module CandidateSearch {
  import opened Results
  import opened ByteCodec
  import opened Capsules
  import opened BitSets
  import opened Lsh
  import opened Index
  import opened Gates
  import opened Selection

  datatype RetrievalConfig = RetrievalConfig(hammingThreshold: nat, maxScored: nat, annThreshold: nat, rrfK: real)

  /** A bit set freshly made for this query over this segment. */
  ghost predicate Usable(b: BitSet, cs: seq<Capsule>)
    reads b, b.words
  {
    b.Valid() && b.size == |cs|
  }

  // ---------------------------------------------------------------- gate scan

  method SupersededNow(env: Env, cs: seq<Capsule>, index: SegmentIndex, o: nat, p: Probe) returns (b: bool)
    requires index == IndexOf(env, cs) && o < |cs| <= U32_WRAP
    ensures b <==> Superseded(cs, o, p)
  {
    SupersederHits(env, cs, o);
    var ordinals := Hits(index.supersedesByTarget, cs[o].id);
    for k := 0 to |ordinals|
      invariant forall i :: 0 <= i < k ==> ordinals[i] < |cs| && !PassesGates(cs[ordinals[i]], p)
    {
      assert ordinals[k] in ordinals;
      if PassesGates(cs[ordinals[k]], p) { return true; }
    }
    return false;
  }

  method RowAdmits(env: Env, cs: seq<Capsule>, index: SegmentIndex, o: nat, p: Probe) returns (b: bool)
    requires index == IndexOf(env, cs) && o < |cs| <= U32_WRAP && DistinctIds(cs) && cs[o].tenantId == p.tenantId
    ensures b <==> o in Eligible(cs, p)
  {
    var row := index.gateRows[o];
    assert row == Row(cs[o]);
    var superseded := false;
    FlagsMeanSuperseded(env, cs, o);
    if index.supersedeTarget[o] {
      superseded := SupersededNow(env, cs, index, o, p);
    }
    var temporalOk := InWindow(row.validFrom, row.validUntil, p.asOf) && !superseded;
    b := Overlap(row.contextMask, p.contextMask) && Overlap(row.policyMask, p.policyMask)
         && temporalOk && row.trustLevel >= p.trustFloor;
  }

  /** Only the tenant's own postings are visited; the result is the plain scan all the same. */
  method GateScan(env: Env, cs: seq<Capsule>, index: SegmentIndex, p: Probe) returns (candidates: BitSet)
    requires index == IndexOf(env, cs) && |cs| <= U32_WRAP && DistinctIds(cs)
    ensures fresh(candidates) && fresh(candidates.words) && Usable(candidates, cs)
    ensures candidates.Members() == Eligible(cs, p)
    ensures forall o: nat :: o in candidates.Members() <==>
              && o < |cs| && MaySee(cs[o], p)
              && !exists c, e :: c in cs && MaySee(c, p) && e in c.relationEdges && e.kind == Supersedes && e.to == cs[o].id
  {
    hide IndexOf, PassesGates, Superseded, Overlap, MaySee;
    forall o: nat ensures o in Eligible(cs, p) <==>
        && o < |cs| && MaySee(cs[o], p)
        && !exists c, e :: c in cs && MaySee(c, p) && e in c.relationEdges && e.kind == Supersedes && e.to == cs[o].id
    {
      EligibleMeans(cs, p, o);
    }
    candidates := new BitSet(|cs|);
    EligibleTenant(cs, p);
    TenantHits(env, cs, p.tenantId);
    var ordinals := Hits(index.tenantPostings, p.tenantId);
    for k := 0 to |ordinals|
      invariant Usable(candidates, cs) && fresh(candidates) && fresh(candidates.words)
      invariant forall o: nat :: o in candidates.Members() <==> o in ordinals[..k] && o in Eligible(cs, p)
    {
      var o := ordinals[k];
      assert o in ordinals;
      assert forall x :: x in ordinals[..k + 1] <==> x in ordinals[..k] || x == o;
      var admits := RowAdmits(env, cs, index, o, p);
      if admits {
        candidates.Set(o);
      }
    }
    assert ordinals[..|ordinals|] == ordinals;
    assert forall o: nat :: o in candidates.Members() <==> o in Eligible(cs, p);
  }

  lemma EligibleTenant(cs: seq<Capsule>, p: Probe)
    ensures forall o: nat :: o in Eligible(cs, p) ==> cs[o].tenantId == p.tenantId
  {
  }

  // ---------------------------------------------------------------- term lookup

  predicate MatchesTerm(env: Env, c: Capsule, p: Probe) {
    (exists e :: e in p.entities && Carries(env, c.entities, StableHash(env, e)))
    || (exists a :: a in p.anchors && Carries(env, c.anchors, StableHash(env, a)))
  }

  /** Adds to `lookup` the candidates on one posting list. */
  method MarkCandidates(cs: seq<Capsule>, ordinals: seq<nat>, candidates: BitSet, lookup: BitSet)
    requires Usable(candidates, cs) && Usable(lookup, cs) && candidates.words != lookup.words
    requires forall o :: o in ordinals ==> o < |cs|
    modifies lookup.words
    ensures Usable(lookup, cs) && candidates.Members() == old(candidates.Members()) && candidates.Valid()
    ensures forall o: nat :: o in lookup.Members() <==> o in old(lookup.Members()) || (o in ordinals && o in candidates.Members())
  {
    for k := 0 to |ordinals|
      invariant Usable(lookup, cs) && Usable(candidates, cs) && candidates.Members() == old(candidates.Members())
      invariant forall o: nat :: o in lookup.Members() <==>
        o in old(lookup.Members()) || (o in ordinals[..k] && o in candidates.Members())
    {
      var o := ordinals[k];
      assert o in ordinals;
      assert forall x :: x in ordinals[..k + 1] <==> x in ordinals[..k] || x == o;
      var member := candidates.Get(o);
      if member { lookup.Set(o); }
    }
    assert ordinals[..|ordinals|] == ordinals;
  }

  ghost predicate EntityFound(env: Env, c: Capsule, terms: seq<Bytes>) {
    exists e :: e in terms && Carries(env, c.entities, StableHash(env, e))
  }

  ghost predicate AnchorFound(env: Env, c: Capsule, terms: seq<Bytes>) {
    exists a :: a in terms && Carries(env, c.anchors, StableHash(env, a))
  }

  lemma FoundSnoc(env: Env, c: Capsule, terms: seq<Bytes>, t: Bytes)
    ensures EntityFound(env, c, terms + [t]) <==> EntityFound(env, c, terms) || Carries(env, c.entities, StableHash(env, t))
    ensures AnchorFound(env, c, terms + [t]) <==> AnchorFound(env, c, terms) || Carries(env, c.anchors, StableHash(env, t))
  {
    hide Carries, StableHash;
    assert t in terms + [t];
    forall e | e in terms ensures e in terms + [t] {}
  }

  /** Exact term matches among the candidates, through the hashed posting lists. */
  method FindLookup(env: Env, cs: seq<Capsule>, index: SegmentIndex, p: Probe, candidates: BitSet) returns (lookup: BitSet)
    requires index == IndexOf(env, cs) && |cs| <= U32_WRAP && Usable(candidates, cs)
    ensures fresh(lookup) && fresh(lookup.words) && Usable(lookup, cs) && Usable(candidates, cs)
    ensures candidates.Members() == old(candidates.Members())
    ensures forall o: nat :: o in lookup.Members() <==> o in candidates.Members() && MatchesTerm(env, cs[o], p)
  {
    hide IndexOf, Carries, StableHash;
    lookup := new BitSet(|cs|);
    for k := 0 to |p.entities|
      invariant Usable(lookup, cs) && Usable(candidates, cs) && fresh(lookup) && fresh(lookup.words)
      invariant candidates.Members() == old(candidates.Members())
      invariant forall o: nat :: o in lookup.Members() <==> o in candidates.Members() && EntityFound(env, cs[o], p.entities[..k])
    {
      ghost var before := lookup.Members();
      TermHits(env, cs, StableHash(env, p.entities[k]));
      MarkCandidates(cs, Hits(index.entities, StableHash(env, p.entities[k])), candidates, lookup);
      assert p.entities[..k + 1] == p.entities[..k] + [p.entities[k]];
      forall o: nat | o < |cs|
        ensures EntityFound(env, cs[o], p.entities[..k + 1])
                <==> EntityFound(env, cs[o], p.entities[..k]) || Carries(env, cs[o].entities, StableHash(env, p.entities[k]))
      {
        FoundSnoc(env, cs[o], p.entities[..k], p.entities[k]);
      }
    }
    assert p.entities[..|p.entities|] == p.entities;
    for k := 0 to |p.anchors|
      invariant Usable(lookup, cs) && Usable(candidates, cs) && fresh(lookup) && fresh(lookup.words)
      invariant candidates.Members() == old(candidates.Members())
      invariant forall o: nat :: o in lookup.Members() <==>
        o in candidates.Members() && (EntityFound(env, cs[o], p.entities) || AnchorFound(env, cs[o], p.anchors[..k]))
    {
      TermHits(env, cs, StableHash(env, p.anchors[k]));
      MarkCandidates(cs, Hits(index.anchors, StableHash(env, p.anchors[k])), candidates, lookup);
      assert p.anchors[..k + 1] == p.anchors[..k] + [p.anchors[k]];
      forall o: nat | o < |cs|
        ensures AnchorFound(env, cs[o], p.anchors[..k + 1])
                <==> AnchorFound(env, cs[o], p.anchors[..k]) || Carries(env, cs[o].anchors, StableHash(env, p.anchors[k]))
      {
        FoundSnoc(env, cs[o], p.anchors[..k], p.anchors[k]);
      }
    }
    assert p.anchors[..|p.anchors|] == p.anchors;
    assert forall o: nat :: o < |cs| ==> (MatchesTerm(env, cs[o], p) <==>
        EntityFound(env, cs[o], p.entities) || AnchorFound(env, cs[o], p.anchors));
  }

  // ---------------------------------------------------------------- exact search

  /** Semantically close: same bucket, or within the distance threshold. */
  predicate Near(c: Capsule, p: Probe, config: RetrievalConfig) {
    SemanticBucket(c.semanticBits) == SemanticBucket(p.semanticBits)
    || HammingDistance(p.semanticBits, c.semanticBits) <= config.hammingThreshold
  }

  ghost function NearSet(cs: seq<Capsule>, from: set<nat>, p: Probe, config: RetrievalConfig): (s: set<nat>)
    ensures s <= from && forall o :: o in s <==> o in from && o < |cs| && Near(cs[o], p, config)
  {
    set o | o in from && o < |cs| && Near(cs[o], p, config)
  }

  /** The exact pool: matches and near capsules if there are any, else every gated capsule. */
  ghost function ExactPool(cs: seq<Capsule>, gated: set<nat>, lookup: set<nat>, p: Probe, config: RetrievalConfig): set<nat> {
    var narrowed := lookup + NearSet(cs, gated, p, config);
    if narrowed != {} then gated * narrowed else gated
  }

  ghost function ExactKey(cs: seq<Capsule>, lookup: set<nat>, p: Probe): nat -> Candidate {
    (o: nat) => if o < |cs| then Candidate(if o in lookup then 0 else 1, HammingDistance(p.semanticBits, cs[o].semanticBits), o)
                else Candidate(0, 0, o)
  }

  method BucketMembers(env: Env, cs: seq<Capsule>, index: SegmentIndex, p: Probe, candidates: BitSet) returns (semantic: BitSet)
    requires index == IndexOf(env, cs) && |cs| <= U32_WRAP && Usable(candidates, cs)
    ensures fresh(semantic) && fresh(semantic.words) && Usable(semantic, cs)
    ensures Usable(candidates, cs) && candidates.Members() == old(candidates.Members())
    ensures forall o: nat :: o in semantic.Members() <==>
      o in candidates.Members() && SemanticBucket(cs[o].semanticBits) == SemanticBucket(p.semanticBits)
  {
    hide IndexOf, SemanticBucket;
    semantic := new BitSet(|cs|);
    BucketHits(env, cs, SemanticBucket(p.semanticBits));
    MarkCandidates(cs, Hits(index.semanticBuckets, SemanticBucket(p.semanticBits)), candidates, semantic);
  }

  /** Adds every candidate within the threshold. */
  method AddNear(cs: seq<Capsule>, p: Probe, config: RetrievalConfig, ordinals: seq<nat>, semantic: BitSet)
    requires Usable(semantic, cs) && forall o :: o in ordinals ==> o < |cs|
    modifies semantic.words
    ensures Usable(semantic, cs)
    ensures forall o: nat :: o in semantic.Members() <==>
      o in old(semantic.Members()) || (o in ordinals && HammingDistance(p.semanticBits, cs[o].semanticBits) <= config.hammingThreshold)
  {
    hide HammingDistance;
    for k := 0 to |ordinals|
      invariant Usable(semantic, cs)
      invariant forall o: nat :: o in semantic.Members() <==>
        o in old(semantic.Members()) || (o in ordinals[..k] && o < |cs| && HammingDistance(p.semanticBits, cs[o].semanticBits) <= config.hammingThreshold)
    {
      var o := ordinals[k];
      assert o in ordinals;
      assert forall x :: x in ordinals[..k + 1] <==> x in ordinals[..k] || x == o;
      var distance := Hamming(p.semanticBits, cs[o].semanticBits);
      if distance <= config.hammingThreshold { semantic.Set(o); }
    }
    assert ordinals[..|ordinals|] == ordinals;
  }

  /** The listed ordinals with their keys. */
  method Keyed(cs: seq<Capsule>, p: Probe, ordinals: seq<nat>, lookup: BitSet) returns (pool: seq<Candidate>)
    requires Usable(lookup, cs) && Ascending(ordinals) && forall o :: o in ordinals ==> o < |cs|
    ensures Lists(pool, ElementSet(ordinals), ExactKey(cs, lookup.Members(), p))
  {
    hide HammingDistance;
    pool := [];
    for k := 0 to |ordinals|
      invariant |pool| == k
      invariant forall i :: 0 <= i < k ==> pool[i].ordinal == ordinals[i] && pool[i] == ExactKey(cs, lookup.Members(), p)(ordinals[i])
    {
      var o := ordinals[k];
      assert o in ordinals;
      var distance := Hamming(p.semanticBits, cs[o].semanticBits);
      var matched := lookup.Get(o);
      pool := pool + [Candidate(if matched then 0 else 1, distance, o)];
    }
    AscendingSize(ordinals);
    forall i | 0 <= i < |pool| ensures pool[i].ordinal in ElementSet(ordinals) { assert ordinals[i] in ordinals; }
  }

  /** With nothing to drop, listing the pool is already the selection. */
  lemma WholePoolIsTopK(ordinals: seq<nat>, key: nat -> Candidate, cap: nat)
    requires Ascending(ordinals) && |ElementSet(ordinals)| <= cap
    ensures CappedTopK(ordinals, ElementSet(ordinals), key, cap)
  {
    AscendingSize(ordinals);
  }

  /** `exact_scored_ordinals`: the true top of the exact pool; `candidates` is narrowed in place. */
  method ExactSearch(env: Env, cs: seq<Capsule>, index: SegmentIndex, p: Probe, config: RetrievalConfig, candidates: BitSet, lookup: BitSet)
    returns (out: seq<nat>)
    requires index == IndexOf(env, cs) && |cs| <= U32_WRAP
    requires Usable(candidates, cs) && Usable(lookup, cs) && candidates.words != lookup.words
    requires lookup.Members() <= candidates.Members()
    modifies candidates.words
    ensures var pool := ExactPool(cs, old(candidates.Members()), old(lookup.Members()), p, config);
            CappedTopK(out, pool, ExactKey(cs, old(lookup.Members()), p), config.maxScored)
  {
    hide IndexOf, SemanticBucket, HammingDistance;
    ghost var gated, matched := candidates.Members(), lookup.Members();
    var semantic := BucketMembers(env, cs, index, p, candidates);
    var all := candidates.Ones();
    assert forall o :: o in all ==> o in candidates.Members();
    AddNear(cs, p, config, all, semantic);
    assert semantic.Members() == NearSet(cs, gated, p, config);
    var narrowed := lookup.Clone();
    narrowed.OrAssign(semantic);
    var n := narrowed.CountOnes();
    if n > 0 {
      candidates.AndAssign(narrowed);
    }
    ghost var pool := ExactPool(cs, gated, matched, p, config);
    assert candidates.Members() == pool;
    out := Capped(cs, p, config, candidates, lookup);
  }

  method Capped(cs: seq<Capsule>, p: Probe, config: RetrievalConfig, candidates: BitSet, lookup: BitSet) returns (out: seq<nat>)
    requires Usable(candidates, cs) && Usable(lookup, cs)
    ensures CappedTopK(out, candidates.Members(), ExactKey(cs, lookup.Members(), p), config.maxScored)
  {
    hide HammingDistance;
    var survivors := candidates.Ones();
    assert ElementSet(survivors) == candidates.Members();
    assert forall o :: o in survivors ==> o in candidates.Members();
    var count := candidates.CountOnes();
    if count > config.maxScored {
      var keyed := Keyed(cs, p, survivors, lookup);
      SelectIsTopK(keyed, config.maxScored, candidates.Members(), ExactKey(cs, lookup.Members(), p));
      out := Select(keyed, config.maxScored);
    } else {
      WholePoolIsTopK(survivors, ExactKey(cs, lookup.Members(), p), config.maxScored);
      out := survivors;
    }
  }

  /** Lookup hits survive the cap whenever they fit under it. */
  lemma LookupSurvives(out: seq<nat>, cs: seq<Capsule>, gated: set<nat>, lookup: set<nat>, p: Probe, config: RetrievalConfig)
    requires CappedTopK(out, ExactPool(cs, gated, lookup, p, config), ExactKey(cs, lookup, p), config.maxScored)
    requires lookup <= gated && |lookup| <= config.maxScored && forall o :: o in gated ==> o < |cs|
    ensures lookup <= ElementSet(out)
  {
    var pool := ExactPool(cs, gated, lookup, p, config);
    assert lookup <= pool;
    PreferredSurvive(out, pool, ExactKey(cs, lookup, p), config.maxScored, lookup);
  }

  /** The exact pool is empty only when nothing passed the gates. */
  lemma ExactPoolEmpty(cs: seq<Capsule>, gated: set<nat>, lookup: set<nat>, p: Probe, config: RetrievalConfig)
    requires lookup <= gated
    ensures ExactPool(cs, gated, lookup, p, config) <= gated
    ensures ExactPool(cs, gated, lookup, p, config) == {} <==> gated == {}
  {
    var narrowed := lookup + NearSet(cs, gated, p, config);
    assert gated * narrowed == narrowed;
  }

  // ---------------------------------------------------------------- the search in full

  /** Two terms count as the same when the first eight bytes of their digests are. */
  predicate SameTerm(env: Env, v: Bytes, w: Bytes) {
    env.hash(v)[..8] == env.hash(w)[..8]
  }

  lemma SameHash(env: Env, v: Bytes, w: Bytes)
    ensures StableHash(env, v) == StableHash(env, w) <==> SameTerm(env, v, w)
  {
    assert env.hash(v)[0..8] == env.hash(v)[..8] && env.hash(w)[0..8] == env.hash(w)[..8];
    EncodeDecode(env.hash(v)[0..8]);
    EncodeDecode(env.hash(w)[0..8]);
    hide FromLE, LE;
  }

  /** A capsule matches when it shares an entity with the probe's entities, or an anchor with its anchors. */
  lemma MatchMeans(env: Env, c: Capsule, p: Probe)
    ensures MatchesTerm(env, c, p) <==>
            || (exists v, e :: v in c.entities && e in p.entities && SameTerm(env, v, e))
            || (exists v, a :: v in c.anchors && a in p.anchors && SameTerm(env, v, a))
  {
    hide StableHash, SameTerm;
    forall v, w ensures StableHash(env, v) == StableHash(env, w) <==> SameTerm(env, v, w) { SameHash(env, v, w); }
    if v, e :| v in c.entities && e in p.entities && SameTerm(env, v, e) {
      assert Carries(env, c.entities, StableHash(env, e));
    }
    if v, a :| v in c.anchors && a in p.anchors && SameTerm(env, v, a) {
      assert Carries(env, c.anchors, StableHash(env, a));
    }
  }

  /** Near: the sixteen bits of the first band agree, or no more bits differ than the threshold allows. */
  lemma NearMeans(c: Capsule, p: Probe, config: RetrievalConfig)
    ensures Near(c, p, config) <==>
            || (forall i: nat :: i < 16 ==> !DiffersAt(c.semanticBits, p.semanticBits, i))
            || |Differing(p.semanticBits, c.semanticBits)| <= config.hammingThreshold
  {
    hide SemanticBucket, BandKey, HammingDistance, DiffersAt;
    BucketIsFirstBand(c.semanticBits);
    BucketIsFirstBand(p.semanticBits);
    BandKeysAgree(c.semanticBits, p.semanticBits, 0);
    DistanceCountsBits(p.semanticBits, c.semanticBits);
  }

  /**
   What the exact search takes: of the gated capsules those that match or are near, all of them when
   there are none; up to the cap, matches before others, then by fewer differing bits, then by ordinal.
   */
  lemma ExactTopMeans(cs: seq<Capsule>, gated: set<nat>, lookup: set<nat>, p: Probe, config: RetrievalConfig, out: seq<nat>)
    requires CappedTopK(out, ExactPool(cs, gated, lookup, p, config), ExactKey(cs, lookup, p), config.maxScored)
    requires lookup <= gated && forall o :: o in gated ==> o < |cs|
    ensures forall o: nat :: o in ExactPool(cs, gated, lookup, p, config) <==>
              o in gated && (o in lookup || Near(cs[o], p, config) || forall g :: g in gated ==> g !in lookup && !Near(cs[g], p, config))
    ensures forall a: nat, b: nat :: a in out && b in ExactPool(cs, gated, lookup, p, config) && b !in out && a < |cs| && b < |cs| ==>
              Before(if a in lookup then 0 else 1, |Differing(p.semanticBits, cs[a].semanticBits)|, a,
                     if b in lookup then 0 else 1, |Differing(p.semanticBits, cs[b].semanticBits)|, b)
  {
    hide Near, HammingDistance, Differing;
    var pool := ExactPool(cs, gated, lookup, p, config);
    forall a: nat, b: nat | a in out && b in pool && b !in out && a < |cs| && b < |cs|
      ensures Before(if a in lookup then 0 else 1, |Differing(p.semanticBits, cs[a].semanticBits)|, a,
                     if b in lookup then 0 else 1, |Differing(p.semanticBits, cs[b].semanticBits)|, b)
    {
      DistanceCountsBits(p.semanticBits, cs[a].semanticBits);
      DistanceCountsBits(p.semanticBits, cs[b].semanticBits);
    }
  }

  /** Lower class first, then fewer differing bits, then the smaller ordinal. */
  predicate Before(classA: nat, distanceA: nat, a: nat, classB: nat, distanceB: nat, b: nat) {
    classA < classB || (classA == classB && (distanceA < distanceB || (distanceA == distanceB && a <= b)))
  }
}
