/** The lookup structures of `index.rs`, and what each of them says about the capsules. */
module Index {
  import opened Results
  import opened Sorting
  import opened ByteCodec
  import opened Capsules
  import opened Lsh

  const U32_WRAP: nat := 0x1_0000_0000

  datatype GateRow = GateRow(
    tenantId: u64, contextMask: u128, policyMask: u128, validFrom: i64, validUntil: Option<i64>, trustLevel: byte)

  datatype EmbeddingLsh = EmbeddingLsh(dim: nat, tables: seq<map<nat, seq<nat>>>)

  datatype SegmentIndex = SegmentIndex(
    anchors: map<u64, seq<nat>>,
    entities: map<u64, seq<nat>>,
    semanticBuckets: map<nat, seq<nat>>,
    supersedesByTarget: map<u128, seq<nat>>,
    byId: map<u128, nat>,
    gateRows: seq<GateRow>,
    fingerprints: seq<SemanticBits>,
    supersedeTarget: seq<bool>,
    lsh: seq<map<nat, seq<nat>>>,
    tenantPostings: map<u64, seq<nat>>,
    embeddingLsh: Option<EmbeddingLsh>)

  // ---------------------------------------------------------------- postings

  /** `map.entry(key).or_default().push(value)`. */
  function Push<K>(m: map<K, seq<nat>>, key: K, value: nat): map<K, seq<nat>> {
    m[key := (if key in m then m[key] else []) + [value]]
  }

  function PushEach<K>(m: map<K, seq<nat>>, keys: seq<K>, value: nat): map<K, seq<nat>> {
    if keys == [] then m else Push(PushEach(m, keys[..|keys| - 1], value), keys[|keys| - 1], value)
  }

  /** The postings of ordinals by key; ordinals are stored in a type that wraps at `wrap`. */
  function Postings<K>(keys: seq<seq<K>>, wrap: nat): map<K, seq<nat>>
    requires wrap > 0
  {
    if keys == [] then map[]
    else PushEach(Postings(keys[..|keys| - 1], wrap), keys[|keys| - 1], (|keys| - 1) % wrap)
  }

  function Hits<K>(m: map<K, seq<nat>>, key: K): seq<nat> {
    if key in m then m[key] else []
  }

  lemma {:induction false} PushEachHits<K>(m: map<K, seq<nat>>, keys: seq<K>, value: nat, key: K)
    ensures forall x :: x in Hits(PushEach(m, keys, value), key) <==> x in Hits(m, key) || (x == value && key in keys)
  {
    if keys != [] {
      var front, last := keys[..|keys| - 1], keys[|keys| - 1];
      PushEachHits(m, front, value, key);
      assert keys == front + [last];
      assert key in keys <==> key in front || key == last;
      var before := PushEach(m, front, value);
      assert Hits(PushEach(m, keys, value), key) == if key == last then Hits(before, key) + [value] else Hits(before, key);
    }
  }

  /** As long as ordinals fit their type, a posting list holds exactly the ordinals carrying its key. */
  lemma {:induction false} PostingsHits<K>(keys: seq<seq<K>>, wrap: nat, key: K)
    requires wrap > 0 && |keys| <= wrap
    ensures forall x: nat :: x in Hits(Postings(keys, wrap), key) <==> x < |keys| && key in keys[x]
    decreases |keys|
  {
    if keys != [] {
      PostingsLast(keys, wrap);
      hide Postings, PushEach, Hits;
      var n := |keys| - 1;
      PostingsHits(keys[..n], wrap, key);
      PushEachHits(Postings(keys[..n], wrap), keys[n], n, key);
    }
  }

  lemma PostingsLast<K>(keys: seq<seq<K>>, wrap: nat)
    requires 0 < |keys| <= wrap
    ensures var n := |keys| - 1; Postings(keys, wrap) == PushEach(Postings(keys[..n], wrap), keys[n], n)
  {
    hide PushEach;
    SmallRemainder(|keys| - 1, wrap);
  }

  lemma SmallRemainder(n: nat, wrap: nat)
    requires n < wrap
    ensures n % wrap == n
  {
  }

  /** `sort_unstable` then `dedup` on one posting list, and on all. */
  function Tidy(list: seq<nat>): seq<nat> {
    Dedup(SortBy(list, LeqNat))
  }

  function TidyAll<K>(m: map<K, seq<nat>>): map<K, seq<nat>> {
    map k | k in m :: Tidy(m[k])
  }

  lemma TidyHits<K>(m: map<K, seq<nat>>, key: K)
    ensures forall x :: x in Hits(TidyAll(m), key) <==> x in Hits(m, key)
    ensures SortedBy(Hits(TidyAll(m), key), LeqNat) && Distinct(Hits(TidyAll(m), key))
  {
    if key in m {
      SortElements(m[key], LeqNat);
      SortSorts(m[key], LeqNat);
      DedupElements(SortBy(m[key], LeqNat));
      DedupSorted(SortBy(m[key], LeqNat), LeqNat);
    }
  }

  // ---------------------------------------------------------------- keys of a capsule

  function StableHash(env: Env, value: Bytes): u64 {
    Pow256Values();
    FromLE(env.hash(value)[0..8])
  }

  function HashEach(env: Env, values: seq<Bytes>): (r: seq<u64>)
    ensures |r| == |values|
  {
    seq(|values|, i requires 0 <= i < |values| => StableHash(env, values[i]))
  }

  function SupersedeTargets(es: seq<RelationEdge>): seq<u128> {
    if es == [] then []
    else SupersedeTargets(es[..|es| - 1]) + if es[|es| - 1].kind == Supersedes then [es[|es| - 1].to] else []
  }

  lemma {:induction false} TargetsAreEdges(es: seq<RelationEdge>, id: u128)
    ensures id in SupersedeTargets(es) <==> exists e :: e in es && e.kind == Supersedes && e.to == id
  {
    if es != [] {
      var front, last := es[..|es| - 1], es[|es| - 1];
      TargetsAreEdges(front, id);
      assert es == front + [last];
    }
  }

  function Row(c: Capsule): GateRow {
    GateRow(c.tenantId, c.contextMask, c.policyMask, c.validFrom, c.validUntil, c.trustLevel)
  }

  function AnchorKeys(env: Env, cs: seq<Capsule>): (r: seq<seq<u64>>)
    ensures |r| == |cs|
  {
    seq(|cs|, i requires 0 <= i < |cs| => HashEach(env, cs[i].anchors))
  }

  function EntityKeys(env: Env, cs: seq<Capsule>): (r: seq<seq<u64>>)
    ensures |r| == |cs|
  {
    seq(|cs|, i requires 0 <= i < |cs| => HashEach(env, cs[i].entities))
  }

  function BucketKeys(cs: seq<Capsule>): (r: seq<seq<nat>>)
    ensures |r| == |cs|
  {
    seq(|cs|, i requires 0 <= i < |cs| => [SemanticBucket(cs[i].semanticBits)])
  }

  function TargetKeys(cs: seq<Capsule>): (r: seq<seq<u128>>)
    ensures |r| == |cs|
  {
    seq(|cs|, i requires 0 <= i < |cs| => SupersedeTargets(cs[i].relationEdges))
  }

  function TenantKeys(cs: seq<Capsule>): (r: seq<seq<u64>>)
    ensures |r| == |cs|
  {
    seq(|cs|, i requires 0 <= i < |cs| => [cs[i].tenantId])
  }

  function BandKeys(fingerprints: seq<SemanticBits>, band: nat): (r: seq<seq<nat>>)
    requires band < BANDS
    ensures |r| == |fingerprints|
  {
    seq(|fingerprints|, i requires 0 <= i < |fingerprints| => [BandKey(fingerprints[i], band)])
  }

  function IdIndex(cs: seq<Capsule>): map<u128, nat> {
    if cs == [] then map[] else IdIndex(cs[..|cs| - 1])[cs[|cs| - 1].id := |cs| - 1]
  }

  lemma {:induction false} IdIndexFinds(cs: seq<Capsule>)
    requires DistinctIds(cs)
    ensures forall i :: 0 <= i < |cs| ==> cs[i].id in IdIndex(cs) && IdIndex(cs)[cs[i].id] == i
    ensures forall id :: id in IdIndex(cs) ==> IdIndex(cs)[id] < |cs| && cs[IdIndex(cs)[id]].id == id
  {
    if cs != [] {
      IdIndexFinds(cs[..|cs| - 1]);
    }
  }

  function Fingerprints(cs: seq<Capsule>): (r: seq<SemanticBits>)
    ensures |r| == |cs|
  {
    seq(|cs|, i requires 0 <= i < |cs| => cs[i].semanticBits)
  }

  function Rows(cs: seq<Capsule>): (r: seq<GateRow>)
    ensures |r| == |cs|
  {
    seq(|cs|, i requires 0 <= i < |cs| => Row(cs[i]))
  }

  function SemanticTables(fingerprints: seq<SemanticBits>): (r: seq<map<nat, seq<nat>>>)
    ensures |r| == BANDS
  {
    seq(BANDS, band requires 0 <= band < BANDS => Postings(BandKeys(fingerprints, band), U32_WRAP))
  }

  // ---------------------------------------------------------------- dense tables

  function SignatureBand(env: Env, embedding: seq<u32>, band: nat): nat {
    Slice16(env.signature(embedding), band)
  }

  function SignatureKeys(env: Env, cs: seq<Capsule>, dim: nat, band: nat): (r: seq<seq<nat>>)
    ensures |r| == |cs|
  {
    seq(|cs|, i requires 0 <= i < |cs| => if |cs[i].embedding| == dim then [SignatureBand(env, cs[i].embedding, band)] else [])
  }

  function FirstDim(cs: seq<Capsule>): nat {
    if cs == [] then 0 else if cs[0].embedding != [] then |cs[0].embedding| else FirstDim(cs[1..])
  }

  function DenseTables(env: Env, cs: seq<Capsule>, dim: nat): (r: seq<map<nat, seq<nat>>>)
    ensures |r| == SIGNATURE_BANDS
  {
    seq(SIGNATURE_BANDS, band requires 0 <= band < SIGNATURE_BANDS => Postings(SignatureKeys(env, cs, dim, band), U32_WRAP))
  }

  function DenseIndex(env: Env, cs: seq<Capsule>): Option<EmbeddingLsh> {
    if FirstDim(cs) == 0 then None
    else Some(EmbeddingLsh(FirstDim(cs), DenseTables(env, cs, FirstDim(cs))))
  }

  /** The capsules a dense lookup for `query` visits. */
  predicate DenseHit(env: Env, cs: seq<Capsule>, query: seq<u32>, o: nat)
    requires o < |cs|
  {
    FirstDim(cs) > 0 && |query| == FirstDim(cs) && |cs[o].embedding| == FirstDim(cs)
    && exists band :: 0 <= band < SIGNATURE_BANDS && SignatureBand(env, cs[o].embedding, band) == SignatureBand(env, query, band)
  }

  // ---------------------------------------------------------------- the whole index

  function SupersedeFlags(cs: seq<Capsule>): (r: seq<bool>)
    ensures |r| == |cs|
  {
    var targets := TidyAll(Postings(TargetKeys(cs), 0x1_0000_0000_0000_0000));
    var byId := IdIndex(cs);
    seq(|cs|, i requires 0 <= i < |cs| => exists t :: t in targets && t in byId && byId[t] == i)
  }

  /** What `SegmentIndex::build` returns. */
  function IndexOf(env: Env, cs: seq<Capsule>): SegmentIndex {
    SegmentIndex(
      TidyAll(Postings(AnchorKeys(env, cs), 0x1_0000_0000_0000_0000)),
      TidyAll(Postings(EntityKeys(env, cs), 0x1_0000_0000_0000_0000)),
      TidyAll(Postings(BucketKeys(cs), 0x1_0000_0000_0000_0000)),
      TidyAll(Postings(TargetKeys(cs), 0x1_0000_0000_0000_0000)),
      IdIndex(cs), Rows(cs), Fingerprints(cs), SupersedeFlags(cs), SemanticTables(Fingerprints(cs)),
      Postings(TenantKeys(cs), U32_WRAP), DenseIndex(env, cs))
  }

  method AddEach<K>(m: map<K, seq<nat>>, keys: seq<K>, value: nat) returns (grown: map<K, seq<nat>>)
    ensures grown == PushEach(m, keys, value)
  {
    grown := m;
    for i := 0 to |keys|
      invariant grown == PushEach(m, keys[..i], value)
    {
      assert keys[..i + 1][..i] == keys[..i];
      grown := Push(grown, keys[i], value);
    }
    assert keys[..|keys|] == keys;
  }

  method BuildPostings<K>(keys: seq<seq<K>>, wrap: nat) returns (m: map<K, seq<nat>>)
    requires wrap > 0
    ensures m == Postings(keys, wrap)
  {
    m := map[];
    for ordinal := 0 to |keys|
      invariant m == Postings(keys[..ordinal], wrap)
    {
      assert keys[..ordinal + 1][..ordinal] == keys[..ordinal];
      m := AddEach(m, keys[ordinal], ordinal % wrap);
    }
    assert keys[..|keys|] == keys;
  }

  method CollectTargets(es: seq<RelationEdge>) returns (targets: seq<u128>)
    ensures targets == SupersedeTargets(es)
  {
    targets := [];
    for i := 0 to |es|
      invariant targets == SupersedeTargets(es[..i])
    {
      assert es[..i + 1][..i] == es[..i];
      if es[i].kind == Supersedes { targets := targets + [es[i].to]; }
    }
    assert es[..|es|] == es;
  }

  /** The flag loop, over the target ids in whatever order the hash map yields them. */
  method MarkTargets(n: nat, targets: map<u128, seq<nat>>, byId: map<u128, nat>) returns (flags: seq<bool>)
    ensures |flags| == n
    ensures forall i :: 0 <= i < n ==> (flags[i] <==> exists t :: t in targets && t in byId && byId[t] == i)
  {
    flags := seq(n, _ => false);
    var left := targets.Keys;
    while left != {}
      invariant |flags| == n && left <= targets.Keys
      invariant forall i :: 0 <= i < n ==> (flags[i] <==> exists t :: t in targets && t !in left && t in byId && byId[t] == i)
      decreases left
    {
      var t :| t in left;
      if t in byId && byId[t] < n {
        flags := flags[byId[t] := true];
      }
      left := left - {t};
    }
  }

  /** `SegmentIndex::build`: one pass over the capsules, then the tidying and flag passes. */
  method Build(env: Env, cs: seq<Capsule>) returns (index: SegmentIndex)
    ensures index == IndexOf(env, cs)
  {
    hide Tidy, Slice16, Postings, AnchorKeys, EntityKeys, BucketKeys, TargetKeys, TenantKeys;
    var usizeWrap := 0x1_0000_0000_0000_0000;
    var anchors: map<u64, seq<nat>>, entities: map<u64, seq<nat>>, buckets: map<nat, seq<nat>> := map[], map[], map[];
    var targets: map<u128, seq<nat>>, tenants: map<u64, seq<nat>>, byId: map<u128, nat> := map[], map[], map[];
    NoPostings(AnchorKeys(env, cs), usizeWrap);
    NoPostings(EntityKeys(env, cs), usizeWrap);
    NoPostings(BucketKeys(cs), usizeWrap);
    NoPostings(TargetKeys(cs), usizeWrap);
    NoPostings(TenantKeys(cs), U32_WRAP);
    for ordinal := 0 to |cs|
      invariant anchors == Postings(AnchorKeys(env, cs)[..ordinal], usizeWrap)
      invariant entities == Postings(EntityKeys(env, cs)[..ordinal], usizeWrap)
      invariant buckets == Postings(BucketKeys(cs)[..ordinal], usizeWrap)
      invariant targets == Postings(TargetKeys(cs)[..ordinal], usizeWrap)
      invariant tenants == Postings(TenantKeys(cs)[..ordinal], U32_WRAP)
      invariant byId == IdIndex(cs[..ordinal])
    {
      var c := cs[ordinal];
      assert cs[..ordinal + 1][..ordinal] == cs[..ordinal];
      byId := byId[c.id := ordinal];
      KeysOf(env, cs, ordinal);
      NextPosting(AnchorKeys(env, cs), ordinal, usizeWrap);
      anchors := AddEach(anchors, HashEach(env, c.anchors), ordinal % usizeWrap);
      NextPosting(EntityKeys(env, cs), ordinal, usizeWrap);
      entities := AddEach(entities, HashEach(env, c.entities), ordinal % usizeWrap);
      NextPosting(BucketKeys(cs), ordinal, usizeWrap);
      buckets := AddEach(buckets, [SemanticBucket(c.semanticBits)], ordinal % usizeWrap);
      NextPosting(TargetKeys(cs), ordinal, usizeWrap);
      var superseded := CollectTargets(c.relationEdges);
      targets := AddEach(targets, superseded, ordinal % usizeWrap);
      NextPosting(TenantKeys(cs), ordinal, U32_WRAP);
      tenants := AddEach(tenants, [c.tenantId], ordinal % U32_WRAP);
    }
    WholePrefix(AnchorKeys(env, cs));
    WholePrefix(EntityKeys(env, cs));
    WholePrefix(BucketKeys(cs));
    WholePrefix(TargetKeys(cs));
    WholePrefix(TenantKeys(cs));
    WholePrefix(cs);
    var flags := MarkTargets(|cs|, TidyAll(targets), byId);
    assert flags == SupersedeFlags(cs);
    var lsh := BuildSemantic(Fingerprints(cs));
    var dense := BuildDense(env, cs);
    index := SegmentIndex(TidyAll(anchors), TidyAll(entities), TidyAll(buckets), TidyAll(targets), byId,
                          Rows(cs), Fingerprints(cs), flags, lsh, tenants, dense);
  }

  lemma NextPosting<K>(keys: seq<seq<K>>, ordinal: nat, wrap: nat)
    requires ordinal < |keys| && wrap > 0
    ensures Postings(keys[..ordinal + 1], wrap) == PushEach(Postings(keys[..ordinal], wrap), keys[ordinal], ordinal % wrap)
  {
    assert keys[..ordinal + 1][..ordinal] == keys[..ordinal];
  }

  lemma NoPostings<K>(keys: seq<seq<K>>, wrap: nat)
    requires wrap > 0
    ensures Postings(keys[..0], wrap) == map[]
  {
  }

  lemma KeysOf(env: Env, cs: seq<Capsule>, o: nat)
    requires o < |cs|
    ensures AnchorKeys(env, cs)[o] == HashEach(env, cs[o].anchors) && EntityKeys(env, cs)[o] == HashEach(env, cs[o].entities)
    ensures BucketKeys(cs)[o] == [SemanticBucket(cs[o].semanticBits)] && TenantKeys(cs)[o] == [cs[o].tenantId]
    ensures TargetKeys(cs)[o] == SupersedeTargets(cs[o].relationEdges)
  {
  }

  lemma WholePrefix<T>(xs: seq<T>)
    ensures xs[..|xs|] == xs
  {
  }

  method BuildSemantic(fingerprints: seq<SemanticBits>) returns (tables: seq<map<nat, seq<nat>>>)
    ensures tables == SemanticTables(fingerprints)
  {
    tables := [];
    for band := 0 to BANDS
      invariant tables == SemanticTables(fingerprints)[..band]
    {
      var table := BuildPostings(BandKeys(fingerprints, band), U32_WRAP);
      tables := tables + [table];
    }
  }

  method BuildDense(env: Env, cs: seq<Capsule>) returns (r: Option<EmbeddingLsh>)
    ensures r == DenseIndex(env, cs)
  {
    var dim := FirstDim(cs);
    if dim == 0 { return None; }
    var tables: seq<map<nat, seq<nat>>> := [];
    for band := 0 to SIGNATURE_BANDS
      invariant tables == DenseTables(env, cs, dim)[..band]
    {
      var table := BuildPostings(SignatureKeys(env, cs, dim, band), U32_WRAP);
      tables := tables + [table];
    }
    WholePrefix(DenseTables(env, cs, dim));
    assert tables == DenseTables(env, cs, dim);
    r := Some(EmbeddingLsh(dim, tables));
  }

  // ---------------------------------------------------------------- what the index means

  /** `o` is superseded by some capsule of the segment satisfying `visible`. */
  ghost predicate SupersededBy(cs: seq<Capsule>, o: nat, j: nat)
    requires o < |cs| && j < |cs|
  {
    exists e :: e in cs[j].relationEdges && e.kind == Supersedes && e.to == cs[o].id
  }

  lemma SupersederHits(env: Env, cs: seq<Capsule>, o: nat)
    requires o < |cs| <= 0x1_0000_0000_0000_0000
    ensures forall j: nat :: j in Hits(IndexOf(env, cs).supersedesByTarget, cs[o].id) <==> j < |cs| && SupersededBy(cs, o, j)
  {
    hide Tidy;
    PostingsHits(TargetKeys(cs), 0x1_0000_0000_0000_0000, cs[o].id);
    TidyHits(Postings(TargetKeys(cs), 0x1_0000_0000_0000_0000), cs[o].id);
    forall j: nat | j < |cs| ensures cs[o].id in TargetKeys(cs)[j] <==> SupersededBy(cs, o, j) {
      TargetsAreEdges(cs[j].relationEdges, cs[o].id);
    }
  }

  /** A flag is set exactly where some capsule of the segment supersedes. */
  lemma FlagsMeanSuperseded(env: Env, cs: seq<Capsule>, o: nat)
    requires o < |cs| <= 0x1_0000_0000_0000_0000 && DistinctIds(cs)
    ensures IndexOf(env, cs).supersedeTarget[o] <==> exists j: nat :: j < |cs| && SupersededBy(cs, o, j)
  {
    hide Tidy;
    var raw := Postings(TargetKeys(cs), 0x1_0000_0000_0000_0000);
    var targets := TidyAll(raw);
    IdIndexFinds(cs);
    SupersederHits(env, cs, o);
    NonEmptyPostings(TargetKeys(cs), 0x1_0000_0000_0000_0000, cs[o].id);
    PostingsHits(TargetKeys(cs), 0x1_0000_0000_0000_0000, cs[o].id);
    TidyHits(raw, cs[o].id);
    if IndexOf(env, cs).supersedeTarget[o] {
      var t :| t in targets && t in IdIndex(cs) && IdIndex(cs)[t] == o;
      assert t == cs[o].id;
      assert raw[t] != [];
      assert raw[t][0] in Hits(raw, t);
    }
    if exists j: nat :: j < |cs| && SupersededBy(cs, o, j) {
      var j: nat :| j < |cs| && SupersededBy(cs, o, j);
      assert j in Hits(targets, cs[o].id);
      assert cs[o].id in targets && cs[o].id in IdIndex(cs) && IdIndex(cs)[cs[o].id] == o;
    }
  }

  lemma {:induction false} NonEmptyPostings<K>(keys: seq<seq<K>>, wrap: nat, key: K)
    requires wrap > 0
    ensures key in Postings(keys, wrap) ==> Postings(keys, wrap)[key] != []
    decreases |keys|
  {
    if keys != [] {
      NonEmptyPostings(keys[..|keys| - 1], wrap, key);
      NonEmptyPush(Postings(keys[..|keys| - 1], wrap), keys[|keys| - 1], (|keys| - 1) % wrap, key);
    }
  }

  lemma {:induction false} NonEmptyPush<K>(m: map<K, seq<nat>>, keys: seq<K>, value: nat, key: K)
    requires key in m ==> m[key] != []
    ensures key in PushEach(m, keys, value) ==> PushEach(m, keys, value)[key] != []
  {
    if keys != [] { NonEmptyPush(m, keys[..|keys| - 1], value, key); }
  }

  lemma TenantHits(env: Env, cs: seq<Capsule>, tenant: u64)
    requires |cs| <= U32_WRAP
    ensures forall o: nat :: o in Hits(IndexOf(env, cs).tenantPostings, tenant) <==> o < |cs| && cs[o].tenantId == tenant
  {
    PostingsHits(TenantKeys(cs), U32_WRAP, tenant);
  }

  lemma BucketHits(env: Env, cs: seq<Capsule>, bucket: nat)
    requires |cs| <= 0x1_0000_0000_0000_0000
    ensures forall o: nat :: o in Hits(IndexOf(env, cs).semanticBuckets, bucket) <==> o < |cs| && SemanticBucket(cs[o].semanticBits) == bucket
  {
    hide Tidy, SemanticBucket;
    PostingsHits(BucketKeys(cs), 0x1_0000_0000_0000_0000, bucket);
    TidyHits(Postings(BucketKeys(cs), 0x1_0000_0000_0000_0000), bucket);
  }

  predicate Carries(env: Env, values: seq<Bytes>, key: u64) {
    exists v :: v in values && StableHash(env, v) == key
  }

  lemma HashEachCarries(env: Env, values: seq<Bytes>, key: u64)
    ensures key in HashEach(env, values) <==> Carries(env, values, key)
  {
    hide StableHash;
    if key in HashEach(env, values) {
      var i :| 0 <= i < |values| && HashEach(env, values)[i] == key;
      assert values[i] in values;
    }
    if Carries(env, values, key) {
      var v :| v in values && StableHash(env, v) == key;
      var i :| 0 <= i < |values| && values[i] == v;
      assert HashEach(env, values)[i] == key;
    }
  }

  lemma TermHits(env: Env, cs: seq<Capsule>, key: u64)
    requires |cs| <= 0x1_0000_0000_0000_0000
    ensures forall o: nat :: o in Hits(IndexOf(env, cs).anchors, key) <==> o < |cs| && Carries(env, cs[o].anchors, key)
    ensures forall o: nat :: o in Hits(IndexOf(env, cs).entities, key) <==> o < |cs| && Carries(env, cs[o].entities, key)
  {
    hide Tidy, Carries, HashEach;
    PostingsHits(AnchorKeys(env, cs), 0x1_0000_0000_0000_0000, key);
    TidyHits(Postings(AnchorKeys(env, cs), 0x1_0000_0000_0000_0000), key);
    PostingsHits(EntityKeys(env, cs), 0x1_0000_0000_0000_0000, key);
    TidyHits(Postings(EntityKeys(env, cs), 0x1_0000_0000_0000_0000), key);
    forall o: nat | o < |cs|
      ensures key in AnchorKeys(env, cs)[o] <==> Carries(env, cs[o].anchors, key)
      ensures key in EntityKeys(env, cs)[o] <==> Carries(env, cs[o].entities, key)
    {
      HashEachCarries(env, cs[o].anchors, key);
      HashEachCarries(env, cs[o].entities, key);
    }
  }

  lemma BandHits(env: Env, cs: seq<Capsule>, band: nat, key: nat)
    requires band < BANDS && |cs| <= U32_WRAP
    ensures forall o: nat :: o in Hits(IndexOf(env, cs).lsh[band], key) <==> o < |cs| && BandKey(cs[o].semanticBits, band) == key
  {
    hide BandKey;
    PostingsHits(BandKeys(Fingerprints(cs), band), U32_WRAP, key);
  }

  lemma SignatureTable(env: Env, cs: seq<Capsule>, band: nat)
    requires band < SIGNATURE_BANDS && IndexOf(env, cs).embeddingLsh.Some?
    ensures IndexOf(env, cs).embeddingLsh.value.tables[band] == Postings(SignatureKeys(env, cs, FirstDim(cs), band), U32_WRAP)
  {
    hide Postings, SignatureKeys, TidyAll, IdIndex, Rows, Fingerprints, SupersedeFlags, SemanticTables;
  }

  lemma SignatureHits(env: Env, cs: seq<Capsule>, band: nat, key: nat)
    requires band < SIGNATURE_BANDS && |cs| <= U32_WRAP && IndexOf(env, cs).embeddingLsh.Some?
    ensures forall o: nat :: o in Hits(IndexOf(env, cs).embeddingLsh.value.tables[band], key)
                             <==> o < |cs| && |cs[o].embedding| == FirstDim(cs) && SignatureBand(env, cs[o].embedding, band) == key
  {
    SignatureTable(env, cs, band);
    hide SignatureBand, IndexOf, Postings;
    PostingsHits(SignatureKeys(env, cs, FirstDim(cs), band), U32_WRAP, key);
  }
}
