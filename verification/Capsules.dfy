/** The values the engine stores, and the surroundings it takes as given. */
module Capsules {
  import opened Results
  import opened Sorting

  datatype RelationKind = Supports | Contradicts | Supersedes | DependsOn | DerivedFrom | DuplicateOf

  datatype RelationEdge = RelationEdge(from: u128, to: u128, kind: RelationKind, weight: i16)

  /** A 256-bit fingerprint as four words. */
  type SemanticBits = s: seq<u64> | |s| == 4 witness [0, 0, 0, 0]

  type Residual = s: seq<i8> | |s| == 64 witness seq(64, _ => 0)

  /** Strings are their UTF-8 bytes; an embedding lane is the 32-bit pattern of its float. */
  datatype Capsule = Capsule(
    id: u128,
    tenantId: u64,
    claim: Bytes,
    evidence: Bytes,
    sourceId: u64,
    sourceUri: Option<Bytes>,
    sourceHash: Digest,
    semanticBits: SemanticBits,
    residual: Residual,
    embedding: seq<u32>,
    anchors: seq<Bytes>,
    entities: seq<Bytes>,
    validFrom: i64,
    validUntil: Option<i64>,
    observedAt: i64,
    lastVerifiedAt: i64,
    contextMask: u128,
    policyMask: u128,
    trustLevel: byte,
    classification: byte,
    poisonRisk: byte,
    relationEdges: seq<RelationEdge>,
    contentHash: Digest)

  /** Library calls whose code is not modelled: the digest, the UTF-8 validator, and the
      two fingerprints a text is given when a capsule is built, and the sign bits of an embedding's
      projections. */
  datatype Env = Env(
    hash: Bytes -> Digest,
    utf8: Bytes -> bool,
    semanticBitsFor: Bytes -> SemanticBits,
    residualFor: Bytes -> Residual,
    signature: seq<u32> -> u64)

  datatype Segment = Segment(epoch: u64, tenantId: u64, capsules: seq<Capsule>)

  function Ids(cs: seq<Capsule>): (ids: seq<u128>)
    ensures |ids| == |cs|
  {
    seq(|cs|, i requires 0 <= i < |cs| => cs[i].id)
  }

  predicate DistinctIds(cs: seq<Capsule>) {
    forall i, j :: 0 <= i < j < |cs| ==> cs[i].id != cs[j].id
  }

  function IdSet(cs: seq<Capsule>): (s: set<u128>)
    ensures forall i :: 0 <= i < |cs| ==> cs[i].id in s
    ensures forall x :: x in s ==> exists i :: 0 <= i < |cs| && cs[i].id == x
  {
    var ids := Ids(cs);
    assert forall i :: 0 <= i < |cs| ==> cs[i].id == ids[i] && ids[i] in ids;
    set x | x in ids
  }

  function ContentMaterial(claim: Bytes, evidence: Bytes): Bytes {
    claim + [10] + evidence
  }

  function SourceMaterial(evidence: Bytes, uri: Option<Bytes>): Bytes {
    match uri
    case Some(u) => u
    case None => evidence
  }

  predicate HashesMatch(env: Env, c: Capsule) {
    && c.contentHash == env.hash(ContentMaterial(c.claim, c.evidence))
    && c.sourceHash == env.hash(SourceMaterial(c.evidence, c.sourceUri))
  }

  predicate EdgesOwned(c: Capsule) {
    forall e | e in c.relationEdges :: e.from == c.id
  }

  function FirstTenant(cs: seq<Capsule>): u64 {
    if cs == [] then 0 else cs[0].tenantId
  }

  /** `Segment::from_capsules`. */
  function FromCapsules(cs: seq<Capsule>, epoch: u64): Result<Segment> {
    if |IdSet(cs)| != |cs| then Err(DuplicateIds) else Ok(Segment(epoch, FirstTenant(cs), cs))
  }

  /** `index.by_id.len() != capsules.len()` detects exactly a repeated id. */
  lemma IdCountDetectsRepeats(cs: seq<Capsule>)
    ensures |IdSet(cs)| == |cs| <==> DistinctIds(cs)
  {
    SetSize(Ids(cs));
    if Distinct(Ids(cs)) {
      forall i, j | 0 <= i < j < |cs| ensures cs[i].id != cs[j].id {
        assert Ids(cs)[i] != Ids(cs)[j];
      }
    } else {
      var i, j :| 0 <= i < j < |cs| && Ids(cs)[i] == Ids(cs)[j];
      assert cs[i].id == cs[j].id;
    }
  }
}
