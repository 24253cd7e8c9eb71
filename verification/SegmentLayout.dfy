/** The on-disk layout of a segment, as `compiler.rs` writes it. */
module SegmentLayout {
  import opened Results
  import opened ByteCodec
  import opened Capsules
  import opened Sorting

  const MAGIC: Bytes := [0x4c, 0x35, 0x4d, 0x53, 0x45, 0x47, 0x30, 0x31]
  const INDEX_MARKER: Bytes := [0x4c, 0x35, 0x4d, 0x49, 0x44, 0x58, 0x30, 0x31]
  const VERSION: nat := 1
  const HEADER_LEN: nat := 128
  const HASH_OFFSET: nat := 72
  const HASH_LEN: nat := 32
  const EMBED_DIM_OFFSET: nat := 104
  const VECTOR_AREA_OFFSET: nat := 108
  const METADATA_LEN: nat := 340
  const RELATION_LEN: nat := 37
  const NONE_I64: i64 := 0x7fff_ffff_ffff_ffff
  const NONE_OFFSET: nat := 0xffff_ffff_ffff_ffff
  const NONE_LEN: nat := 0xffff_ffff

  function Zeros(n: nat): (b: Bytes)
    ensures |b| == n
  {
    seq(n, _ => 0)
  }

  function I64Bytes(n: i64): (b: Bytes)
    ensures |b| == 8
  {
    Pow256Values();
    LE(ToUnsigned(n, 8), 8)
  }

  // ---------------------------------------------------------------- payload areas

  function EntriesBytes(values: seq<Bytes>): Bytes {
    if values == [] then [] else LE(|values[0]|, 4) + values[0] + EntriesBytes(values[1..])
  }

  function ListBytes(values: seq<Bytes>): Bytes {
    LE(|values|, 4) + EntriesBytes(values)
  }

  function UriBytes(uri: Option<Bytes>): Bytes {
    match uri
    case Some(u) => u
    case None => []
  }

  function StringBlob(c: Capsule): Bytes {
    c.claim + c.evidence + UriBytes(c.sourceUri) + ListBytes(c.anchors) + ListBytes(c.entities)
  }

  function StringArea(cs: seq<Capsule>): Bytes {
    if cs == [] then [] else StringBlob(cs[0]) + StringArea(cs[1..])
  }

  function KindByte(kind: RelationKind): byte {
    match kind
    case Supports => 0
    case Contradicts => 1
    case Supersedes => 2
    case DependsOn => 3
    case DerivedFrom => 4
    case DuplicateOf => 5
  }

  function EdgeBytes(e: RelationEdge): (b: Bytes)
    ensures |b| == RELATION_LEN
  {
    Pow256Values();
    LE(e.from, 16) + LE(e.to, 16) + [KindByte(e.kind)] + LE(ToUnsigned(e.weight, 2), 2) + [0, 0]
  }

  function EdgesBytes(es: seq<RelationEdge>): (b: Bytes)
    ensures |b| == RELATION_LEN * |es|
  {
    if es == [] then [] else EdgeBytes(es[0]) + EdgesBytes(es[1..])
  }

  function RelationArea(cs: seq<Capsule>): Bytes {
    if cs == [] then [] else EdgesBytes(cs[0].relationEdges) + RelationArea(cs[1..])
  }

  function LaneBytes(lanes: seq<u32>): (b: Bytes)
    ensures |b| == 4 * |lanes|
  {
    if lanes == [] then [] else LE(lanes[0], 4) + LaneBytes(lanes[1..])
  }

  function VectorArea(cs: seq<Capsule>): Bytes {
    if cs == [] then [] else LaneBytes(cs[0].embedding) + VectorArea(cs[1..])
  }

  // ---------------------------------------------------------------- metadata

  function BlobRef(offset: nat, len: nat): (b: Bytes)
    ensures |b| == 12
  {
    LE(offset, 8) + LE(len, 4)
  }

  function UriRef(uri: Option<Bytes>, offset: nat): (b: Bytes)
    ensures |b| == 12
  {
    match uri
    case Some(u) => BlobRef(offset, |u|)
    case None => BlobRef(NONE_OFFSET, NONE_LEN)
  }

  function BitsBytes(s: SemanticBits): (b: Bytes)
    ensures |b| == 32
  {
    LE(s[0], 8) + LE(s[1], 8) + LE(s[2], 8) + LE(s[3], 8)
  }

  function ResidualBytes(r: Residual): (b: Bytes)
    ensures |b| == 64
  {
    Pow256Values();
    seq(64, i requires 0 <= i < 64 => ToUnsigned(r[i] as int, 1))
  }

  function UntilRaw(until: Option<i64>): i64 {
    match until
    case Some(t) => t
    case None => NONE_I64
  }

  function IdentityBlock(c: Capsule): (b: Bytes)
    ensures |b| == 160
  {
    LE(c.id, 16) + LE(c.tenantId, 8) + LE(c.sourceId, 8) + c.sourceHash
    + BitsBytes(c.semanticBits) + ResidualBytes(c.residual)
  }

  function GateBlock(c: Capsule): (b: Bytes)
    ensures |b| == 68
  {
    I64Bytes(c.validFrom) + I64Bytes(UntilRaw(c.validUntil)) + I64Bytes(c.observedAt) + I64Bytes(c.lastVerifiedAt)
    + LE(c.contextMask, 16) + LE(c.policyMask, 16) + [c.trustLevel, c.classification, c.poisonRisk, 0]
  }

  /** References into the shared areas, whose lengths were `s` and `r` before this capsule. */
  function RefBlock(c: Capsule, s: nat, r: nat): (b: Bytes)
    ensures |b| == 112
  {
    var s1 := s + |c.claim|;
    var s2 := s1 + |c.evidence|;
    var s3 := s2 + |UriBytes(c.sourceUri)|;
    var s4 := s3 + |ListBytes(c.anchors)|;
    BlobRef(s, |c.claim|) + BlobRef(s1, |c.evidence|) + UriRef(c.sourceUri, s2)
    + BlobRef(s3, |ListBytes(c.anchors)|) + BlobRef(s4, |ListBytes(c.entities)|)
    + (LE(r, 8) + LE(|c.relationEdges|, 4)) + c.contentHash + Zeros(8)
  }

  function Metadata(c: Capsule, s: nat, r: nat): (b: Bytes)
    ensures |b| == METADATA_LEN
  {
    IdentityBlock(c) + GateBlock(c) + RefBlock(c, s, r)
  }

  function MetadataTable(cs: seq<Capsule>, s: nat, r: nat): (b: Bytes)
    ensures |b| == METADATA_LEN * |cs|
  {
    if cs == [] then []
    else
      Metadata(cs[0], s, r)
      + MetadataTable(cs[1..], s + |StringBlob(cs[0])|, r + RELATION_LEN * |cs[0].relationEdges|)
  }

  // ---------------------------------------------------------------- whole segment

  datatype HeaderFields = HeaderFields(
    epoch: u64, tenantId: u64, capsuleCount: nat,
    stringOffset: nat, relationOffset: nat, indexOffset: nat,
    embeddingDim: nat, vectorOffset: nat)

  function HeaderFront(h: HeaderFields): (b: Bytes)
    ensures |b| == HASH_OFFSET
  {
    MAGIC + (LE(VERSION, 4) + LE(HEADER_LEN, 4)) + LE(h.epoch, 8) + LE(h.tenantId, 8)
    + LE(h.capsuleCount, 8) + LE(HEADER_LEN, 8)
    + (LE(h.stringOffset, 8) + LE(h.relationOffset, 8)) + LE(h.indexOffset, 8)
  }

  function HeaderBack(h: HeaderFields): (b: Bytes)
    ensures |b| == HEADER_LEN - HASH_OFFSET - HASH_LEN
  {
    LE(h.embeddingDim, 4) + LE(h.vectorOffset, 8) + Zeros(12)
  }

  function ById(a: Capsule, b: Capsule): bool {
    a.id <= b.id
  }

  function Sorted(cs: seq<Capsule>): seq<Capsule> {
    SortBy(cs, ById)
  }

  function MaxDim(cs: seq<Capsule>): (d: nat)
    ensures forall c :: c in cs ==> |c.embedding| <= d
    ensures d > 0 ==> exists c :: c in cs && |c.embedding| == d
  {
    if cs == [] then 0
    else
      var d := MaxDim(cs[1..]);
      if |cs[0].embedding| >= d then |cs[0].embedding| else d
  }

  predicate UniformDim(cs: seq<Capsule>) {
    forall a, b :: a in cs && b in cs ==> |a.embedding| == |b.embedding|
  }

  function Fields(cs: seq<Capsule>, epoch: u64): HeaderFields {
    var stringOffset := HEADER_LEN + METADATA_LEN * |cs|;
    var relationOffset := stringOffset + |StringArea(cs)|;
    var indexOffset := relationOffset + |RelationArea(cs)|;
    HeaderFields(epoch, FirstTenant(cs), |cs|, stringOffset, relationOffset, indexOffset, MaxDim(cs), indexOffset + 16)
  }

  /** Everything after the header. */
  function Body(cs: seq<Capsule>): Bytes {
    MetadataTable(cs, 0, 0) + StringArea(cs) + RelationArea(cs) + (INDEX_MARKER + LE(|cs|, 8)) + VectorArea(cs)
  }

  function Layout(cs: seq<Capsule>, epoch: u64, digest: Digest): Bytes {
    var h := Fields(cs, epoch);
    HeaderFront(h) + digest + HeaderBack(h) + Body(cs)
  }

  /** The digest of a segment, computed with the stored digest field read as zeros. */
  function SegmentHash(env: Env, bytes: Bytes): Digest {
    if |bytes| < HASH_OFFSET + HASH_LEN then env.hash(bytes)
    else env.hash(bytes[..HASH_OFFSET] + Zeros(HASH_LEN) + bytes[HASH_OFFSET + HASH_LEN..])
  }

  /** What `assemble_segment` returns. */
  function Assemble(env: Env, cs: seq<Capsule>, epoch: u64): Result<Bytes> {
    var sorted := Sorted(cs);
    if MaxDim(sorted) > 0 && exists c :: c in sorted && |c.embedding| != MaxDim(sorted) then Err(InconsistentEmbedding)
    else Ok(Layout(sorted, epoch, SegmentHash(env, Layout(sorted, epoch, Zeros(32)))))
  }
}
