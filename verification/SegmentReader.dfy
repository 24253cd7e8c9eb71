/**
 The defensive parser of `segment.rs`. Every sum the code leaves unchecked is typed `usize`
 here, so its range is a proof obligation; so is every index into the untrusted bytes.
 */
module SegmentReader {
  import opened Results
  import opened ByteCodec
  import opened Capsules
  import opened SegmentLayout

  function Ensure(ok: bool, error: Error): (r: Result<()>)
    ensures r.Ok? <==> ok
  {
    if ok then Ok(()) else Err(error)
  }

  /** `checked_range`. */
  predicate InRange(bytes: Bytes, offset: usize, len: usize) {
    match CheckedAdd(offset, len)
    case Some(end) => end <= |bytes|
    case None => false
  }

  /** `checked_range_with_limit`. */
  predicate WithinLimit(offset: usize, len: usize, limit: usize) {
    match CheckedAdd(offset, len)
    case Some(end) => end <= limit
    case None => false
  }

  function U32At(bytes: Bytes, offset: nat): u32
    requires offset + 4 <= |bytes|
  {
    Pow256Values();
    FromLE(bytes[offset..offset + 4])
  }

  function U64At(bytes: Bytes, offset: nat): u64
    requires offset + 8 <= |bytes|
  {
    Pow256Values();
    FromLE(bytes[offset..offset + 8])
  }

  function U128At(bytes: Bytes, offset: nat): u128
    requires offset + 16 <= |bytes|
  {
    Pow256Values();
    FromLE(bytes[offset..offset + 16])
  }

  function I64At(bytes: Bytes, offset: nat): i64
    requires offset + 8 <= |bytes|
  {
    Pow256Values();
    ToSigned(FromLE(bytes[offset..offset + 8]), 8)
  }

  function I16At(bytes: Bytes, offset: nat): i16
    requires offset + 2 <= |bytes|
  {
    Pow256Values();
    ToSigned(FromLE(bytes[offset..offset + 2]), 2)
  }

  function ReadU32(bytes: Bytes, offset: usize): Result<u32> {
    if InRange(bytes, offset, 4) then Ok(U32At(bytes, offset)) else Err(OutOfBounds)
  }

  // ---------------------------------------------------------------- strings

  function ReadStringAt(env: Env, bytes: Bytes, stringBase: usize, stringEnd: usize, offset: usize, len: usize): Result<Bytes> {
    match CheckedAdd(stringBase, offset)
    case None => Err(OffsetOverflow)
    case Some(start) =>
      var _ :- Ensure(InRange(bytes, start, len), OutOfBounds);
      var _ :- Ensure(WithinLimit(start, len, stringEnd), SectionOutOfBounds);
      var _ :- Ensure(env.utf8(bytes[start..start + len]), InvalidUtf8);
      Ok(bytes[start..start + len])
  }

  function ReadString(env: Env, bytes: Bytes, stringBase: usize, stringEnd: usize, at: usize): Result<Bytes>
    requires at + 12 <= |bytes|
  {
    ReadStringAt(env, bytes, stringBase, stringEnd, U64At(bytes, at), U32At(bytes, at + 8))
  }

  function ReadOptionalString(env: Env, bytes: Bytes, stringBase: usize, stringEnd: usize, at: usize): Result<Option<Bytes>>
    requires at + 12 <= |bytes|
  {
    if U64At(bytes, at) == NONE_OFFSET && U32At(bytes, at + 8) == NONE_LEN then Ok(None)
    else
      var s :- ReadString(env, bytes, stringBase, stringEnd, at);
      Ok(Some(s))
  }

  /** The entry loop of `read_string_list` from `cursor` on; also returns the final cursor. */
  function ReadEntries(env: Env, bytes: Bytes, cursor: usize, end: usize, count: nat): (r: Result<(seq<Bytes>, usize)>)
    requires cursor <= |bytes| < ISIZE_LIMIT
    ensures r.Ok? ==> cursor <= r.value.1 <= |bytes| && |r.value.0| == count
    decreases count
  {
    if count == 0 then Ok(([], cursor))
    else
      var _ :- Ensure(cursor < end, TruncatedList);
      var len :- ReadU32(bytes, cursor);
      var body: usize := cursor + 4;
      var _ :- Ensure(InRange(bytes, body, len), OutOfBounds);
      var _ :- Ensure(env.utf8(bytes[body..body + len]), InvalidUtf8);
      var next: usize := body + len;
      var (rest, last) :- ReadEntries(env, bytes, next, end, count - 1);
      Ok(([bytes[body..body + len]] + rest, last))
  }

  function ReadStringList(env: Env, bytes: Bytes, stringBase: usize, stringEnd: usize, at: usize): Result<seq<Bytes>>
    requires at + 12 <= |bytes| < ISIZE_LIMIT
  {
    match CheckedAdd(stringBase, U64At(bytes, at))
    case None => Err(OffsetOverflow)
    case Some(start) =>
      var blobLen := U32At(bytes, at + 8);
      var _ :- Ensure(InRange(bytes, start, blobLen), OutOfBounds);
      var _ :- Ensure(WithinLimit(start, blobLen, stringEnd), SectionOutOfBounds);
      var end: usize := start + blobLen;
      var count :- ReadU32(bytes, start);
      var cursor: usize := start + 4;
      var (values, last) :- ReadEntries(env, bytes, cursor, end, count);
      var _ :- Ensure(last == end, TrailingBytes);
      Ok(values)
  }

  /** The loop of `read_string_list`, with the capacity it asks the allocator for. */
  method LoadStringList(env: Env, bytes: Bytes, stringBase: usize, stringEnd: usize, at: usize)
    returns (r: Result<seq<Bytes>>, capacityHint: nat)
    requires at + 12 <= |bytes| < ISIZE_LIMIT
    ensures r == ReadStringList(env, bytes, stringBase, stringEnd, at)
    ensures 4 * capacityHint <= |bytes|
  {
    hide ReadEntries, U32At, U64At;
    capacityHint := 0;
    var start;
    match CheckedAdd(stringBase, U64At(bytes, at)) {
      case None => return Err(OffsetOverflow), capacityHint;
      case Some(s) => start := s;
    }
    var blobLen := U32At(bytes, at + 8);
    if !InRange(bytes, start, blobLen) { return Err(OutOfBounds), capacityHint; }
    if !WithinLimit(start, blobLen, stringEnd) { return Err(SectionOutOfBounds), capacityHint; }
    var end: usize := start + blobLen;
    var cursor: usize := start;
    if !InRange(bytes, cursor, 4) { return Err(OutOfBounds), capacityHint; }
    var count := U32At(bytes, cursor);
    cursor := cursor + 4;
    var maxPossible := if end < cursor then 0 else (end - cursor) / 4;
    capacityHint := if count < maxPossible then count else maxPossible;
    var loaded := LoadEntries(env, bytes, cursor, end, count);
    if loaded.Err? { return Err(loaded.error), capacityHint; }
    if loaded.value.1 != end { return Err(TrailingBytes), capacityHint; }
    return Ok(loaded.value.0), capacityHint;
  }

  /** A readable entry comes first in what is read. */
  lemma EntryAccepted(env: Env, bytes: Bytes, cursor: usize, end: usize, count: nat)
    requires cursor <= |bytes| < ISIZE_LIMIT && count > 0 && cursor < end && InRange(bytes, cursor, 4)
    requires InRange(bytes, cursor + 4, U32At(bytes, cursor))
    requires env.utf8(bytes[cursor + 4..cursor + 4 + U32At(bytes, cursor)])
    ensures var next := cursor + 4 + U32At(bytes, cursor);
            ReadEntries(env, bytes, cursor, end, count)
            == Continued([bytes[cursor + 4..next]], ReadEntries(env, bytes, next, end, count - 1))
  {
    hide U32At;
  }

  /** A readable entry moves from what is to be read to what has been. */
  lemma OneEntry(env: Env, bytes: Bytes, cursor: usize, end: usize, count: nat, values: seq<Bytes>)
    requires cursor <= |bytes| < ISIZE_LIMIT && count > 0 && cursor < end && InRange(bytes, cursor, 4)
    requires InRange(bytes, cursor + 4, U32At(bytes, cursor))
    requires env.utf8(bytes[cursor + 4..cursor + 4 + U32At(bytes, cursor)])
    ensures var next := cursor + 4 + U32At(bytes, cursor);
            Continued(values, ReadEntries(env, bytes, cursor, end, count))
            == Continued(values + [bytes[cursor + 4..next]], ReadEntries(env, bytes, next, end, count - 1))
  {
    hide U32At, ReadEntries;
    EntryAccepted(env, bytes, cursor, end, count);
    var next := cursor + 4 + U32At(bytes, cursor);
    var text, tail := bytes[cursor + 4..next], ReadEntries(env, bytes, next, end, count - 1);
    if tail.Ok? {
      assert values + ([text] + tail.value.0) == (values + [text]) + tail.value.0;
    }
  }

  lemma NoEntries(env: Env, bytes: Bytes, cursor: usize, end: usize)
    requires cursor <= |bytes| < ISIZE_LIMIT
    ensures ReadEntries(env, bytes, cursor, end, 0) == Ok(([], cursor))
  {
  }

  /** The checks on an entry, each with its own error. */
  lemma EntryRefused(env: Env, bytes: Bytes, cursor: usize, end: usize, count: nat)
    requires cursor <= |bytes| < ISIZE_LIMIT && count > 0
    ensures var r := ReadEntries(env, bytes, cursor, end, count);
            if cursor >= end then r == Err(TruncatedList)
            else if !InRange(bytes, cursor, 4) || !InRange(bytes, cursor + 4, U32At(bytes, cursor)) then r == Err(OutOfBounds)
            else !env.utf8(bytes[cursor + 4..cursor + 4 + U32At(bytes, cursor)]) ==> r == Err(InvalidUtf8)
  {
    hide U32At;
  }

  method LoadEntries(env: Env, bytes: Bytes, start: usize, end: usize, count: nat) returns (r: Result<(seq<Bytes>, usize)>)
    requires start <= |bytes| < ISIZE_LIMIT
    ensures r == ReadEntries(env, bytes, start, end, count)
  {
    hide U32At, ReadEntries;
    var values: seq<Bytes> := [];
    var cursor: usize := start;
    ghost var whole := ReadEntries(env, bytes, cursor, end, count);
    assert whole.Ok? ==> [] + whole.value.0 == whole.value.0;
    for i := 0 to count
      invariant cursor <= |bytes| && |values| == i
      invariant whole == Continued(values, ReadEntries(env, bytes, cursor, end, count - i))
    {
      EntryRefused(env, bytes, cursor, end, count - i);
      if cursor >= end { return Err(TruncatedList); }
      if !InRange(bytes, cursor, 4) { return Err(OutOfBounds); }
      var len := U32At(bytes, cursor);
      var body: usize := cursor + 4;
      if !InRange(bytes, body, len) { return Err(OutOfBounds); }
      var text := bytes[body..body + len];
      if !env.utf8(text) { return Err(InvalidUtf8); }
      OneEntry(env, bytes, cursor, end, count - i, values);
      values := values + [text];
      cursor := body + len;
    }
    assert ReadEntries(env, bytes, cursor, end, 0) == Ok(([], cursor)) by { NoEntries(env, bytes, cursor, end); }
    assert values + [] == values;
    return Ok((values, cursor));
  }

  ghost function Continued(done: seq<Bytes>, rest: Result<(seq<Bytes>, usize)>): Result<(seq<Bytes>, usize)> {
    match rest
    case Ok((values, last)) => Ok((done + values, last))
    case Err(e) => Err(e)
  }

  // ---------------------------------------------------------------- relations

  function KindOf(b: byte): Result<RelationKind> {
    match b
    case 0 => Ok(Supports)
    case 1 => Ok(Contradicts)
    case 2 => Ok(Supersedes)
    case 3 => Ok(DependsOn)
    case 4 => Ok(DerivedFrom)
    case 5 => Ok(DuplicateOf)
    case _ => Err(BadRelationKind)
  }

  function ReadRelation(bytes: Bytes, offset: usize): Result<RelationEdge> {
    var _ :- Ensure(InRange(bytes, offset, RELATION_LEN), OutOfBounds);
    var kind :- KindOf(bytes[offset + 32]);
    Ok(RelationEdge(U128At(bytes, offset), U128At(bytes, offset + 16), kind, I16At(bytes, offset + 33)))
  }

  /** `count` edges of `owner` from `offset` on. */
  function ReadEdges(bytes: Bytes, offset: usize, count: nat, owner: u128): Result<seq<RelationEdge>>
    requires offset + RELATION_LEN * count <= |bytes| < ISIZE_LIMIT
    decreases count
  {
    if count == 0 then Ok([])
    else
      var edge :- ReadRelation(bytes, offset);
      var _ :- Ensure(edge.from == owner, ForeignRelation);
      var next: usize := offset + RELATION_LEN;
      var rest :- ReadEdges(bytes, next, count - 1, owner);
      Ok([edge] + rest)
  }

  function ReadRelations(bytes: Bytes, relationBase: usize, relationEnd: usize, offset: usize, count: u32, owner: u128): Result<seq<RelationEdge>>
    requires relationEnd <= |bytes| < ISIZE_LIMIT
  {
    match CheckedMul(count, RELATION_LEN)
    case None => Err(OffsetOverflow)
    case Some(len) =>
      match CheckedAdd(relationBase, offset)
      case None => Err(OffsetOverflow)
      case Some(start) =>
        var _ :- Ensure(WithinLimit(start, len, relationEnd), SectionOutOfBounds);
        ReadEdges(bytes, start, count, owner)
  }

  /** The edge loop of `read_capsule`; the capacity hint is the count, taken only once its range is known. */
  method LoadRelations(bytes: Bytes, relationBase: usize, relationEnd: usize, offset: usize, count: u32, owner: u128)
    returns (r: Result<seq<RelationEdge>>, capacityHint: nat)
    requires relationEnd <= |bytes| < ISIZE_LIMIT
    ensures r == ReadRelations(bytes, relationBase, relationEnd, offset, count, owner)
    ensures RELATION_LEN * capacityHint <= |bytes|
  {
    capacityHint := 0;
    if CheckedMul(count, RELATION_LEN).None? || CheckedAdd(relationBase, offset).None? {
      return Err(OffsetOverflow), capacityHint;
    }
    var start: usize := relationBase + offset;
    if !WithinLimit(start, RELATION_LEN * count, relationEnd) { return Err(SectionOutOfBounds), capacityHint; }
    capacityHint := count;
    r := LoadEdges(bytes, start, count, owner);
  }

  method LoadEdges(bytes: Bytes, start: usize, count: nat, owner: u128) returns (r: Result<seq<RelationEdge>>)
    requires start + RELATION_LEN * count <= |bytes| < ISIZE_LIMIT
    ensures r == ReadEdges(bytes, start, count, owner)
  {
    hide ReadRelation;
    var edges: seq<RelationEdge> := [];
    ghost var whole := ReadEdges(bytes, start, count, owner);
    assert whole.Ok? ==> [] + whole.value == whole.value;
    for index := 0 to count
      invariant |edges| == index
      invariant whole == PrependedEdges(edges, ReadEdges(bytes, start + index * RELATION_LEN, count - index, owner))
    {
      var at: usize := start + index * RELATION_LEN;
      ghost var before := edges;
      var edge := ReadRelation(bytes, at);
      if edge.Err? { return Err(edge.error); }
      if edge.value.from != owner { return Err(ForeignRelation); }
      edges := edges + [edge.value];
      ghost var tail := ReadEdges(bytes, at + RELATION_LEN, count - index - 1, owner);
      if tail.Ok? {
        assert before + ([edge.value] + tail.value) == edges + tail.value;
      }
    }
    assert edges + [] == edges;
    return Ok(edges);
  }

  ghost function PrependedEdges(done: seq<RelationEdge>, rest: Result<seq<RelationEdge>>): Result<seq<RelationEdge>> {
    match rest
    case Ok(es) => Ok(done + es)
    case Err(e) => Err(e)
  }

  // ---------------------------------------------------------------- one capsule

  function ReadBits(bytes: Bytes, at: nat): SemanticBits
    requires at + 32 <= |bytes|
  {
    [U64At(bytes, at), U64At(bytes, at + 8), U64At(bytes, at + 16), U64At(bytes, at + 24)]
  }

  function ReadResidual(bytes: Bytes, at: nat): Residual
    requires at + 64 <= |bytes|
  {
    var window := bytes[at..at + 64];
    var r: seq<i8> := seq(64, i requires 0 <= i < 64 => AsI8(window[i]));
    assert |r| == 64;
    r
  }

  /** `byte as i8`. */
  function AsI8(b: byte): i8 {
    if b < 0x80 then b else b - 0x100
  }

  function UntilOf(raw: i64): Option<i64> {
    if raw != NONE_I64 then Some(raw) else None
  }

  function ValidateHashes(env: Env, claim: Bytes, evidence: Bytes, uri: Option<Bytes>, sourceHash: Digest, contentHash: Digest): Result<()> {
    var _ :- Ensure(env.hash(ContentMaterial(claim, evidence)) == contentHash, ContentHashMismatch);
    Ensure(env.hash(SourceMaterial(evidence, uri)) == sourceHash, SourceHashMismatch)
  }

  function ReadCapsule(env: Env, bytes: Bytes, base: usize, stringBase: usize, relationBase: usize, relationEnd: usize): Result<Capsule>
    requires base + METADATA_LEN <= |bytes| < ISIZE_LIMIT
    requires relationEnd <= |bytes|
  {
    var id := U128At(bytes, base);
    var sourceHash := bytes[base + 32..base + 64];
    var contentHash := bytes[base + 300..base + 332];
    var claim :- ReadString(env, bytes, stringBase, relationBase, base + 228);
    var evidence :- ReadString(env, bytes, stringBase, relationBase, base + 240);
    var sourceUri :- ReadOptionalString(env, bytes, stringBase, relationBase, base + 252);
    var anchors :- ReadStringList(env, bytes, stringBase, relationBase, base + 264);
    var entities :- ReadStringList(env, bytes, stringBase, relationBase, base + 276);
    var _ :- ValidateHashes(env, claim, evidence, sourceUri, sourceHash, contentHash);
    var edges :- ReadRelations(bytes, relationBase, relationEnd, U64At(bytes, base + 288), U32At(bytes, base + 296), id);
    Ok(Capsule(
         id, U64At(bytes, base + 16), claim, evidence, U64At(bytes, base + 24), sourceUri, sourceHash,
         ReadBits(bytes, base + 64), ReadResidual(bytes, base + 96), [], anchors, entities,
         I64At(bytes, base + 160), UntilOf(I64At(bytes, base + 168)), I64At(bytes, base + 176), I64At(bytes, base + 184),
         U128At(bytes, base + 192), U128At(bytes, base + 208),
         bytes[base + 224], bytes[base + 225], bytes[base + 226], edges, contentHash))
  }

  // ---------------------------------------------------------------- whole segment

  function ValidateHeader(bytes: Bytes): (r: Result<()>)
    ensures r.Ok? ==> |bytes| >= HEADER_LEN
  {
    var _ :- Ensure(|bytes| >= HEADER_LEN, ShortHeader);
    var _ :- Ensure(bytes[0..8] == MAGIC, BadMagic);
    var _ :- Ensure(U32At(bytes, 8) == VERSION, BadVersion);
    Ensure(U32At(bytes, 12) == HEADER_LEN, BadHeaderLength)
  }

  function ValidateSections(bytes: Bytes, count: usize, metadataOffset: usize, stringOffset: usize, relationOffset: usize, indexOffset: usize): (r: Result<()>)
    requires |bytes| < ISIZE_LIMIT
    ensures r.Ok? ==> metadataOffset == HEADER_LEN && stringOffset == HEADER_LEN + METADATA_LEN * count
    ensures r.Ok? ==> stringOffset <= relationOffset <= indexOffset && indexOffset + 16 <= |bytes|
  {
    match CheckedMul(count, METADATA_LEN)
    case None => Err(MetadataOverflow)
    case Some(metadataLen) =>
      match CheckedAdd(metadataOffset, metadataLen)
      case None => Err(MetadataOverflow)
      case Some(expected) =>
        var _ :- Ensure(
          metadataOffset == HEADER_LEN && expected == stringOffset && stringOffset <= relationOffset
          && relationOffset <= indexOffset && indexOffset <= |bytes|, BadSectionOffsets);
        var _ :- Ensure(InRange(bytes, indexOffset, 16), OutOfBounds);
        var _ :- Ensure(bytes[indexOffset..indexOffset + 8] == INDEX_MARKER, BadIndexMarker);
        Ensure(U64At(bytes, indexOffset + 8) == count, BadIndexCount)
  }

  function ReadCapsules(env: Env, bytes: Bytes, ordinal: nat, count: nat, stringBase: usize, relationBase: usize, relationEnd: usize): (r: Result<seq<Capsule>>)
    requires ordinal <= count && HEADER_LEN + METADATA_LEN * count <= |bytes| < ISIZE_LIMIT
    requires relationEnd <= |bytes|
    ensures r.Ok? ==> |r.value| == count - ordinal
    decreases count - ordinal
  {
    if ordinal == count then Ok([])
    else
      var base: usize := HEADER_LEN + ordinal * METADATA_LEN;
      var c :- ReadCapsule(env, bytes, base, stringBase, relationBase, relationEnd);
      var rest :- ReadCapsules(env, bytes, ordinal + 1, count, stringBase, relationBase, relationEnd);
      Ok([c] + rest)
  }

  function ReadLanes(bytes: Bytes, row: nat, dim: nat): (lanes: seq<u32>)
    requires row + 4 * dim <= |bytes|
    ensures |lanes| == dim
    decreases dim
  {
    if dim == 0 then [] else [U32At(bytes, row)] + ReadLanes(bytes, row + 4, dim - 1)
  }

  /** The size of `n` rows. */
  function RowsLen(n: nat, width: nat): nat {
    if n == 0 then 0 else width + RowsLen(n - 1, width)
  }

  lemma {:induction false} RowsLenIsProduct(n: nat, width: nat)
    ensures RowsLen(n, width) == n * width
  {
    if n > 0 { RowsLenIsProduct(n - 1, width); }
  }

  /** Gives each capsule its row of the vector area. */
  function AttachRows(bytes: Bytes, row: nat, dim: nat, cs: seq<Capsule>): (r: seq<Capsule>)
    requires row + RowsLen(|cs|, 4 * dim) <= |bytes|
    ensures |r| == |cs|
    decreases |cs|
  {
    if cs == [] then []
    else
      [cs[0].(embedding := ReadLanes(bytes, row, dim))] + AttachRows(bytes, row + 4 * dim, dim, cs[1..])
  }

  /** Attaching rows changes the embeddings only. */
  lemma {:induction false} AttachRowsKeepsRest(bytes: Bytes, row: nat, dim: nat, cs: seq<Capsule>, i: nat)
    requires row + RowsLen(|cs|, 4 * dim) <= |bytes| && i < |cs|
    ensures var c := AttachRows(bytes, row, dim, cs)[i];
            c == cs[i].(embedding := c.embedding) && |c.embedding| == dim
    decreases i
  {
    if i > 0 { AttachRowsKeepsRest(bytes, row + 4 * dim, dim, cs[1..], i - 1); }
  }

  function ReadEmbeddings(bytes: Bytes, cs: seq<Capsule>): (r: Result<seq<Capsule>>)
    requires HEADER_LEN <= |bytes| < ISIZE_LIMIT && |cs| < ISIZE_LIMIT
    ensures r.Ok? ==> |r.value| == |cs|
  {
    var dim := U32At(bytes, EMBED_DIM_OFFSET);
    if dim == 0 then Ok(cs)
    else
      var offset := U64At(bytes, VECTOR_AREA_OFFSET);
      match CheckedMul(dim, 4)
      case None => Err(OffsetOverflow)
      case Some(rowLen) =>
        match CheckedMul(rowLen, |cs|)
        case None => Err(OffsetOverflow)
        case Some(total) =>
          var _ :- Ensure(InRange(bytes, offset, total), OutOfBounds);
          RowsLenIsProduct(|cs|, 4 * dim);
          Ok(AttachRows(bytes, offset, dim, cs))
  }

  /** What `from_bytes` returns. */
  function Parse(env: Env, bytes: Bytes): Result<Segment>
    requires |bytes| < ISIZE_LIMIT
  {
    var _ :- ValidateHeader(bytes);
    var _ :- Ensure(bytes[HASH_OFFSET..HASH_OFFSET + HASH_LEN] == SegmentHash(env, bytes), SegmentHashMismatch);
    var count := U64At(bytes, 32);
    var stringOffset, relationOffset, indexOffset := U64At(bytes, 48), U64At(bytes, 56), U64At(bytes, 64);
    var _ :- ValidateSections(bytes, count, U64At(bytes, 40), stringOffset, relationOffset, indexOffset);
    var read :- ReadCapsules(env, bytes, 0, count, stringOffset, relationOffset, indexOffset);
    var capsules :- ReadEmbeddings(bytes, read);
    var _ :- Ensure(|IdSet(capsules)| == |capsules|, DuplicateIds);
    Ok(Segment(U64At(bytes, 16), U64At(bytes, 24), capsules))
  }

  /** Every capacity asked of the allocator is at most a quarter of the input length. */
  ghost predicate Bounded(capacities: seq<nat>, bytes: Bytes) {
    forall h :: h in capacities ==> 4 * h <= |bytes|
  }

  lemma BoundedConcat(a: seq<nat>, b: seq<nat>, bytes: Bytes)
    requires Bounded(a, bytes) && Bounded(b, bytes)
    ensures Bounded(a + b, bytes)
  {
  }

  /** `from_bytes`, with every capacity it asks for: capsules, list entries, edges and lanes. */
  method FromBytes(env: Env, bytes: Bytes) returns (r: Result<Segment>, capacities: seq<nat>)
    requires |bytes| < ISIZE_LIMIT
    ensures r == Parse(env, bytes)
    ensures Bounded(capacities, bytes)
  {
    hide ReadCapsules, ReadEmbeddings;
    capacities := [];
    var header := ValidateHeader(bytes);
    if header.Err? { return Err(header.error), capacities; }
    if bytes[HASH_OFFSET..HASH_OFFSET + HASH_LEN] != SegmentHash(env, bytes) {
      return Err(SegmentHashMismatch), capacities;
    }
    var count := U64At(bytes, 32);
    var stringOffset, relationOffset, indexOffset := U64At(bytes, 48), U64At(bytes, 56), U64At(bytes, 64);
    var sections := ValidateSections(bytes, count, U64At(bytes, 40), stringOffset, relationOffset, indexOffset);
    if sections.Err? { return Err(sections.error), capacities; }
    capacities := [count];
    var read, forCapsules := LoadCapsules(env, bytes, count, stringOffset, relationOffset, indexOffset);
    BoundedConcat(capacities, forCapsules, bytes);
    capacities := capacities + forCapsules;
    if read.Err? { return Err(read.error), capacities; }
    var embedded, forRows := LoadEmbeddings(bytes, read.value);
    BoundedConcat(capacities, forRows, bytes);
    capacities := capacities + forRows;
    if embedded.Err? { return Err(embedded.error), capacities; }
    var capsules := embedded.value;
    if |IdSet(capsules)| != |capsules| { return Err(DuplicateIds), capacities; }
    return Ok(Segment(U64At(bytes, 16), U64At(bytes, 24), capsules)), capacities;
  }

  /** `read_capsule`: strings, lists, digests, then edges, stopping at the first refusal. */
  method LoadCapsule(env: Env, bytes: Bytes, base: usize, stringBase: usize, relationBase: usize, relationEnd: usize)
    returns (r: Result<Capsule>, capacities: seq<nat>)
    requires base + METADATA_LEN <= |bytes| < ISIZE_LIMIT && relationEnd <= |bytes|
    ensures r == ReadCapsule(env, bytes, base, stringBase, relationBase, relationEnd)
    ensures Bounded(capacities, bytes)
  {
    hide ReadString, ReadOptionalString, ReadStringList, ReadRelations, ValidateHashes, ReadBits, ReadResidual, U32At, U64At, U128At, I64At;
    capacities := [];
    var id := U128At(bytes, base);
    var sourceHash := bytes[base + 32..base + 64];
    var contentHash := bytes[base + 300..base + 332];
    var claim := ReadString(env, bytes, stringBase, relationBase, base + 228);
    if claim.Err? { return Err(claim.error), capacities; }
    var evidence := ReadString(env, bytes, stringBase, relationBase, base + 240);
    if evidence.Err? { return Err(evidence.error), capacities; }
    var sourceUri := ReadOptionalString(env, bytes, stringBase, relationBase, base + 252);
    if sourceUri.Err? { return Err(sourceUri.error), capacities; }
    var anchors, forAnchors := LoadStringList(env, bytes, stringBase, relationBase, base + 264);
    capacities := [forAnchors];
    if anchors.Err? { return Err(anchors.error), capacities; }
    var entities, forEntities := LoadStringList(env, bytes, stringBase, relationBase, base + 276);
    capacities := [forAnchors, forEntities];
    if entities.Err? { return Err(entities.error), capacities; }
    var hashes := ValidateHashes(env, claim.value, evidence.value, sourceUri.value, sourceHash, contentHash);
    if hashes.Err? { return Err(hashes.error), capacities; }
    var edges, forEdges := LoadRelations(bytes, relationBase, relationEnd, U64At(bytes, base + 288), U32At(bytes, base + 296), id);
    capacities := [forAnchors, forEntities, forEdges];
    if edges.Err? { return Err(edges.error), capacities; }
    r := Ok(Capsule(
              id, U64At(bytes, base + 16), claim.value, evidence.value, U64At(bytes, base + 24), sourceUri.value, sourceHash,
              ReadBits(bytes, base + 64), ReadResidual(bytes, base + 96), [], anchors.value, entities.value,
              I64At(bytes, base + 160), UntilOf(I64At(bytes, base + 168)), I64At(bytes, base + 176), I64At(bytes, base + 184),
              U128At(bytes, base + 192), U128At(bytes, base + 208),
              bytes[base + 224], bytes[base + 225], bytes[base + 226], edges.value, contentHash));
  }

  method LoadCapsules(env: Env, bytes: Bytes, count: nat, stringBase: usize, relationBase: usize, relationEnd: usize)
    returns (r: Result<seq<Capsule>>, capacities: seq<nat>)
    requires HEADER_LEN + METADATA_LEN * count <= |bytes| < ISIZE_LIMIT && relationEnd <= |bytes|
    ensures r == ReadCapsules(env, bytes, 0, count, stringBase, relationBase, relationEnd)
    ensures Bounded(capacities, bytes)
  {
    hide ReadCapsule, Bounded;
    var capsules: seq<Capsule> := [];
    capacities := [];
    NothingAsked(bytes);
    ghost var whole := ReadCapsules(env, bytes, 0, count, stringBase, relationBase, relationEnd);
    assert whole.Ok? ==> [] + whole.value == whole.value;
    for ordinal := 0 to count
      invariant |capsules| == ordinal && Bounded(capacities, bytes)
      invariant whole == Prepended(capsules, ReadCapsules(env, bytes, ordinal, count, stringBase, relationBase, relationEnd))
    {
      var base: usize := HEADER_LEN + ordinal * METADATA_LEN;
      ghost var before := capsules;
      var c, more := LoadCapsule(env, bytes, base, stringBase, relationBase, relationEnd);
      BoundedConcat(capacities, more, bytes);
      capacities := capacities + more;
      if c.Err? { return Err(c.error), capacities; }
      capsules := capsules + [c.value];
      ghost var tail := ReadCapsules(env, bytes, ordinal + 1, count, stringBase, relationBase, relationEnd);
      if tail.Ok? {
        assert before + ([c.value] + tail.value) == capsules + tail.value;
      }
    }
    assert capsules + [] == capsules;
    return Ok(capsules), capacities;
  }

  lemma NothingAsked(bytes: Bytes)
    ensures Bounded([], bytes)
  {
  }

  ghost function Prepended(done: seq<Capsule>, rest: Result<seq<Capsule>>): Result<seq<Capsule>> {
    match rest
    case Ok(cs) => Ok(done + cs)
    case Err(e) => Err(e)
  }

  method LoadLanes(bytes: Bytes, row: usize, dim: nat) returns (embedding: seq<u32>)
    requires row + 4 * dim <= |bytes| < ISIZE_LIMIT
    ensures embedding == ReadLanes(bytes, row, dim)
  {
    embedding := [];
    for lane := 0 to dim
      invariant |embedding| == lane
      invariant embedding + ReadLanes(bytes, row + 4 * lane, dim - lane) == ReadLanes(bytes, row, dim)
    {
      var at: usize := row + lane * 4;
      embedding := embedding + [U32At(bytes, at)];
    }
  }

  /** The two loops that fill in the optional dense vectors, in place. */
  method LoadEmbeddings(bytes: Bytes, cs: seq<Capsule>) returns (r: Result<seq<Capsule>>, capacities: seq<nat>)
    requires HEADER_LEN <= |bytes| < ISIZE_LIMIT && |cs| < ISIZE_LIMIT
    ensures r == ReadEmbeddings(bytes, cs)
    ensures Bounded(capacities, bytes)
  {
    capacities := [];
    var dim: nat := U32At(bytes, EMBED_DIM_OFFSET);
    if dim == 0 { return Ok(cs), capacities; }
    var offset := U64At(bytes, VECTOR_AREA_OFFSET);
    var width: usize := 4 * dim;
    if CheckedMul(width, |cs|).None? { return Err(OffsetOverflow), capacities; }
    if !InRange(bytes, offset, |cs| * width) { return Err(OutOfBounds), capacities; }
    RowsLenIsProduct(|cs|, width);
    var out;
    out, capacities := LoadRows(bytes, offset, dim, cs);
    return Ok(out), capacities;
  }

  lemma NoRows(bytes: Bytes, row: nat, dim: nat)
    requires row <= |bytes|
    ensures RowsLen(0, 4 * dim) == 0 && AttachRows(bytes, row, dim, []) == []
  {
  }

  lemma OneRow(bytes: Bytes, row: nat, dim: nat, cs: seq<Capsule>, ordinal: nat)
    requires ordinal < |cs| && row + RowsLen(|cs| - ordinal, 4 * dim) <= |bytes|
    ensures row + 4 * dim + RowsLen(|cs| - ordinal - 1, 4 * dim) <= |bytes|
    ensures AttachRows(bytes, row, dim, cs[ordinal..])
            == [cs[ordinal].(embedding := ReadLanes(bytes, row, dim))] + AttachRows(bytes, row + 4 * dim, dim, cs[ordinal + 1..])
  {
    hide ReadLanes;
    assert cs[ordinal..][1..] == cs[ordinal + 1..] && cs[ordinal..][0] == cs[ordinal];
  }

  /** One row per capsule; each asks for room for its lanes only because the row is known to be there. */
  method LoadRows(bytes: Bytes, offset: usize, dim: nat, cs: seq<Capsule>) returns (out: seq<Capsule>, capacities: seq<nat>)
    requires offset + RowsLen(|cs|, 4 * dim) <= |bytes| < ISIZE_LIMIT
    ensures out == AttachRows(bytes, offset, dim, cs)
    ensures capacities == seq(|cs|, _ => dim) && Bounded(capacities, bytes)
  {
    hide RowsLen, AttachRows, ReadLanes;
    ghost var whole := AttachRows(bytes, offset, dim, cs);
    out, capacities := [], [];
    assert cs[0..] == cs;
    var row: usize := offset;
    for ordinal := 0 to |cs|
      invariant |out| == ordinal && |capacities| == ordinal && forall i :: 0 <= i < ordinal ==> capacities[i] == dim
      invariant row + RowsLen(|cs| - ordinal, 4 * dim) <= |bytes| && (ordinal > 0 ==> 4 * dim <= |bytes|)
      invariant out + AttachRows(bytes, row, dim, cs[ordinal..]) == whole
    {
      OneRow(bytes, row, dim, cs, ordinal);
      capacities := capacities + [dim];
      var embedding := LoadLanes(bytes, row, dim);
      var filled := cs[ordinal].(embedding := embedding);
      ghost var tail := AttachRows(bytes, row + 4 * dim, dim, cs[ordinal + 1..]);
      assert out + ([filled] + tail) == (out + [filled]) + tail;
      out := out + [filled];
      row := row + 4 * dim;
    }
    NoRows(bytes, row, dim);
    assert cs[|cs|..] == [] && out + [] == out;
  }
}
