/** The loops of `assemble_segment`, which append to shared areas and patch the digest in last. */
module SegmentWriter {
  import opened Results
  import opened ByteCodec
  import opened Capsules
  import opened SegmentLayout

  datatype Blob = Blob(offset: nat, len: nat)

  datatype MetadataRefs = MetadataRefs(
    claim: Blob, evidence: Blob, sourceUri: Blob, anchors: Blob, entities: Blob,
    relationOffset: nat, relationCount: nat)

  function BlobBytes(b: Blob): (r: Bytes)
    ensures |r| == 12
  {
    BlobRef(b.offset, b.len)
  }

  function RefsBytes(c: Capsule, refs: MetadataRefs): Bytes {
    BlobBytes(refs.claim) + BlobBytes(refs.evidence) + BlobBytes(refs.sourceUri) + BlobBytes(refs.anchors)
    + BlobBytes(refs.entities) + (LE(refs.relationOffset, 8) + LE(refs.relationCount, 4)) + c.contentHash + Zeros(8)
  }

  method WriteBytes(area: Bytes, bytes: Bytes) returns (grown: Bytes, blob: Blob)
    ensures grown == area + bytes && blob == Blob(|area|, |bytes|)
  {
    grown := area + bytes;
    blob := Blob(|area|, |bytes|);
  }

  lemma {:induction false} EntriesSnoc(values: seq<Bytes>, v: Bytes)
    ensures EntriesBytes(values + [v]) == EntriesBytes(values) + (LE(|v|, 4) + v)
  {
    hide LE;
    if values == [] {
      assert (values + [v])[1..] == [];
    } else {
      EntriesSnoc(values[1..], v);
      assert (values + [v])[1..] == values[1..] + [v];
    }
  }

  method WriteStringList(area: Bytes, values: seq<Bytes>) returns (grown: Bytes, blob: Blob)
    ensures grown == area + ListBytes(values) && blob == Blob(|area|, |ListBytes(values)|)
  {
    hide LE;
    var offset := |area|;
    grown := area + LE(|values|, 4);
    for i := 0 to |values|
      invariant grown == area + LE(|values|, 4) + EntriesBytes(values[..i])
    {
      EntriesSnoc(values[..i], values[i]);
      assert values[..i + 1] == values[..i] + [values[i]];
      grown := grown + LE(|values[i]|, 4);
      grown := grown + values[i];
    }
    assert values[..|values|] == values;
    assert grown == area + ListBytes(values);
    blob := Blob(offset, |grown| - offset);
  }

  lemma {:induction false} EdgesSnoc(es: seq<RelationEdge>, e: RelationEdge)
    ensures EdgesBytes(es + [e]) == EdgesBytes(es) + EdgeBytes(e)
  {
    hide EdgeBytes;
    if es == [] {
      assert (es + [e])[1..] == [];
    } else {
      EdgesSnoc(es[1..], e);
      assert (es + [e])[1..] == es[1..] + [e] && (es + [e])[0] == es[0];
      assert EdgesBytes(es + [e]) == EdgeBytes(es[0]) + (EdgesBytes(es[1..]) + EdgeBytes(e));
    }
  }

  method WriteEdges(area: Bytes, es: seq<RelationEdge>) returns (grown: Bytes)
    ensures grown == area + EdgesBytes(es)
  {
    grown := area;
    for i := 0 to |es|
      invariant grown == area + EdgesBytes(es[..i])
    {
      EdgesSnoc(es[..i], es[i]);
      assert es[..i + 1] == es[..i] + [es[i]];
      grown := grown + EdgeBytes(es[i]);
    }
    assert es[..|es|] == es;
  }

  /** One capsule's strings and edges, and the references its record will carry. */
  method WriteBlobs(strings: Bytes, relations: Bytes, c: Capsule) returns (strings': Bytes, relations': Bytes, refs: MetadataRefs)
    ensures strings' == strings + StringBlob(c) && relations' == relations + EdgesBytes(c.relationEdges)
    ensures RefsBytes(c, refs) == RefBlock(c, |strings|, |relations|)
  {
    hide ListBytes, EdgesBytes, LE;
    var claim, evidence, sourceUri, anchors, entities;
    strings', claim := WriteBytes(strings, c.claim);
    strings', evidence := WriteBytes(strings', c.evidence);
    match c.sourceUri {
      case Some(uri) => strings', sourceUri := WriteBytes(strings', uri);
      case None => sourceUri := Blob(NONE_OFFSET, NONE_LEN);
    }
    assert strings' == strings + c.claim + c.evidence + UriBytes(c.sourceUri);
    strings', anchors := WriteStringList(strings', c.anchors);
    strings', entities := WriteStringList(strings', c.entities);
    assert strings' == strings + StringBlob(c);
    relations' := WriteEdges(relations, c.relationEdges);
    refs := MetadataRefs(claim, evidence, sourceUri, anchors, entities, |relations|, |c.relationEdges|);
  }

  lemma Associates(a: Bytes, b: Bytes, c: Bytes)
    ensures a + (b + c) == (a + b) + c
  {
  }

  lemma {:induction false} AreasSnoc(cs: seq<Capsule>, c: Capsule)
    ensures StringArea(cs + [c]) == StringArea(cs) + StringBlob(c)
    ensures RelationArea(cs + [c]) == RelationArea(cs) + EdgesBytes(c.relationEdges)
    ensures VectorArea(cs + [c]) == VectorArea(cs) + LaneBytes(c.embedding)
  {
    hide StringBlob, EdgesBytes, LaneBytes;
    if cs == [] {
      assert (cs + [c])[1..] == [];
    } else {
      var rest := cs[1..];
      AreasSnoc(rest, c);
      assert (cs + [c])[1..] == rest + [c] && (cs + [c])[0] == cs[0];
      Associates(StringBlob(cs[0]), StringArea(rest), StringBlob(c));
      Associates(EdgesBytes(cs[0].relationEdges), RelationArea(rest), EdgesBytes(c.relationEdges));
      Associates(LaneBytes(cs[0].embedding), VectorArea(rest), LaneBytes(c.embedding));
    }
  }

  lemma {:induction false} TableSnoc(cs: seq<Capsule>, c: Capsule, s: nat, r: nat)
    ensures MetadataTable(cs + [c], s, r)
            == MetadataTable(cs, s, r) + Metadata(c, s + |StringArea(cs)|, r + |RelationArea(cs)|)
    decreases |cs|
  {
    hide Metadata, StringBlob, EdgesBytes;
    if cs == [] {
      assert (cs + [c])[1..] == [];
    } else {
      TableSnoc(cs[1..], c, s + |StringBlob(cs[0])|, r + RELATION_LEN * |cs[0].relationEdges|);
      assert (cs + [c])[1..] == cs[1..] + [c];
    }
  }

  /** First pass: the shared areas, and for each capsule the references of its record. */
  method WriteAreas(cs: seq<Capsule>) returns (strings: Bytes, relations: Bytes, refs: seq<MetadataRefs>)
    ensures strings == StringArea(cs) && relations == RelationArea(cs) && |refs| == |cs|
    ensures forall k :: 0 <= k < |cs| ==>
      RefsBytes(cs[k], refs[k]) == RefBlock(cs[k], |StringArea(cs[..k])|, |RelationArea(cs[..k])|)
  {
    hide StringBlob, EdgesBytes, RefsBytes, RefBlock;
    strings, relations, refs := [], [], [];
    for i := 0 to |cs|
      invariant strings == StringArea(cs[..i]) && relations == RelationArea(cs[..i]) && |refs| == i
      invariant forall k :: 0 <= k < i ==>
        RefsBytes(cs[k], refs[k]) == RefBlock(cs[k], |StringArea(cs[..k])|, |RelationArea(cs[..k])|)
    {
      AreasSnoc(cs[..i], cs[i]);
      assert cs[..i + 1] == cs[..i] + [cs[i]];
      var ref;
      strings, relations, ref := WriteBlobs(strings, relations, cs[i]);
      refs := refs + [ref];
    }
    assert cs[..|cs|] == cs;
  }

  /** Second pass: the fixed-width records. */
  method WriteTable(header: Bytes, cs: seq<Capsule>, refs: seq<MetadataRefs>) returns (bytes: Bytes)
    requires |refs| == |cs|
    requires forall k :: 0 <= k < |cs| ==>
      RefsBytes(cs[k], refs[k]) == RefBlock(cs[k], |StringArea(cs[..k])|, |RelationArea(cs[..k])|)
    ensures bytes == header + MetadataTable(cs, 0, 0)
  {
    hide IdentityBlock, GateBlock, RefsBytes, RefBlock, StringArea, RelationArea;
    bytes := header;
    for i := 0 to |cs|
      invariant bytes == header + MetadataTable(cs[..i], 0, 0)
    {
      TableSnoc(cs[..i], cs[i], 0, 0);
      assert cs[..i + 1] == cs[..i] + [cs[i]];
      bytes := bytes + IdentityBlock(cs[i]);
      bytes := bytes + GateBlock(cs[i]);
      bytes := bytes + RefsBytes(cs[i], refs[i]);
      assert bytes == header + MetadataTable(cs[..i], 0, 0) + (IdentityBlock(cs[i]) + GateBlock(cs[i]) + RefsBytes(cs[i], refs[i]));
    }
    assert cs[..|cs|] == cs;
  }

  lemma {:induction false} LanesSnoc(lanes: seq<u32>, lane: u32)
    ensures LaneBytes(lanes + [lane]) == LaneBytes(lanes) + LE(lane, 4)
  {
    hide LE;
    if lanes == [] {
      assert (lanes + [lane])[1..] == [];
    } else {
      LanesSnoc(lanes[1..], lane);
      assert (lanes + [lane])[1..] == lanes[1..] + [lane];
      Associates(LE(lanes[0], 4), LaneBytes(lanes[1..]), LE(lane, 4));
    }
  }

  method WriteLanes(bytes: Bytes, lanes: seq<u32>) returns (grown: Bytes)
    ensures grown == bytes + LaneBytes(lanes)
  {
    grown := bytes;
    for j := 0 to |lanes|
      invariant grown == bytes + LaneBytes(lanes[..j])
    {
      LanesSnoc(lanes[..j], lanes[j]);
      assert lanes[..j + 1] == lanes[..j] + [lanes[j]];
      grown := grown + LE(lanes[j], 4);
    }
    assert lanes[..|lanes|] == lanes;
  }

  method WriteVectors(bytes: Bytes, cs: seq<Capsule>) returns (grown: Bytes)
    ensures grown == bytes + VectorArea(cs)
  {
    hide LaneBytes, StringBlob, EdgesBytes;
    grown := bytes;
    for i := 0 to |cs|
      invariant grown == bytes + VectorArea(cs[..i])
    {
      grown := WriteLanes(grown, cs[i].embedding);
      AreasSnoc(cs[..i], cs[i]);
      assert cs[..i + 1] == cs[..i] + [cs[i]];
    }
    assert cs[..|cs|] == cs;
  }

  method LargestDim(cs: seq<Capsule>) returns (dim: nat)
    ensures dim == MaxDim(cs)
  {
    dim := 0;
    for i := 0 to |cs|
      invariant forall k :: 0 <= k < i ==> |cs[k].embedding| <= dim
      invariant dim > 0 ==> exists k :: 0 <= k < i && |cs[k].embedding| == dim
    {
      if |cs[i].embedding| > dim { dim := |cs[i].embedding|; }
    }
    assert dim > 0 ==> exists c :: c in cs && |c.embedding| == dim;
  }

  /** `assemble_segment`: both passes, the summary, the vectors, then the digest over the finished bytes. */
  method AssembleSegment(env: Env, input: seq<Capsule>, epoch: u64) returns (r: Result<Bytes>)
    ensures r == Assemble(env, input, epoch)
  {
    hide Layout, Sorted, SegmentHash, RefsBytes, RefBlock, MaxDim, StringArea, RelationArea;
    var cs := Sorted(input);
    var strings, relations, refs := WriteAreas(cs);
    var dim := LargestDim(cs);
    var mixed := false;
    if dim > 0 {
      mixed := SomeOtherDim(cs, dim);
    }
    if mixed { return Err(InconsistentEmbedding); }
    var bytes := WriteUnsealed(cs, epoch, strings, relations, refs, dim);
    var digest := SegmentHash(env, bytes);
    bytes := SealBytes(cs, epoch, bytes, digest);
    return Ok(bytes);
  }

  method SomeOtherDim(cs: seq<Capsule>, dim: nat) returns (mixed: bool)
    ensures mixed <==> exists c :: c in cs && |c.embedding| != dim
  {
    for i := 0 to |cs|
      invariant forall k :: 0 <= k < i ==> |cs[k].embedding| == dim
    {
      if |cs[i].embedding| != dim {
        assert cs[i] in cs;
        return true;
      }
    }
    return false;
  }

  method WriteUnsealed(cs: seq<Capsule>, epoch: u64, strings: Bytes, relations: Bytes, refs: seq<MetadataRefs>, dim: nat)
    returns (bytes: Bytes)
    requires strings == StringArea(cs) && relations == RelationArea(cs) && |refs| == |cs| && dim == MaxDim(cs)
    requires forall k :: 0 <= k < |cs| ==>
      RefsBytes(cs[k], refs[k]) == RefBlock(cs[k], |StringArea(cs[..k])|, |RelationArea(cs[..k])|)
    ensures bytes == Layout(cs, epoch, Zeros(32))
  {
    hide HeaderFront, HeaderBack, RefsBytes, RefBlock, MetadataTable, StringArea, RelationArea, VectorArea, MaxDim, LE;
    var stringOffset := HEADER_LEN + METADATA_LEN * |cs|;
    var relationOffset := stringOffset + |strings|;
    var indexOffset := relationOffset + |relations|;
    var h := HeaderFields(epoch, FirstTenant(cs), |cs|, stringOffset, relationOffset, indexOffset, dim, indexOffset + 16);
    bytes := HeaderFront(h) + Zeros(32) + HeaderBack(h);
    ghost var header := bytes;
    bytes := WriteTable(bytes, cs, refs);
    bytes := bytes + strings;
    bytes := bytes + relations;
    bytes := bytes + (INDEX_MARKER + LE(|cs|, 8));
    bytes := WriteVectors(bytes, cs);
    assert bytes == header + Body(cs);
  }

  /** `bytes[HASH_OFFSET..HASH_OFFSET + HASH_LEN].copy_from_slice(..)`. */
  method SealBytes(cs: seq<Capsule>, epoch: u64, bytes: Bytes, digest: Digest) returns (sealed: Bytes)
    requires bytes == Layout(cs, epoch, Zeros(32))
    ensures sealed == Layout(cs, epoch, digest)
  {
    hide HeaderFront, HeaderBack, Body;
    sealed := bytes[..HASH_OFFSET] + digest + bytes[HASH_OFFSET + HASH_LEN..];
    ghost var h := Fields(cs, epoch);
    ghost var back := HeaderBack(h) + Body(cs);
    assert bytes == HeaderFront(h) + Zeros(32) + back;
    assert bytes[..HASH_OFFSET] == HeaderFront(h) && bytes[HASH_OFFSET + HASH_LEN..] == back;
    assert Layout(cs, epoch, digest) == HeaderFront(h) + digest + back;
  }
}
