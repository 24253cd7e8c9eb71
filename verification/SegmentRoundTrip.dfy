/** What the parser makes of what the writer wrote, and what it accepts at all. */
module SegmentRoundTrip {
  import opened Results
  import opened ByteCodec
  import opened Capsules
  import opened Sorting
  import opened SegmentLayout
  import opened SegmentReader

  const U32_LIMIT: nat := 0x1_0000_0000

  /** The sizes a metadata record can express, and the one validity bound it cannot. */
  predicate Sized(c: Capsule) {
    && |c.claim| < U32_LIMIT && |c.evidence| < U32_LIMIT && |UriBytes(c.sourceUri)| < U32_LIMIT
    && |ListBytes(c.anchors)| < U32_LIMIT && |ListBytes(c.entities)| < U32_LIMIT
    && |c.relationEdges| < U32_LIMIT && |c.embedding| < U32_LIMIT
    && c.validUntil != Some(NONE_I64)
  }

  predicate AllUtf8(env: Env, values: seq<Bytes>) {
    forall v :: v in values ==> env.utf8(v)
  }

  predicate TextValid(env: Env, c: Capsule) {
    && env.utf8(c.claim) && env.utf8(c.evidence)
    && (c.sourceUri.Some? ==> env.utf8(c.sourceUri.value))
    && AllUtf8(env, c.anchors) && AllUtf8(env, c.entities)
  }

  /** What the parser checks of a capsule it has read. */
  predicate Loadable(env: Env, c: Capsule) {
    TextValid(env, c) && HashesMatch(env, c) && EdgesOwned(c)
  }

  predicate AllLoadable(env: Env, cs: seq<Capsule>) {
    forall c :: c in cs ==> Loadable(env, c)
  }

  predicate AllSized(cs: seq<Capsule>) {
    forall c :: c in cs ==> Sized(c)
  }

  // ---------------------------------------------------------------- single fields

  lemma ReadBack(bytes: Bytes, offset: nat, n: nat, width: nat)
    requires At(bytes, offset, LE(n, width)) && n < Pow256(width)
    ensures FromLE(bytes[offset..offset + width]) == n
  {
    DecodeEncode(n, width);
  }

  lemma ReadU32Back(bytes: Bytes, offset: nat, n: nat)
    requires At(bytes, offset, LE(n, 4)) && n < U32_LIMIT
    ensures U32At(bytes, offset) == n
  {
    Pow256Values();
    ReadBack(bytes, offset, n, 4);
  }

  lemma ReadU64Back(bytes: Bytes, offset: nat, n: u64)
    requires At(bytes, offset, LE(n, 8))
    ensures U64At(bytes, offset) == n
  {
    Pow256Values();
    ReadBack(bytes, offset, n, 8);
  }

  lemma ReadU128Back(bytes: Bytes, offset: nat, n: u128)
    requires At(bytes, offset, LE(n, 16))
    ensures U128At(bytes, offset) == n
  {
    Pow256Values();
    ReadBack(bytes, offset, n, 16);
  }

  lemma ReadI64Back(bytes: Bytes, offset: nat, n: i64)
    requires At(bytes, offset, I64Bytes(n))
    ensures I64At(bytes, offset) == n
  {
    Pow256Values();
    ReadBack(bytes, offset, ToUnsigned(n, 8), 8);
  }

  /** Every 4-byte window is the encoding of the number read from it. */
  lemma U32Canonical(bytes: Bytes, offset: nat)
    requires offset + 4 <= |bytes|
    ensures At(bytes, offset, LE(U32At(bytes, offset), 4))
  {
    EncodeDecode(bytes[offset..offset + 4]);
  }

  // ---------------------------------------------------------------- string lists

  lemma {:induction false} EntriesReadBack(env: Env, bytes: Bytes, cursor: usize, values: seq<Bytes>)
    requires At(bytes, cursor, EntriesBytes(values)) && |bytes| < ISIZE_LIMIT
    requires |EntriesBytes(values)| < U32_LIMIT
    ensures var end := cursor + |EntriesBytes(values)|;
            ReadEntries(env, bytes, cursor, end, |values|)
            == if AllUtf8(env, values) then Ok((values, end)) else Err(InvalidUtf8)
    decreases |values|
  {
    hide ReadEntries, U32At, InRange, At;
    var end := cursor + |EntriesBytes(values)|;
    AtStands(bytes, cursor, EntriesBytes(values));
    if values == [] {
      NoEntries(env, bytes, cursor, end);
    } else {
      hide EntriesBytes, AllUtf8, LE;
      var v, rest := values[0], values[1..];
      FirstEntryLength(bytes, cursor, values);
      FirstEntryText(bytes, cursor, values);
      LaterEntriesStand(bytes, cursor, values);
      EntriesReadBack(env, bytes, cursor + 4 + |v|, rest);
      ReadOneMore(env, bytes, cursor, end, v, rest);
      assert values == [v] + rest;
    }
  }

  /** An entry that stands before readable ones is read with them, or refused for its UTF-8. */
  lemma ReadOneMore(env: Env, bytes: Bytes, cursor: usize, end: usize, v: Bytes, rest: seq<Bytes>)
    requires cursor + 4 + |v| <= end <= |bytes| < ISIZE_LIMIT && U32At(bytes, cursor) == |v|
    requires bytes[cursor + 4..cursor + 4 + |v|] == v
    requires ReadEntries(env, bytes, cursor + 4 + |v|, end, |rest|) == if AllUtf8(env, rest) then Ok((rest, end)) else Err(InvalidUtf8)
    ensures ReadEntries(env, bytes, cursor, end, |rest| + 1)
            == if AllUtf8(env, [v] + rest) then Ok(([v] + rest, end)) else Err(InvalidUtf8)
  {
    hide ReadEntries, U32At, AllUtf8;
    FirstUtf8(env, [v] + rest);
    assert ([v] + rest)[1..] == rest;
    EntryRefused(env, bytes, cursor, end, |rest| + 1);
    if env.utf8(v) { EntryAccepted(env, bytes, cursor, end, |rest| + 1); }
  }

  lemma FirstUtf8(env: Env, values: seq<Bytes>)
    requires values != []
    ensures AllUtf8(env, values) <==> env.utf8(values[0]) && AllUtf8(env, values[1..])
  {
  }

  lemma FirstEntryLength(bytes: Bytes, cursor: usize, values: seq<Bytes>)
    requires values != [] && At(bytes, cursor, EntriesBytes(values)) && |EntriesBytes(values)| < U32_LIMIT
    ensures |EntriesBytes(values)| == 4 + |values[0]| + |EntriesBytes(values[1..])| && cursor + |EntriesBytes(values)| <= |bytes|
    ensures U32At(bytes, cursor) == |values[0]|
  {
    var v, rest := values[0], values[1..];
    assert EntriesBytes(values) == LE(|v|, 4) + v + EntriesBytes(rest);
    hide EntriesBytes, LE, U32At, At;
    AtSplit(bytes, cursor, LE(|v|, 4) + v, EntriesBytes(rest));
    AtSplit(bytes, cursor, LE(|v|, 4), v);
    ReadU32Back(bytes, cursor, |v|);
    AtStands(bytes, cursor, EntriesBytes(values));
  }

  lemma FirstEntryText(bytes: Bytes, cursor: usize, values: seq<Bytes>)
    requires values != [] && At(bytes, cursor, EntriesBytes(values))
    ensures cursor + 4 + |values[0]| <= |bytes| && bytes[cursor + 4..cursor + 4 + |values[0]|] == values[0]
  {
    var v, rest := values[0], values[1..];
    assert EntriesBytes(values) == LE(|v|, 4) + v + EntriesBytes(rest);
    hide EntriesBytes, LE, At;
    AtSplit(bytes, cursor, LE(|v|, 4) + v, EntriesBytes(rest));
    AtSplit(bytes, cursor, LE(|v|, 4), v);
    AtStands(bytes, cursor + 4, v);
  }

  lemma LaterEntriesStand(bytes: Bytes, cursor: usize, values: seq<Bytes>)
    requires values != [] && At(bytes, cursor, EntriesBytes(values))
    ensures At(bytes, cursor + 4 + |values[0]|, EntriesBytes(values[1..]))
  {
    assert EntriesBytes(values) == LE(|values[0]|, 4) + values[0] + EntriesBytes(values[1..]);
    hide EntriesBytes, LE, At;
    AtSplit(bytes, cursor, LE(|values[0]|, 4) + values[0], EntriesBytes(values[1..]));
  }

  lemma AtStands(bytes: Bytes, offset: nat, field: Bytes)
    requires At(bytes, offset, field)
    ensures offset + |field| <= |bytes| && bytes[offset..offset + |field|] == field
  {
  }

  lemma {:induction false} EntriesSound(env: Env, bytes: Bytes, cursor: usize, end: usize, count: nat)
    requires cursor <= |bytes| < ISIZE_LIMIT
    requires ReadEntries(env, bytes, cursor, end, count).Ok?
    ensures var (values, last) := ReadEntries(env, bytes, cursor, end, count).value;
            && At(bytes, cursor, EntriesBytes(values)) && last == cursor + |EntriesBytes(values)|
            && AllUtf8(env, values)
    decreases count
  {
    hide ReadEntries, At, U32At, LE, EntriesBytes, AllUtf8;
    if count == 0 {
      EmptyListRead(env, bytes, cursor, end);
    } else {
      FirstEntry(env, bytes, cursor, end, count);
      var body := cursor + 4;
      var text := bytes[body..body + U32At(bytes, cursor)];
      var (rest, last) := ReadEntries(env, bytes, body + |text|, end, count - 1).value;
      EntriesSound(env, bytes, body + |text|, end, count - 1);
      EntryJoins(bytes, cursor, text, rest);
      OneMoreUtf8(env, text, rest);
    }
  }

  lemma EmptyListRead(env: Env, bytes: Bytes, cursor: usize, end: usize)
    requires cursor <= |bytes| < ISIZE_LIMIT
    ensures ReadEntries(env, bytes, cursor, end, 0) == Ok(([], cursor))
    ensures At(bytes, cursor, EntriesBytes([])) && EntriesBytes([]) == [] && AllUtf8(env, [])
  {
  }

  lemma OneMoreUtf8(env: Env, text: Bytes, rest: seq<Bytes>)
    requires env.utf8(text) && AllUtf8(env, rest)
    ensures AllUtf8(env, [text] + rest)
  {
  }

  /** A successful read of a list takes its first entry and goes on behind it. */
  lemma FirstEntry(env: Env, bytes: Bytes, cursor: usize, end: usize, count: nat)
    requires cursor <= |bytes| < ISIZE_LIMIT && count > 0
    requires ReadEntries(env, bytes, cursor, end, count).Ok?
    ensures cursor + 4 <= |bytes| && cursor + 4 + U32At(bytes, cursor) <= |bytes|
    ensures var len, body := U32At(bytes, cursor), cursor + 4;
            var tail := ReadEntries(env, bytes, body + len, end, count - 1);
            && tail.Ok? && env.utf8(bytes[body..body + len]) && At(bytes, cursor, LE(len, 4)) && At(bytes, body, bytes[body..body + len])
            && ReadEntries(env, bytes, cursor, end, count).value == ([bytes[body..body + len]] + tail.value.0, tail.value.1)
  {
    hide LE;
    U32Canonical(bytes, cursor);
  }

  lemma EntryJoins(bytes: Bytes, cursor: nat, text: Bytes, rest: seq<Bytes>)
    requires At(bytes, cursor, LE(|text|, 4)) && At(bytes, cursor + 4, text) && At(bytes, cursor + 4 + |text|, EntriesBytes(rest))
    ensures At(bytes, cursor, EntriesBytes([text] + rest)) && |EntriesBytes([text] + rest)| == 4 + |text| + |EntriesBytes(rest)|
  {
    hide LE, At;
    AtSplit(bytes, cursor, LE(|text|, 4), text);
    AtSplit(bytes, cursor, LE(|text|, 4) + text, EntriesBytes(rest));
    var all := [text] + rest;
    assert all[1..] == rest && all[0] == text;
  }

  lemma AtEnds(bytes: Bytes, offset: nat, part: Bytes)
    requires At(bytes, offset, part)
    ensures offset + |part| <= |bytes|
  {
  }

  lemma ListReadBack(env: Env, bytes: Bytes, stringBase: usize, stringEnd: usize, at: usize, offset: usize, values: seq<Bytes>)
    requires |bytes| < ISIZE_LIMIT && At(bytes, at, BlobRef(offset, |ListBytes(values)|))
    requires At(bytes, stringBase + offset, ListBytes(values)) && |ListBytes(values)| < U32_LIMIT
    requires stringBase + offset + |ListBytes(values)| <= stringEnd
    ensures ReadStringList(env, bytes, stringBase, stringEnd, at)
            == if AllUtf8(env, values) then Ok(values) else Err(InvalidUtf8)
  {
    hide ReadEntries, EntriesBytes, LE, AllUtf8, At;
    var start, len := stringBase + offset, |ListBytes(values)|;
    AtSplit(bytes, at, LE(offset, 8), LE(len, 4));
    ReadU64Back(bytes, at, offset);
    ReadU32Back(bytes, at + 8, len);
    AtEnds(bytes, start, ListBytes(values));
    AtSplit(bytes, start, LE(|values|, 4), EntriesBytes(values));
    CountBelowSize(values);
    ReadU32Back(bytes, start, |values|);
    EntriesReadBack(env, bytes, start + 4, values);
  }

  lemma {:induction false} CountBelowSize(values: seq<Bytes>)
    ensures 4 * |values| <= |EntriesBytes(values)|
  {
    if values != [] { CountBelowSize(values[1..]); }
  }

  /** An accepted list occupies exactly the writer's encoding of it, inside the string section. */
  lemma AcceptedListIsCanonical(env: Env, bytes: Bytes, stringBase: usize, stringEnd: usize, at: usize)
    requires at + 12 <= |bytes| < ISIZE_LIMIT
    requires ReadStringList(env, bytes, stringBase, stringEnd, at).Ok?
    ensures var values := ReadStringList(env, bytes, stringBase, stringEnd, at).value;
            var start := stringBase + U64At(bytes, at);
            && At(bytes, start, ListBytes(values)) && |ListBytes(values)| == U32At(bytes, at + 8)
            && start + |ListBytes(values)| <= stringEnd
            && AllUtf8(env, values)
  {
    hide ReadEntries, EntriesBytes;
    var start := stringBase + U64At(bytes, at);
    var blobLen := U32At(bytes, at + 8);
    var count := U32At(bytes, start);
    EntriesSound(env, bytes, start + 4, start + blobLen, count);
    var (values, last) := ReadEntries(env, bytes, start + 4, start + blobLen, count).value;
    U32Canonical(bytes, start);
    AtSplit(bytes, start, LE(count, 4), EntriesBytes(values));
  }

  lemma StringReadBack(env: Env, bytes: Bytes, stringBase: usize, stringEnd: usize, at: usize, offset: usize, text: Bytes)
    requires |bytes| < ISIZE_LIMIT && At(bytes, at, BlobRef(offset, |text|)) && |text| < U32_LIMIT
    requires At(bytes, stringBase + offset, text) && stringBase + offset + |text| <= stringEnd
    ensures U64At(bytes, at) == offset
    ensures ReadString(env, bytes, stringBase, stringEnd, at) == if env.utf8(text) then Ok(text) else Err(InvalidUtf8)
  {
    AtSplit(bytes, at, LE(offset, 8), LE(|text|, 4));
    ReadU64Back(bytes, at, offset);
    ReadU32Back(bytes, at + 8, |text|);
  }

  lemma UriReadBack(env: Env, bytes: Bytes, stringBase: usize, stringEnd: usize, at: usize, offset: usize, uri: Option<Bytes>)
    requires |bytes| < ISIZE_LIMIT && At(bytes, at, UriRef(uri, offset)) && |UriBytes(uri)| < U32_LIMIT
    requires offset < ISIZE_LIMIT
    requires At(bytes, stringBase + offset, UriBytes(uri)) && stringBase + offset + |UriBytes(uri)| <= stringEnd
    ensures ReadOptionalString(env, bytes, stringBase, stringEnd, at)
            == if uri.Some? && !env.utf8(uri.value) then Err(InvalidUtf8) else Ok(uri)
  {
    match uri {
      case Some(text) => StringReadBack(env, bytes, stringBase, stringEnd, at, offset, text);
      case None =>
        AtSplit(bytes, at, LE(NONE_OFFSET, 8), LE(NONE_LEN, 4));
        ReadU64Back(bytes, at, NONE_OFFSET);
        ReadU32Back(bytes, at + 8, NONE_LEN);
    }
  }

  // ---------------------------------------------------------------- relations

  lemma EdgeReadBack(bytes: Bytes, offset: usize, e: RelationEdge)
    requires |bytes| < ISIZE_LIMIT && At(bytes, offset, EdgeBytes(e))
    ensures ReadRelation(bytes, offset) == Ok(e)
  {
    Pow256Values();
    var weight := LE(ToUnsigned(e.weight, 2), 2);
    AtSplit5(bytes, offset, LE(e.from, 16), LE(e.to, 16), [KindByte(e.kind)], weight, [0, 0]);
    ReadU128Back(bytes, offset, e.from);
    ReadU128Back(bytes, offset + 16, e.to);
    ReadBack(bytes, offset + 33, ToUnsigned(e.weight, 2), 2);
    assert bytes[offset + 32] == bytes[offset + 32..offset + 33][0];
    assert bytes[offset + 32] == KindByte(e.kind);
  }

  lemma {:induction false} EdgesReadBack(bytes: Bytes, offset: usize, es: seq<RelationEdge>, owner: u128)
    requires |bytes| < ISIZE_LIMIT && At(bytes, offset, EdgesBytes(es))
    ensures ReadEdges(bytes, offset, |es|, owner)
            == if (forall e :: e in es ==> e.from == owner) then Ok(es) else Err(ForeignRelation)
    decreases |es|
  {
    hide ReadRelation;
    if es != [] {
      AtSplit(bytes, offset, EdgeBytes(es[0]), EdgesBytes(es[1..]));
      EdgeReadBack(bytes, offset, es[0]);
      EdgesReadBack(bytes, offset + RELATION_LEN, es[1..], owner);
      assert es == [es[0]] + es[1..];
    }
  }

  lemma {:induction false} EdgesSound(bytes: Bytes, offset: usize, count: nat, owner: u128)
    requires offset + RELATION_LEN * count <= |bytes| < ISIZE_LIMIT
    requires ReadEdges(bytes, offset, count, owner).Ok?
    ensures var es := ReadEdges(bytes, offset, count, owner).value;
            |es| == count && forall e :: e in es ==> e.from == owner
    decreases count
  {
    hide ReadRelation;
    if count > 0 { EdgesSound(bytes, offset + RELATION_LEN, count - 1, owner); }
  }

  // ---------------------------------------------------------------- windows of several fields

  lemma AtSplit3(bytes: Bytes, offset: nat, a: Bytes, b: Bytes, c: Bytes)
    ensures At(bytes, offset, a + b + c) <==>
            At(bytes, offset, a) && At(bytes, offset + |a|, b) && At(bytes, offset + |a| + |b|, c)
  {
    AtSplit(bytes, offset, a + b, c);
    AtSplit(bytes, offset, a, b);
  }

  lemma AtSplit5(bytes: Bytes, offset: nat, a: Bytes, b: Bytes, c: Bytes, d: Bytes, e: Bytes)
    ensures At(bytes, offset, a + b + c + d + e) <==>
            && At(bytes, offset, a) && At(bytes, offset + |a|, b) && At(bytes, offset + |a| + |b|, c)
            && At(bytes, offset + |a| + |b| + |c|, d) && At(bytes, offset + |a| + |b| + |c| + |d|, e)
  {
    AtSplit(bytes, offset, a + b + c + d, e);
    AtSplit(bytes, offset, a + b + c, d);
    AtSplit3(bytes, offset, a, b, c);
  }

  lemma AtSplit8(bytes: Bytes, offset: nat, a: Bytes, b: Bytes, c: Bytes, d: Bytes, e: Bytes, f: Bytes, g: Bytes, h: Bytes)
    requires At(bytes, offset, a + b + c + d + e + f + g + h)
    ensures At(bytes, offset, a) && At(bytes, offset + |a|, b) && At(bytes, offset + |a| + |b|, c)
    ensures At(bytes, offset + |a| + |b| + |c|, d) && At(bytes, offset + |a| + |b| + |c| + |d|, e)
    ensures At(bytes, offset + |a| + |b| + |c| + |d| + |e|, f)
    ensures At(bytes, offset + |a| + |b| + |c| + |d| + |e| + |f|, g)
    ensures At(bytes, offset + |a| + |b| + |c| + |d| + |e| + |f| + |g|, h)
  {
    AtSplit(bytes, offset, a + b + c + d + e + f + g, h);
    AtSplit(bytes, offset, a + b + c + d + e + f, g);
    AtSplit(bytes, offset, a + b + c + d + e, f);
    AtSplit5(bytes, offset, a, b, c, d, e);
  }

  // ---------------------------------------------------------------- one metadata record

  lemma BitsReadBack(bytes: Bytes, at: nat, bits: SemanticBits)
    requires At(bytes, at, BitsBytes(bits))
    ensures ReadBits(bytes, at) == bits
  {
    AtSplit(bytes, at, LE(bits[0], 8) + LE(bits[1], 8) + LE(bits[2], 8), LE(bits[3], 8));
    AtSplit3(bytes, at, LE(bits[0], 8), LE(bits[1], 8), LE(bits[2], 8));
    ReadU64Back(bytes, at, bits[0]);
    ReadU64Back(bytes, at + 8, bits[1]);
    ReadU64Back(bytes, at + 16, bits[2]);
    ReadU64Back(bytes, at + 24, bits[3]);
  }

  lemma ResidualReadBack(bytes: Bytes, at: nat, residual: Residual)
    requires At(bytes, at, ResidualBytes(residual))
    ensures ReadResidual(bytes, at) == residual
  {
    Pow256Values();
    forall i | 0 <= i < 64 ensures ReadResidual(bytes, at)[i] == residual[i] {
      assert bytes[at..at + 64][i] == ResidualBytes(residual)[i];
    }
  }

  lemma IdentityReadBack(bytes: Bytes, at: nat, c: Capsule)
    requires At(bytes, at, IdentityBlock(c))
    ensures U128At(bytes, at) == c.id && U64At(bytes, at + 16) == c.tenantId && U64At(bytes, at + 24) == c.sourceId
    ensures bytes[at + 32..at + 64] == c.sourceHash
    ensures ReadBits(bytes, at + 64) == c.semanticBits && ReadResidual(bytes, at + 96) == c.residual
  {
    AtSplit(bytes, at,
            LE(c.id, 16) + LE(c.tenantId, 8) + LE(c.sourceId, 8) + c.sourceHash + BitsBytes(c.semanticBits),
            ResidualBytes(c.residual));
    AtSplit5(bytes, at, LE(c.id, 16), LE(c.tenantId, 8), LE(c.sourceId, 8), c.sourceHash, BitsBytes(c.semanticBits));
    ReadU128Back(bytes, at, c.id);
    ReadU64Back(bytes, at + 16, c.tenantId);
    ReadU64Back(bytes, at + 24, c.sourceId);
    BitsReadBack(bytes, at + 64, c.semanticBits);
    ResidualReadBack(bytes, at + 96, c.residual);
  }

  lemma GateReadBack(bytes: Bytes, at: nat, c: Capsule)
    requires At(bytes, at, GateBlock(c))
    ensures I64At(bytes, at) == c.validFrom && I64At(bytes, at + 8) == UntilRaw(c.validUntil)
    ensures I64At(bytes, at + 16) == c.observedAt && I64At(bytes, at + 24) == c.lastVerifiedAt
    ensures U128At(bytes, at + 32) == c.contextMask && U128At(bytes, at + 48) == c.policyMask
    ensures bytes[at + 64] == c.trustLevel && bytes[at + 65] == c.classification && bytes[at + 66] == c.poisonRisk
  {
    hide LE, I64Bytes, I64At, U128At, At;
    AtEnds(bytes, at, GateBlock(c));
    var times := I64Bytes(c.validFrom) + I64Bytes(UntilRaw(c.validUntil)) + I64Bytes(c.observedAt) + I64Bytes(c.lastVerifiedAt);
    var levels := [c.trustLevel, c.classification, c.poisonRisk, 0];
    AtSplit(bytes, at, times + LE(c.contextMask, 16) + LE(c.policyMask, 16), levels);
    AtSplit3(bytes, at, times, LE(c.contextMask, 16), LE(c.policyMask, 16));
    AtSplit(bytes, at, I64Bytes(c.validFrom) + I64Bytes(UntilRaw(c.validUntil)) + I64Bytes(c.observedAt), I64Bytes(c.lastVerifiedAt));
    AtSplit3(bytes, at, I64Bytes(c.validFrom), I64Bytes(UntilRaw(c.validUntil)), I64Bytes(c.observedAt));
    ReadI64Back(bytes, at, c.validFrom);
    ReadI64Back(bytes, at + 8, UntilRaw(c.validUntil));
    ReadI64Back(bytes, at + 16, c.observedAt);
    ReadI64Back(bytes, at + 24, c.lastVerifiedAt);
    ReadU128Back(bytes, at + 32, c.contextMask);
    ReadU128Back(bytes, at + 48, c.policyMask);
    LevelsReadBack(bytes, at + 64, levels);
  }

  lemma LevelsReadBack(bytes: Bytes, at: nat, levels: Bytes)
    requires At(bytes, at, levels) && |levels| == 4
    ensures bytes[at] == levels[0] && bytes[at + 1] == levels[1] && bytes[at + 2] == levels[2]
  {
    var window := bytes[at..at + 4];
    assert bytes[at] == window[0] && bytes[at + 1] == window[1] && bytes[at + 2] == window[2];
  }

  /** A capsule's record, strings and edges stand where the writer put them. */
  ghost predicate Stored(bytes: Bytes, base: usize, stringBase: usize, relationBase: usize, relationEnd: usize, c: Capsule, s: nat, r: nat) {
    && relationEnd <= |bytes| < ISIZE_LIMIT
    && At(bytes, base, Metadata(c, s, r))
    && At(bytes, stringBase + s, StringBlob(c)) && stringBase + s + |StringBlob(c)| <= relationBase
    && At(bytes, relationBase + r, EdgesBytes(c.relationEdges))
    && relationBase + r + RELATION_LEN * |c.relationEdges| <= relationEnd
  }

  /** Where the five references of a stored capsule stand, and where what they refer to does. */
  lemma ReferencesStand(bytes: Bytes, base: usize, c: Capsule, s: nat, r: nat)
    requires At(bytes, base, Metadata(c, s, r))
    ensures var s1 := s + |c.claim|;
            var s2 := s1 + |c.evidence|;
            var s3 := s2 + |UriBytes(c.sourceUri)|;
            var s4 := s3 + |ListBytes(c.anchors)|;
            && At(bytes, base + 228, BlobRef(s, |c.claim|)) && At(bytes, base + 240, BlobRef(s1, |c.evidence|))
            && At(bytes, base + 252, UriRef(c.sourceUri, s2))
            && At(bytes, base + 264, BlobRef(s3, |ListBytes(c.anchors)|))
            && At(bytes, base + 276, BlobRef(s4, |ListBytes(c.entities)|))
            && At(bytes, base + 288, LE(r, 8) + LE(|c.relationEdges|, 4))
            && At(bytes, base + 300, c.contentHash)
  {
    hide At, LE, IdentityBlock, GateBlock, BlobRef, UriRef, ListBytes, UriBytes;
    var s1 := s + |c.claim|;
    var s2 := s1 + |c.evidence|;
    var s3 := s2 + |UriBytes(c.sourceUri)|;
    var s4 := s3 + |ListBytes(c.anchors)|;
    AtSplit3(bytes, base, IdentityBlock(c), GateBlock(c), RefBlock(c, s, r));
    AtSplit8(bytes, base + 228,
             BlobRef(s, |c.claim|), BlobRef(s1, |c.evidence|), UriRef(c.sourceUri, s2),
             BlobRef(s3, |ListBytes(c.anchors)|), BlobRef(s4, |ListBytes(c.entities)|),
             LE(r, 8) + LE(|c.relationEdges|, 4), c.contentHash, Zeros(8));
  }

  lemma ScalarsReadBack(bytes: Bytes, base: usize, c: Capsule, s: nat, r: nat)
    requires At(bytes, base, Metadata(c, s, r)) && r < ISIZE_LIMIT && |c.relationEdges| < U32_LIMIT
    ensures base + METADATA_LEN <= |bytes|
    ensures U64At(bytes, base + 288) == r && U32At(bytes, base + 296) == |c.relationEdges|
    ensures bytes[base + 300..base + 332] == c.contentHash
  {
    hide Metadata, LE;
    ReferencesStand(bytes, base, c, s, r);
    AtSplit(bytes, base + 288, LE(r, 8), LE(|c.relationEdges|, 4));
    ReadU64Back(bytes, base + 288, r);
    ReadU32Back(bytes, base + 296, |c.relationEdges|);
  }

  /** The text fields of a stored capsule, read in the parser's order. */
  lemma StringsReadBack(env: Env, bytes: Bytes, base: usize, stringBase: usize, stringEnd: usize, c: Capsule, s: nat, r: nat)
    requires |bytes| < ISIZE_LIMIT && stringEnd <= |bytes| && Sized(c) && At(bytes, base, Metadata(c, s, r))
    requires At(bytes, stringBase + s, StringBlob(c)) && stringBase + s + |StringBlob(c)| <= stringEnd
    ensures base + METADATA_LEN <= |bytes|
    ensures ReadString(env, bytes, stringBase, stringEnd, base + 228) == if env.utf8(c.claim) then Ok(c.claim) else Err(InvalidUtf8)
    ensures ReadString(env, bytes, stringBase, stringEnd, base + 240) == if env.utf8(c.evidence) then Ok(c.evidence) else Err(InvalidUtf8)
    ensures ReadOptionalString(env, bytes, stringBase, stringEnd, base + 252)
            == if c.sourceUri.Some? && !env.utf8(c.sourceUri.value) then Err(InvalidUtf8) else Ok(c.sourceUri)
  {
    hide ReadString, ReadOptionalString, At, LE, Metadata, BlobRef, UriRef, UriBytes, ListBytes, StringBlob;
    ScalarBounds(bytes, base, c, s, r);
    ReferencesStand(bytes, base, c, s, r);
    BlobsStand(bytes, stringBase + s, c);
    var s1: usize := s + |c.claim|;
    var s2: usize := s1 + |c.evidence|;
    StringReadBack(env, bytes, stringBase, stringEnd, base + 228, s, c.claim);
    StringReadBack(env, bytes, stringBase, stringEnd, base + 240, s1, c.evidence);
    UriReadBack(env, bytes, stringBase, stringEnd, base + 252, s2, c.sourceUri);
  }

  lemma ListsReadBack(env: Env, bytes: Bytes, base: usize, stringBase: usize, stringEnd: usize, c: Capsule, s: nat, r: nat)
    requires |bytes| < ISIZE_LIMIT && stringEnd <= |bytes| && Sized(c) && At(bytes, base, Metadata(c, s, r))
    requires At(bytes, stringBase + s, StringBlob(c)) && stringBase + s + |StringBlob(c)| <= stringEnd
    ensures base + METADATA_LEN <= |bytes|
    ensures ReadStringList(env, bytes, stringBase, stringEnd, base + 264) == if AllUtf8(env, c.anchors) then Ok(c.anchors) else Err(InvalidUtf8)
    ensures ReadStringList(env, bytes, stringBase, stringEnd, base + 276) == if AllUtf8(env, c.entities) then Ok(c.entities) else Err(InvalidUtf8)
  {
    hide ReadStringList, At, LE, Metadata, BlobRef, UriRef, AllUtf8, UriBytes, ListBytes, StringBlob;
    ScalarBounds(bytes, base, c, s, r);
    ReferencesStand(bytes, base, c, s, r);
    BlobsStand(bytes, stringBase + s, c);
    var s3: usize := s + |c.claim| + |c.evidence| + |UriBytes(c.sourceUri)|;
    var s4: usize := s3 + |ListBytes(c.anchors)|;
    ListReadBack(env, bytes, stringBase, stringEnd, base + 264, s3, c.anchors);
    ListReadBack(env, bytes, stringBase, stringEnd, base + 276, s4, c.entities);
  }

  lemma BlobsStand(bytes: Bytes, at: nat, c: Capsule)
    requires At(bytes, at, StringBlob(c))
    ensures var a1 := at + |c.claim|;
            var a2 := a1 + |c.evidence|;
            var a3 := a2 + |UriBytes(c.sourceUri)|;
            var a4 := a3 + |ListBytes(c.anchors)|;
            && At(bytes, at, c.claim) && At(bytes, a1, c.evidence) && At(bytes, a2, UriBytes(c.sourceUri))
            && At(bytes, a3, ListBytes(c.anchors)) && At(bytes, a4, ListBytes(c.entities))
            && a4 + |ListBytes(c.entities)| == at + |StringBlob(c)|
  {
    hide At, ListBytes, UriBytes;
    AtSplit5(bytes, at, c.claim, c.evidence, UriBytes(c.sourceUri), ListBytes(c.anchors), ListBytes(c.entities));
  }

  lemma ScalarBounds(bytes: Bytes, base: usize, c: Capsule, s: nat, r: nat)
    requires At(bytes, base, Metadata(c, s, r))
    ensures base + METADATA_LEN <= |bytes|
  {
  }

  lemma RelationsReadBack(bytes: Bytes, relationBase: usize, relationEnd: usize, r: nat, es: seq<RelationEdge>, owner: u128)
    requires relationEnd <= |bytes| < ISIZE_LIMIT && |es| < U32_LIMIT
    requires At(bytes, relationBase + r, EdgesBytes(es)) && relationBase + r + RELATION_LEN * |es| <= relationEnd
    ensures ReadRelations(bytes, relationBase, relationEnd, r, |es|, owner)
            == if (forall e :: e in es ==> e.from == owner) then Ok(es) else Err(ForeignRelation)
  {
    hide ReadEdges, At, EdgesBytes, CheckedMul, CheckedAdd;
    AtEnds(bytes, relationBase + r, EdgesBytes(es));
    EdgesReadBack(bytes, relationBase + r, es, owner);
  }

  /** A stored capsule is read back whole, its embedding aside, exactly when it is loadable. */
  lemma CapsuleReadBack(env: Env, bytes: Bytes, base: usize, stringBase: usize, relationBase: usize, relationEnd: usize, c: Capsule, s: nat, r: nat)
    requires Stored(bytes, base, stringBase, relationBase, relationEnd, c, s, r) && Sized(c)
    ensures base + METADATA_LEN <= |bytes|
    ensures var read := ReadCapsule(env, bytes, base, stringBase, relationBase, relationEnd);
            if Loadable(env, c) then read == Ok(c.(embedding := [])) else read.Err?
  {
    hide ReadString, ReadOptionalString, ReadStringList, ReadRelations, ReadBits, ReadResidual, I64At, U64At, U32At, U128At;
    AtSplit3(bytes, base, IdentityBlock(c), GateBlock(c), RefBlock(c, s, r));
    IdentityReadBack(bytes, base, c);
    GateReadBack(bytes, base + 160, c);
    StringsReadBack(env, bytes, base, stringBase, relationBase, c, s, r);
    ListsReadBack(env, bytes, base, stringBase, relationBase, c, s, r);
    ScalarsReadBack(bytes, base, c, s, r);
    RelationsReadBack(bytes, relationBase, relationEnd, r, c.relationEdges, c.id);
  }

  // ---------------------------------------------------------------- the tables

  function Stripped(cs: seq<Capsule>): (r: seq<Capsule>)
    ensures |r| == |cs|
  {
    if cs == [] then [] else [cs[0].(embedding := [])] + Stripped(cs[1..])
  }

  /** The areas of `cs`, from the given positions on. */
  ghost predicate AreasStand(bytes: Bytes, table: nat, strings: nat, stringEnd: nat, relations: nat, relationEnd: nat, cs: seq<Capsule>, s: nat, r: nat) {
    && relationEnd <= |bytes| < ISIZE_LIMIT
    && At(bytes, table, MetadataTable(cs, s, r))
    && At(bytes, strings + s, StringArea(cs)) && strings + s + |StringArea(cs)| <= stringEnd
    && At(bytes, relations + r, RelationArea(cs)) && relations + r + |RelationArea(cs)| <= relationEnd
  }

  lemma AreasSplit(bytes: Bytes, table: nat, strings: nat, stringEnd: nat, relations: nat, relationEnd: nat, cs: seq<Capsule>, s: nat, r: nat)
    requires AreasStand(bytes, table, strings, stringEnd, relations, relationEnd, cs, s, r) && cs != []
    ensures stringEnd < ISIZE_LIMIT ==> Stored(bytes, table, strings, stringEnd, relationEnd, cs[0], s, r) || relations != stringEnd
    ensures AreasStand(bytes, table + METADATA_LEN, strings, stringEnd, relations, relationEnd, cs[1..],
                       s + |StringBlob(cs[0])|, r + RELATION_LEN * |cs[0].relationEdges|)
  {
    hide At, Metadata, StringBlob, EdgesBytes;
    var c, rest := cs[0], cs[1..];
    AtSplit(bytes, table, Metadata(c, s, r),
            MetadataTable(rest, s + |StringBlob(c)|, r + RELATION_LEN * |c.relationEdges|));
    AtSplit(bytes, strings + s, StringBlob(c), StringArea(rest));
    AtSplit(bytes, relations + r, EdgesBytes(c.relationEdges), RelationArea(rest));
  }

  /** The ordinal loop returns the stored capsules exactly when all of them are loadable. */
  lemma {:induction false} CapsulesReadBack(env: Env, bytes: Bytes, cs: seq<Capsule>, ordinal: nat, strings: usize, relations: usize, relationEnd: usize, s: nat, r: nat)
    requires AreasStand(bytes, HEADER_LEN + METADATA_LEN * ordinal, strings, relations, relations, relationEnd, cs, s, r)
    requires AllSized(cs) && HEADER_LEN + METADATA_LEN * (ordinal + |cs|) <= |bytes|
    ensures var read := ReadCapsules(env, bytes, ordinal, ordinal + |cs|, strings, relations, relationEnd);
            if AllLoadable(env, cs) then read == Ok(Stripped(cs)) else read.Err?
    decreases |cs|
  {
    hide ReadCapsule, Loadable, Sized, At, Metadata, StringBlob, EdgesBytes;
    if cs != [] {
      var c, rest := cs[0], cs[1..];
      AreasSplit(bytes, HEADER_LEN + METADATA_LEN * ordinal, strings, relations, relations, relationEnd, cs, s, r);
      CapsuleReadBack(env, bytes, HEADER_LEN + METADATA_LEN * ordinal, strings, relations, relationEnd, c, s, r);
      CapsulesReadBack(env, bytes, rest, ordinal + 1, strings, relations, relationEnd,
                       s + |StringBlob(c)|, r + RELATION_LEN * |c.relationEdges|);
      assert cs == [c] + rest;
      assert AllLoadable(env, cs) <==> Loadable(env, c) && AllLoadable(env, rest);
    }
  }

  lemma {:induction false} LanesReadBack(bytes: Bytes, row: nat, lanes: seq<u32>)
    requires At(bytes, row, LaneBytes(lanes))
    ensures ReadLanes(bytes, row, |lanes|) == lanes
    decreases |lanes|
  {
    if lanes != [] {
      AtSplit(bytes, row, LE(lanes[0], 4), LaneBytes(lanes[1..]));
      ReadU32Back(bytes, row, lanes[0]);
      LanesReadBack(bytes, row + 4, lanes[1..]);
    }
  }

  lemma {:induction false} RowsReadBack(bytes: Bytes, row: nat, dim: nat, cs: seq<Capsule>)
    requires At(bytes, row, VectorArea(cs)) && forall c :: c in cs ==> |c.embedding| == dim
    ensures row + RowsLen(|cs|, 4 * dim) <= |bytes|
    ensures AttachRows(bytes, row, dim, Stripped(cs)) == cs
    decreases |cs|
  {
    hide LaneBytes, ReadLanes, LE;
    if cs != [] {
      hide At, AttachRows, Stripped;
      var c, rest := cs[0], cs[1..];
      AtSplit(bytes, row, LaneBytes(c.embedding), VectorArea(rest));
      LanesReadBack(bytes, row, c.embedding);
      RowsReadBack(bytes, row + 4 * dim, dim, rest);
      FirstRow(bytes, row, dim, cs);
    }
  }

  lemma FirstRow(bytes: Bytes, row: nat, dim: nat, cs: seq<Capsule>)
    requires cs != [] && row + 4 * dim + RowsLen(|cs| - 1, 4 * dim) <= |bytes| && ReadLanes(bytes, row, dim) == cs[0].embedding
    requires AttachRows(bytes, row + 4 * dim, dim, Stripped(cs[1..])) == cs[1..]
    ensures row + RowsLen(|cs|, 4 * dim) <= |bytes| && AttachRows(bytes, row, dim, Stripped(cs)) == cs
  {
    hide ReadLanes;
    assert Stripped(cs)[1..] == Stripped(cs[1..]);
    assert cs[0].(embedding := []).(embedding := cs[0].embedding) == cs[0];
    assert cs == [cs[0]] + cs[1..];
  }

  lemma {:induction false} StripNothing(cs: seq<Capsule>)
    requires forall c :: c in cs ==> c.embedding == []
    ensures Stripped(cs) == cs
  {
    if cs != [] {
      StripNothing(cs[1..]);
      assert cs == [cs[0]] + cs[1..];
    }
  }

  lemma EmbeddingsReadBack(bytes: Bytes, vectorOffset: u64, dim: u32, cs: seq<Capsule>)
    requires HEADER_LEN <= |bytes| < ISIZE_LIMIT && |cs| < ISIZE_LIMIT
    requires At(bytes, vectorOffset, VectorArea(cs)) && forall c :: c in cs ==> |c.embedding| == dim
    requires U32At(bytes, EMBED_DIM_OFFSET) == dim && U64At(bytes, VECTOR_AREA_OFFSET) == vectorOffset
    ensures ReadEmbeddings(bytes, Stripped(cs)) == Ok(cs)
  {
    hide U32At, U64At, AttachRows, Stripped, VectorArea, At, RowsLen, CheckedMul;
    if dim == 0 {
      StripNothing(cs);
    } else {
      RowsReadBack(bytes, vectorOffset, dim, cs);
      RowsInRange(bytes, vectorOffset, dim, |cs|);
    }
  }

  lemma RowsInRange(bytes: Bytes, offset: u64, dim: u32, n: nat)
    requires offset + RowsLen(n, 4 * dim) <= |bytes| < ISIZE_LIMIT && n < ISIZE_LIMIT
    ensures CheckedMul(dim, 4) == Some(4 * dim) && CheckedMul(4 * dim, n) == Some(RowsLen(n, 4 * dim))
    ensures InRange(bytes, offset, RowsLen(n, 4 * dim))
  {
    RowsLenIsProduct(n, 4 * dim);
    Commutes(n, 4 * dim);
    hide RowsLen;
  }

  lemma Commutes(a: nat, b: nat)
    ensures a * b == b * a
  {
  }

  // ---------------------------------------------------------------- the header

  lemma LayoutStands(cs: seq<Capsule>, epoch: u64, digest: Digest)
    ensures var bytes, h := Layout(cs, epoch, digest), Fields(cs, epoch);
            && At(bytes, 0, HeaderFront(h)) && At(bytes, HASH_OFFSET, digest) && At(bytes, EMBED_DIM_OFFSET, HeaderBack(h))
            && At(bytes, HEADER_LEN, MetadataTable(cs, 0, 0)) && At(bytes, h.stringOffset, StringArea(cs))
            && At(bytes, h.relationOffset, RelationArea(cs))
            && At(bytes, h.indexOffset, INDEX_MARKER + LE(|cs|, 8)) && At(bytes, h.vectorOffset, VectorArea(cs))
            && |bytes| == h.vectorOffset + |VectorArea(cs)|
  {
    var bytes, h := Layout(cs, epoch, digest), Fields(cs, epoch);
    hide HeaderFront, HeaderBack, MetadataTable, StringArea, RelationArea, VectorArea, LE, MaxDim, FirstTenant;
    assert bytes == bytes[0..0 + |bytes|];
    assert At(bytes, 0, HeaderFront(h) + digest + HeaderBack(h) + Body(cs));
    AtSplit(bytes, 0, HeaderFront(h) + digest + HeaderBack(h), Body(cs));
    AtSplit3(bytes, 0, HeaderFront(h), digest, HeaderBack(h));
    AtSplit5(bytes, HEADER_LEN, MetadataTable(cs, 0, 0), StringArea(cs), RelationArea(cs), INDEX_MARKER + LE(|cs|, 8), VectorArea(cs));
  }

  lemma HeaderReadBack(bytes: Bytes, h: HeaderFields)
    requires At(bytes, 0, HeaderFront(h)) && At(bytes, EMBED_DIM_OFFSET, HeaderBack(h))
    requires h.vectorOffset < ISIZE_LIMIT && h.embeddingDim < U32_LIMIT && h.capsuleCount < ISIZE_LIMIT
    requires h.stringOffset <= h.relationOffset <= h.indexOffset <= h.vectorOffset
    ensures |bytes| >= HEADER_LEN && ValidateHeader(bytes) == Ok(())
    ensures U64At(bytes, 16) == h.epoch && U64At(bytes, 24) == h.tenantId && U64At(bytes, 32) == h.capsuleCount
    ensures U64At(bytes, 40) == HEADER_LEN && U64At(bytes, 48) == h.stringOffset
    ensures U64At(bytes, 56) == h.relationOffset && U64At(bytes, 64) == h.indexOffset
    ensures U32At(bytes, EMBED_DIM_OFFSET) == h.embeddingDim && U64At(bytes, VECTOR_AREA_OFFSET) == h.vectorOffset
  {
    hide LE, U32At, U64At;
    AtSplit8(bytes, 0, MAGIC, LE(VERSION, 4) + LE(HEADER_LEN, 4), LE(h.epoch, 8), LE(h.tenantId, 8),
             LE(h.capsuleCount, 8), LE(HEADER_LEN, 8), LE(h.stringOffset, 8) + LE(h.relationOffset, 8), LE(h.indexOffset, 8));
    AtSplit(bytes, 8, LE(VERSION, 4), LE(HEADER_LEN, 4));
    AtSplit(bytes, 48, LE(h.stringOffset, 8), LE(h.relationOffset, 8));
    AtSplit3(bytes, EMBED_DIM_OFFSET, LE(h.embeddingDim, 4), LE(h.vectorOffset, 8), Zeros(12));
    ReadU32Back(bytes, 8, VERSION);
    ReadU32Back(bytes, 12, HEADER_LEN);
    ReadU64Back(bytes, 16, h.epoch);
    ReadU64Back(bytes, 24, h.tenantId);
    ReadU64Back(bytes, 32, h.capsuleCount);
    ReadU64Back(bytes, 40, HEADER_LEN);
    ReadU64Back(bytes, 48, h.stringOffset);
    ReadU64Back(bytes, 56, h.relationOffset);
    ReadU64Back(bytes, 64, h.indexOffset);
    ReadU32Back(bytes, EMBED_DIM_OFFSET, h.embeddingDim);
    ReadU64Back(bytes, VECTOR_AREA_OFFSET, h.vectorOffset);
  }

  /** The digest does not depend on what stands in its own field. */
  lemma HashIgnoresItself(env: Env, cs: seq<Capsule>, epoch: u64, digest: Digest)
    ensures SegmentHash(env, Layout(cs, epoch, digest)) == SegmentHash(env, Layout(cs, epoch, Zeros(32)))
  {
    hide HeaderFront, HeaderBack, Body;
    var h := Fields(cs, epoch);
    var front, back := HeaderFront(h), HeaderBack(h) + Body(cs);
    forall d: Digest ensures
        var b := front + d + HeaderBack(h) + Body(cs);
        |b| >= 104 && b[..HASH_OFFSET] + Zeros(HASH_LEN) + b[HASH_OFFSET + HASH_LEN..] == front + Zeros(32) + back
    {
      var b := front + d + HeaderBack(h) + Body(cs);
      assert b == front + d + back;
      assert b[..72] == front && b[104..] == back;
    }
    var z: Digest := Zeros(32);
    assert Layout(cs, epoch, digest) == front + digest + HeaderBack(h) + Body(cs);
    assert Layout(cs, epoch, z) == front + z + HeaderBack(h) + Body(cs);
  }

  lemma SectionsReadBack(bytes: Bytes, count: usize, stringOffset: usize, relationOffset: usize, indexOffset: usize)
    requires |bytes| < ISIZE_LIMIT && stringOffset == HEADER_LEN + METADATA_LEN * count
    requires stringOffset <= relationOffset <= indexOffset && At(bytes, indexOffset, INDEX_MARKER + LE(count, 8))
    ensures ValidateSections(bytes, count, HEADER_LEN, stringOffset, relationOffset, indexOffset) == Ok(())
  {
    AtSplit(bytes, indexOffset, INDEX_MARKER, LE(count, 8));
    ReadU64Back(bytes, indexOffset + 8, count);
  }

  // ---------------------------------------------------------------- order

  /** Sorting keeps the capsules and whether their ids repeat, and puts the ids in order. */
  lemma SortedKeeps(cs: seq<Capsule>)
    ensures |Sorted(cs)| == |cs| && multiset(Sorted(cs)) == multiset(cs)
    ensures forall i, j :: 0 <= i < j < |cs| ==> Sorted(cs)[i].id <= Sorted(cs)[j].id
    ensures forall c :: c in Sorted(cs) <==> c in cs
    ensures DistinctIds(Sorted(cs)) <==> DistinctIds(cs)
  {
    SortElements(cs, ById);
    SortSorts(cs, ById);
    DistinctIdsPermute(Sorted(cs), cs);
  }

  predicate IdInjective(cs: seq<Capsule>) {
    forall a, b :: a in cs && b in cs && a.id == b.id ==> a == b
  }

  lemma DistinctIdsDecomposed(cs: seq<Capsule>)
    ensures DistinctIds(cs) <==> Distinct(cs) && IdInjective(cs)
  {
    if DistinctIds(cs) {
      forall a, b | a in cs && b in cs && a.id == b.id ensures a == b {
        var i :| 0 <= i < |cs| && cs[i] == a;
        var j :| 0 <= j < |cs| && cs[j] == b;
      }
    }
    if Distinct(cs) && IdInjective(cs) {
      forall i, j | 0 <= i < j < |cs| ensures cs[i].id != cs[j].id {
        assert cs[i] != cs[j] && cs[i] in cs && cs[j] in cs;
      }
    }
  }

  lemma DistinctIdsPermute(xs: seq<Capsule>, ys: seq<Capsule>)
    requires multiset(xs) == multiset(ys)
    ensures DistinctIds(xs) <==> DistinctIds(ys)
  {
    SameElements(xs, ys);
    DistinctPermutation(xs, ys);
    DistinctIdsDecomposed(xs);
    DistinctIdsDecomposed(ys);
  }

  // ---------------------------------------------------------------- main results

  function AssembledSize(cs: seq<Capsule>): nat {
    HEADER_LEN + METADATA_LEN * |cs| + |StringArea(cs)| + |RelationArea(cs)| + 16 + |VectorArea(cs)|
  }

  lemma LayoutSize(cs: seq<Capsule>, epoch: u64, digest: Digest)
    ensures |Layout(cs, epoch, digest)| == AssembledSize(cs)
  {
  }

  /** Laid-out capsules of one dimension load again exactly when they are loadable with distinct ids. */
  lemma LayoutLoads(env: Env, cs: seq<Capsule>, epoch: u64, digest: Digest)
    requires AllSized(cs) && AssembledSize(cs) < ISIZE_LIMIT && forall c :: c in cs ==> |c.embedding| == MaxDim(cs)
    requires digest == SegmentHash(env, Layout(cs, epoch, digest))
    ensures |Layout(cs, epoch, digest)| < ISIZE_LIMIT
    ensures var parsed := Parse(env, Layout(cs, epoch, digest));
            if AllLoadable(env, cs) && DistinctIds(cs) then parsed == Ok(Segment(epoch, FirstTenant(cs), cs))
            else parsed.Err?
  {
    hide Layout, Body, AllLoadable, AllSized, At, MetadataTable, StringArea, RelationArea, VectorArea, MaxDim, FirstTenant;
    hide HeaderFront, HeaderBack, ReadCapsules, ReadEmbeddings, ValidateHeader, ValidateSections, U64At, U32At, SegmentHash, Parse, DistinctIds;
    var bytes, h := Layout(cs, epoch, digest), Fields(cs, epoch);
    LayoutSize(cs, epoch, digest);
    LayoutStands(cs, epoch, digest);
    DimFits(cs);
    HeaderReadBack(bytes, h);
    SectionsReadBack(bytes, |cs|, h.stringOffset, h.relationOffset, h.indexOffset);
    AreasFromLayout(bytes, cs, h);
    CapsulesReadBack(env, bytes, cs, 0, h.stringOffset, h.relationOffset, h.indexOffset, 0, 0);
    EmbeddingsReadBack(bytes, h.vectorOffset, h.embeddingDim, cs);
    StoredDigest(bytes, digest);
    ParseFromParts(env, bytes, cs, h.stringOffset, h.relationOffset, h.indexOffset);
  }

  /** `from_bytes` put together from the results of its steps. */
  lemma ParseFromParts(env: Env, bytes: Bytes, cs: seq<Capsule>, stringOffset: u64, relationOffset: u64, indexOffset: u64)
    requires HEADER_LEN <= |bytes| < ISIZE_LIMIT && ValidateHeader(bytes) == Ok(())
    requires bytes[HASH_OFFSET..HASH_OFFSET + HASH_LEN] == SegmentHash(env, bytes)
    requires U64At(bytes, 32) == |cs| && U64At(bytes, 40) == HEADER_LEN
    requires U64At(bytes, 48) == stringOffset && U64At(bytes, 56) == relationOffset && U64At(bytes, 64) == indexOffset
    requires ValidateSections(bytes, |cs|, HEADER_LEN, stringOffset, relationOffset, indexOffset) == Ok(())
    requires var read := ReadCapsules(env, bytes, 0, |cs|, stringOffset, relationOffset, indexOffset);
             if AllLoadable(env, cs) then read == Ok(Stripped(cs)) else read.Err?
    requires |cs| < ISIZE_LIMIT && ReadEmbeddings(bytes, Stripped(cs)) == Ok(cs)
    ensures var parsed := Parse(env, bytes);
            if AllLoadable(env, cs) && DistinctIds(cs) then parsed == Ok(Segment(U64At(bytes, 16), U64At(bytes, 24), cs))
            else parsed.Err?
  {
    hide ReadCapsules, ReadEmbeddings, ValidateHeader, ValidateSections, U64At, SegmentHash, AllLoadable, DistinctIds, Stripped, IdSet;
    IdCountDetectsRepeats(cs);
  }

  lemma DimFits(cs: seq<Capsule>)
    requires AllSized(cs)
    ensures MaxDim(cs) < U32_LIMIT
  {
  }

  lemma StoredDigest(bytes: Bytes, digest: Digest)
    requires At(bytes, HASH_OFFSET, digest)
    ensures HASH_OFFSET + HASH_LEN <= |bytes| && bytes[HASH_OFFSET..HASH_OFFSET + HASH_LEN] == digest
  {
  }

  lemma AreasFromLayout(bytes: Bytes, cs: seq<Capsule>, h: HeaderFields)
    requires |bytes| < ISIZE_LIMIT && At(bytes, HEADER_LEN, MetadataTable(cs, 0, 0))
    requires At(bytes, h.stringOffset, StringArea(cs)) && h.stringOffset + |StringArea(cs)| == h.relationOffset
    requires At(bytes, h.relationOffset, RelationArea(cs)) && h.relationOffset + |RelationArea(cs)| == h.indexOffset
    ensures AreasStand(bytes, HEADER_LEN, h.stringOffset, h.relationOffset, h.relationOffset, h.indexOffset, cs, 0, 0)
  {
  }

  /**
   The writer and the parser, for any capsules whose sizes a record can express: assembly fails
   exactly on mixed embedding widths; otherwise the parser returns exactly those capsules in id
   order when their ids are distinct and each is loadable, and an error when not.
   */
  lemma AssembledSegmentLoads(env: Env, cs: seq<Capsule>, epoch: u64)
    requires AllSized(cs) && AssembledSize(Sorted(cs)) < ISIZE_LIMIT
    ensures var built := Assemble(env, cs, epoch);
            && (built.Ok? <==> UniformDim(cs))
            && (built.Ok? ==>
                  && |built.value| < ISIZE_LIMIT
                  && var parsed := Parse(env, built.value);
                     if AllLoadable(env, cs) && DistinctIds(cs)
                     then parsed == Ok(Segment(epoch, FirstTenant(Sorted(cs)), Sorted(cs)))
                     else parsed.Err?)
  {
    var ss := Sorted(cs);
    SortedTransfers(env, cs);
    UniformMeansMax(ss);
    hide Sorted, AllSized, AllLoadable, DistinctIds, UniformDim, AssembledSize, Parse, Layout, SegmentHash, MaxDim, FirstTenant;
    if UniformDim(cs) {
      var digest := SegmentHash(env, Layout(ss, epoch, Zeros(32)));
      HashIgnoresItself(env, ss, epoch, digest);
      LayoutLoads(env, ss, epoch, digest);
    }
  }

  lemma SortedTransfers(env: Env, cs: seq<Capsule>)
    ensures AllSized(Sorted(cs)) <==> AllSized(cs)
    ensures AllLoadable(env, Sorted(cs)) <==> AllLoadable(env, cs)
    ensures UniformDim(Sorted(cs)) <==> UniformDim(cs)
    ensures DistinctIds(Sorted(cs)) <==> DistinctIds(cs)
  {
    SortedKeeps(cs);
    hide Sorted, Sized, Loadable;
  }

  /** Assembly fails exactly on mixed embedding widths. */
  lemma AssemblyFails(env: Env, cs: seq<Capsule>, epoch: u64)
    ensures Assemble(env, cs, epoch).Err? <==> !UniformDim(cs)
  {
    SortedTransfers(env, cs);
    UniformMeansMax(Sorted(cs));
    hide Sorted, Layout, SegmentHash, UniformDim, MaxDim;
  }

  lemma UniformMeansMax(cs: seq<Capsule>)
    ensures UniformDim(cs) <==> forall c :: c in cs ==> |c.embedding| == MaxDim(cs)
  {
    var dim := MaxDim(cs);
    if UniformDim(cs) {
      forall c | c in cs ensures |c.embedding| == dim {
        if dim > 0 {
          var d :| d in cs && |d.embedding| == dim;
        }
      }
    }
  }

  // ---------------------------------------------------------------- acceptance

  lemma AcceptedString(env: Env, bytes: Bytes, stringBase: usize, stringEnd: usize, at: usize)
    requires at + 12 <= |bytes| && ReadString(env, bytes, stringBase, stringEnd, at).Ok?
    ensures var text := ReadString(env, bytes, stringBase, stringEnd, at).value;
            var start := stringBase + U64At(bytes, at);
            At(bytes, start, text) && start + |text| <= stringEnd && |text| < U32_LIMIT && env.utf8(text)
  {
  }

  /** Every text of an accepted capsule lies inside the string section, every edge inside the relation section. */
  lemma AcceptedCapsule(env: Env, bytes: Bytes, base: usize, stringBase: usize, relationBase: usize, relationEnd: usize)
    requires base + METADATA_LEN <= |bytes| < ISIZE_LIMIT && relationEnd <= |bytes|
    requires ReadCapsule(env, bytes, base, stringBase, relationBase, relationEnd).Ok?
    ensures var c := ReadCapsule(env, bytes, base, stringBase, relationBase, relationEnd).value;
            && Loadable(env, c) && Sized(c) && c.embedding == []
            && Within(bytes, stringBase, relationBase, base + 228, c.claim)
            && Within(bytes, stringBase, relationBase, base + 240, c.evidence)
            && (c.sourceUri.Some? ==> Within(bytes, stringBase, relationBase, base + 252, c.sourceUri.value))
            && Within(bytes, stringBase, relationBase, base + 264, ListBytes(c.anchors))
            && Within(bytes, stringBase, relationBase, base + 276, ListBytes(c.entities))
            && relationBase + U64At(bytes, base + 288) + RELATION_LEN * |c.relationEdges| <= relationEnd
  {
    hide ReadString, ReadStringList, ReadRelations, At, ListBytes, U64At, U32At, U128At, I64At, ReadBits, ReadResidual;
    AcceptedString(env, bytes, stringBase, relationBase, base + 228);
    AcceptedString(env, bytes, stringBase, relationBase, base + 240);
    if ReadOptionalString(env, bytes, stringBase, relationBase, base + 252).value.Some? {
      AcceptedString(env, bytes, stringBase, relationBase, base + 252);
    }
    AcceptedListIsCanonical(env, bytes, stringBase, relationBase, base + 264);
    AcceptedListIsCanonical(env, bytes, stringBase, relationBase, base + 276);
    AcceptedRelations(bytes, relationBase, relationEnd, U64At(bytes, base + 288), U32At(bytes, base + 296), U128At(bytes, base));
  }

  /** The reference at `at` denotes `text`, which ends before the section does. */
  ghost predicate Within(bytes: Bytes, sectionBase: usize, sectionEnd: usize, at: usize, text: Bytes)
    requires at + 12 <= |bytes|
  {
    At(bytes, sectionBase + U64At(bytes, at), text) && sectionBase + U64At(bytes, at) + |text| <= sectionEnd
  }

  lemma AcceptedRelations(bytes: Bytes, relationBase: usize, relationEnd: usize, offset: usize, count: u32, owner: u128)
    requires relationEnd <= |bytes| < ISIZE_LIMIT
    requires ReadRelations(bytes, relationBase, relationEnd, offset, count, owner).Ok?
    ensures var es := ReadRelations(bytes, relationBase, relationEnd, offset, count, owner).value;
            && |es| == count && (forall e :: e in es ==> e.from == owner)
            && relationBase + offset + RELATION_LEN * |es| <= relationEnd
  {
    EdgesSound(bytes, relationBase + offset, count, owner);
  }

  lemma {:induction false} AcceptedCapsules(env: Env, bytes: Bytes, ordinal: nat, count: nat, stringBase: usize, relationBase: usize, relationEnd: usize)
    requires ordinal <= count && HEADER_LEN + METADATA_LEN * count <= |bytes| < ISIZE_LIMIT && relationEnd <= |bytes|
    requires ReadCapsules(env, bytes, ordinal, count, stringBase, relationBase, relationEnd).Ok?
    ensures var cs := ReadCapsules(env, bytes, ordinal, count, stringBase, relationBase, relationEnd).value;
            forall c :: c in cs ==> Loadable(env, c) && Sized(c) && c.embedding == []
    decreases count - ordinal
  {
    hide ReadCapsule, Loadable, Sized, Within;
    if ordinal < count {
      AcceptedCapsule(env, bytes, HEADER_LEN + ordinal * METADATA_LEN, stringBase, relationBase, relationEnd);
      AcceptedCapsules(env, bytes, ordinal + 1, count, stringBase, relationBase, relationEnd);
    }
  }

  /** Whatever bytes are accepted, the capsules returned are sized, loadable, distinct and of one dimension. */
  lemma AcceptedSegment(env: Env, bytes: Bytes)
    requires |bytes| < ISIZE_LIMIT && Parse(env, bytes).Ok?
    ensures var cs := Parse(env, bytes).value.capsules;
            AllLoadable(env, cs) && AllSized(cs) && DistinctIds(cs) && UniformDim(cs)
  {
    hide ReadCapsules, ReadEmbeddings, ReadCapsule;
    var count, s, r, x := U64At(bytes, 32), U64At(bytes, 48), U64At(bytes, 56), U64At(bytes, 64);
    var read := ReadCapsules(env, bytes, 0, count, s, r, x).value;
    AcceptedCapsules(env, bytes, 0, count, s, r, x);
    EmbeddingsSound(env, bytes, read);
    IdCountDetectsRepeats(Parse(env, bytes).value.capsules);
  }

  lemma EmbeddingsSound(env: Env, bytes: Bytes, cs: seq<Capsule>)
    requires HEADER_LEN <= |bytes| < ISIZE_LIMIT && |cs| < ISIZE_LIMIT
    requires forall c :: c in cs ==> Loadable(env, c) && Sized(c) && c.embedding == []
    requires ReadEmbeddings(bytes, cs).Ok?
    ensures var out := ReadEmbeddings(bytes, cs).value;
            AllLoadable(env, out) && AllSized(out) && UniformDim(out)
  {
    hide AttachRows, RowsLen, Loadable, U32At, U64At;
    var dim: nat := U32At(bytes, EMBED_DIM_OFFSET);
    var out := ReadEmbeddings(bytes, cs).value;
    if dim > 0 {
      var offset := U64At(bytes, VECTOR_AREA_OFFSET);
      RowsLenIsProduct(|cs|, 4 * dim);
      forall c | c in out ensures Loadable(env, c) && Sized(c) && |c.embedding| == dim {
        var i :| 0 <= i < |out| && out[i] == c;
        AttachRowsKeepsRest(bytes, offset, dim, cs, i);
        assert cs[i] in cs;
        EmbeddingKeepsLoadable(env, cs[i], c.embedding);
      }
    }
  }

  /** No check of the parser looks at the embedding. */
  lemma EmbeddingKeepsLoadable(env: Env, c: Capsule, embedding: seq<u32>)
    ensures Loadable(env, c) <==> Loadable(env, c.(embedding := embedding))
  {
  }

  /** Round trip: the segment read back holds the capsules written, in id order, exactly when these conditions hold. */
  lemma RoundTripExactly(env: Env, cs: seq<Capsule>, epoch: u64)
    requires AssembledSize(Sorted(cs)) < ISIZE_LIMIT
    ensures var built := Assemble(env, cs, epoch);
            (built.Ok? && |built.value| < ISIZE_LIMIT && Parse(env, built.value).Ok?
             && Parse(env, built.value).value.capsules == Sorted(cs))
            <==> AllSized(cs) && AllLoadable(env, cs) && DistinctIds(cs) && UniformDim(cs)
  {
    var built := Assemble(env, cs, epoch);
    SortedKeeps(cs);
    if AllSized(cs) && AllLoadable(env, cs) && DistinctIds(cs) && UniformDim(cs) {
      AssembledSegmentLoads(env, cs, epoch);
    }
    if built.Ok? && |built.value| < ISIZE_LIMIT && Parse(env, built.value).Ok?
       && Parse(env, built.value).value.capsules == Sorted(cs) {
      AcceptedSegment(env, built.value);
    }
  }

  /** Any accepted byte string, re-assembled and parsed again, gives its capsules back in id order. */
  lemma AcceptedReassembles(env: Env, bytes: Bytes, epoch: u64)
    requires |bytes| < ISIZE_LIMIT && Parse(env, bytes).Ok?
    requires AssembledSize(Sorted(Parse(env, bytes).value.capsules)) < ISIZE_LIMIT
    ensures var cs := Parse(env, bytes).value.capsules;
            var built := Assemble(env, cs, epoch);
            && built.Ok? && |built.value| < ISIZE_LIMIT
            && Parse(env, built.value) == Ok(Segment(epoch, FirstTenant(Sorted(cs)), Sorted(cs)))
  {
    hide Parse, Assemble;
    AcceptedSegment(env, bytes);
    AssembledSegmentLoads(env, Parse(env, bytes).value.capsules, epoch);
  }

  lemma AssembledLength(env: Env, cs: seq<Capsule>, epoch: u64)
    requires Assemble(env, cs, epoch).Ok?
    ensures |Assemble(env, cs, epoch).value| == AssembledSize(Sorted(cs))
  {
    var digest := SegmentHash(env, Layout(Sorted(cs), epoch, Zeros(32)));
    LayoutSize(Sorted(cs), epoch, digest);
  }

  /** What can become of a written segment of distinct ids: refused, or read back whole, or (sizes aside) altered. */
  lemma LoadOutcome(env: Env, cs: seq<Capsule>, epoch: u64)
    requires AssembledSize(Sorted(cs)) < ISIZE_LIMIT && Assemble(env, cs, epoch).Ok? && DistinctIds(cs)
    ensures var bytes := Assemble(env, cs, epoch).value;
            && |bytes| < ISIZE_LIMIT
            && (AllSized(cs) ==> Parse(env, bytes) == if AllLoadable(env, cs) then Ok(Segment(epoch, FirstTenant(Sorted(cs)), Sorted(cs)))
                                                    else Err(ParseError(env, bytes)))
            && (Parse(env, bytes).Ok? ==> DistinctIds(Parse(env, bytes).value.capsules))
            && (Parse(env, bytes).Ok? ==> (Parse(env, bytes).value.capsules == Sorted(cs) <==> AllSized(cs)))
  {
    hide Parse, Assemble, AllSized, AllLoadable, UniformDim, Sorted, AssembledSize, DistinctIds;
    AssembledLength(env, cs, epoch);
    var bytes := Assemble(env, cs, epoch).value;
    if AllSized(cs) { AssembledSegmentLoads(env, cs, epoch); }
    if Parse(env, bytes).Ok? {
      AcceptedSegment(env, bytes);
      RoundTripExactly(env, cs, epoch);
    }
  }

  ghost function ParseError(env: Env, bytes: Bytes): Error
    requires |bytes| < ISIZE_LIMIT
  {
    match Parse(env, bytes)
    case Err(e) => e
    case Ok(_) => OutOfBounds
  }

  // ---------------------------------------------------------------- the end the format cannot express

  /** The largest second is how the format writes "no end". */
  function Ended(c: Capsule): Capsule {
    if c.validUntil == Some(NONE_I64) then c.(validUntil := None) else c
  }

  function AllEnded(cs: seq<Capsule>): (r: seq<Capsule>)
    ensures |r| == |cs|
  {
    seq(|cs|, i requires 0 <= i < |cs| => Ended(cs[i]))
  }

  lemma EndedRecord(c: Capsule, s: nat, r: nat)
    ensures Metadata(Ended(c), s, r) == Metadata(c, s, r) && StringBlob(Ended(c)) == StringBlob(c)
  {
    hide LE, ListBytes, BitsBytes, ResidualBytes, I64Bytes, Zeros, BlobRef;
  }

  lemma TableFirst(cs: seq<Capsule>, s: nat, r: nat)
    requires cs != []
    ensures MetadataTable(cs, s, r)
            == Metadata(cs[0], s, r) + MetadataTable(cs[1..], s + |StringBlob(cs[0])|, r + RELATION_LEN * |cs[0].relationEdges|)
  {
    hide Metadata, StringBlob;
  }

  lemma {:induction false} EndedTable(cs: seq<Capsule>, s: nat, r: nat)
    ensures MetadataTable(AllEnded(cs), s, r) == MetadataTable(cs, s, r)
    decreases |cs|
  {
    hide Metadata, StringBlob, MetadataTable;
    var ended := AllEnded(cs);
    if cs == [] {
      assert ended == cs;
    } else {
      EndedRecord(cs[0], s, r);
      assert ended[1..] == AllEnded(cs[1..]) && ended[0] == Ended(cs[0]);
      TableFirst(cs, s, r);
      TableFirst(ended, s, r);
      EndedTable(cs[1..], s + |StringBlob(cs[0])|, r + RELATION_LEN * |cs[0].relationEdges|);
    }
  }

  lemma {:induction false} EndedAreas(cs: seq<Capsule>)
    ensures StringArea(AllEnded(cs)) == StringArea(cs) && RelationArea(AllEnded(cs)) == RelationArea(cs)
    ensures VectorArea(AllEnded(cs)) == VectorArea(cs)
    decreases |cs|
  {
    if cs != [] {
      EndedRecord(cs[0], 0, 0);
      EndedFirst(cs);
      hide Metadata, StringBlob, EdgesBytes, LaneBytes, AllEnded;
      EndedAreas(cs[1..]);
    }
  }

  lemma EndedFirst(cs: seq<Capsule>)
    requires cs != []
    ensures AllEnded(cs)[1..] == AllEnded(cs[1..]) && AllEnded(cs)[0] == Ended(cs[0])
  {
  }

  lemma {:induction false} EndedDim(cs: seq<Capsule>)
    ensures MaxDim(AllEnded(cs)) == MaxDim(cs)
    decreases |cs|
  {
    if cs != [] {
      assert AllEnded(cs)[1..] == AllEnded(cs[1..]) && AllEnded(cs)[0] == Ended(cs[0]);
      EndedDim(cs[1..]);
      var ended := AllEnded(cs);
      assert MaxDim(ended) == if |ended[0].embedding| >= MaxDim(ended[1..]) then |ended[0].embedding| else MaxDim(ended[1..]);
    }
  }

  lemma {:induction false} EndedSorted(cs: seq<Capsule>)
    ensures Sorted(AllEnded(cs)) == AllEnded(Sorted(cs))
    decreases |cs|
  {
    if cs != [] {
      assert AllEnded(cs)[1..] == AllEnded(cs[1..]);
      EndedSorted(cs[1..]);
      EndedInsert(cs[0], Sorted(cs[1..]));
    }
  }

  lemma {:induction false} EndedInsert(c: Capsule, cs: seq<Capsule>)
    ensures Insert(Ended(c), AllEnded(cs), ById) == AllEnded(Insert(c, cs, ById))
    decreases |cs|
  {
    if cs == [] || ById(c, cs[0]) {
      assert AllEnded([c] + cs) == [Ended(c)] + AllEnded(cs);
    } else {
      assert AllEnded(cs)[1..] == AllEnded(cs[1..]);
      EndedInsert(c, cs[1..]);
      var rest := Insert(c, cs[1..], ById);
      assert AllEnded([cs[0]] + rest) == [Ended(cs[0])] + AllEnded(rest);
    }
  }

  lemma EndedLayout(cs: seq<Capsule>, epoch: u64, digest: Digest)
    ensures Layout(AllEnded(cs), epoch, digest) == Layout(cs, epoch, digest)
  {
    hide MetadataTable, StringArea, RelationArea, VectorArea, MaxDim, HeaderFront, HeaderBack, LE;
    EndedTable(cs, 0, 0);
    EndedAreas(cs);
    EndedDim(cs);
    assert Fields(AllEnded(cs), epoch) == Fields(cs, epoch);
  }

  lemma EndedMixed(cs: seq<Capsule>, d: nat)
    ensures (exists c :: c in AllEnded(cs) && |c.embedding| != d) <==> exists c :: c in cs && |c.embedding| != d
  {
    if c :| c in cs && |c.embedding| != d {
      var i :| 0 <= i < |cs| && cs[i] == c;
      assert AllEnded(cs)[i] in AllEnded(cs);
    }
    if c :| c in AllEnded(cs) && |c.embedding| != d {
      var i :| 0 <= i < |cs| && AllEnded(cs)[i] == c;
      assert cs[i] in cs;
    }
  }

  /** An end at the largest second and no end at all are written as the same bytes, so the first is lost. */
  lemma LastSecondMeansNoEnd(env: Env, cs: seq<Capsule>, epoch: u64)
    ensures Assemble(env, cs, epoch) == Assemble(env, AllEnded(cs), epoch)
  {
    hide Sorted, MaxDim, SegmentHash, Layout, AllEnded;
    var sorted := Sorted(cs);
    EndedSorted(cs);
    EndedDim(sorted);
    EndedMixed(sorted, MaxDim(sorted));
    EndedLayout(sorted, epoch, Zeros(32));
    EndedLayout(sorted, epoch, SegmentHash(env, Layout(sorted, epoch, Zeros(32))));
  }
}
