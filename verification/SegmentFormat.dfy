/**
 The segment file format, written out as a table of offsets and conditions, and the proof that
 the loader accepts exactly the files that meet it.
 */
module SegmentFormat {
  import opened Results
  import opened ByteCodec
  import opened Capsules
  import opened SegmentLayout
  import opened SegmentReader
  import opened SegmentRoundTrip

  // ---------------------------------------------------------------- numbers

  /** Byte `k` of a field is digit `k` of its number to the base 256, lowest first. */
  lemma {:induction false} Digit(b: Bytes, k: nat)
    requires k < |b|
    ensures b[k] == FromLE(b) / Pow256(k) % 256
    decreases k
  {
    var n := FromLE(b);
    assert n % 256 == b[0] && n / 256 == FromLE(b[1..]);
    if k > 0 {
      Digit(b[1..], k - 1);
      DivideTwice(n, Pow256(k - 1));
    }
  }

  lemma DivideTwice(n: nat, m: nat)
    requires m > 0
    ensures n / 256 / m == n / (256 * m)
  {
    var q, r := n / 256 / m, n / 256 % m;
    assert n / 256 == q * m + r;
    var rest := 256 * r + n % 256;
    assert n == q * (256 * m) + rest by {
      assert n == 256 * (q * m + r) + n % 256;
      assert 256 * (q * m) == q * (256 * m);
    }
    Quotient(n, 256 * m, q, rest);
  }

  lemma Quotient(n: nat, d: nat, q: nat, r: nat)
    requires d > 0 && n == q * d + r && r < d
    ensures n / d == q
  {
    assert n == n / d * d + n % d;
    if n / d > q {
      ProductGrows(q + 1, n / d, d);
      assert false;
    } else if n / d < q {
      ProductGrows(n / d + 1, q, d);
      assert false;
    }
  }

  lemma ProductGrows(a: nat, b: nat, d: nat)
    requires a <= b
    ensures a * d <= b * d
  {
  }

  /** The fields the loader reads, byte by byte; signed ones are two's complement. */
  lemma FieldsAreLittleEndian(bytes: Bytes, at: nat, k: nat)
    ensures k < 4 && at + 4 <= |bytes| ==> bytes[at + k] == U32At(bytes, at) / Pow256(k) % 256
    ensures k < 8 && at + 8 <= |bytes| ==> bytes[at + k] == U64At(bytes, at) / Pow256(k) % 256
    ensures k < 16 && at + 16 <= |bytes| ==> bytes[at + k] == U128At(bytes, at) / Pow256(k) % 256
    ensures at + 8 <= |bytes| ==> I64At(bytes, at) % 0x1_0000_0000_0000_0000 == U64At(bytes, at)
    ensures at + 2 <= |bytes| ==> I16At(bytes, at) % 0x1_0000 == bytes[at] + 0x100 * (bytes[at + 1] as int)
  {
    hide FromLE;
    Pow256Values();
    if k < 4 && at + 4 <= |bytes| { Digit(bytes[at..at + 4], k); }
    if k < 8 && at + 8 <= |bytes| { Digit(bytes[at..at + 8], k); }
    if k < 16 && at + 16 <= |bytes| { Digit(bytes[at..at + 16], k); }
    if at + 2 <= |bytes| { TwoBytes(bytes[at..at + 2]); }
  }

  lemma TwoBytes(b: Bytes)
    requires |b| == 2
    ensures FromLE(b) == b[0] + 0x100 * (b[1] as int)
  {
    assert b[1..][1..] == [];
  }

  // ---------------------------------------------------------------- the format

  /** The 12-byte reference at `at` denotes `t`, which ends by `to`. */
  predicate TextStands(env: Env, bytes: Bytes, from: nat, to: nat, at: nat, t: Bytes) {
    && at + 12 <= |bytes| && to <= |bytes|
    && var start := from + U64At(bytes, at);
       && |t| == U32At(bytes, at + 8) && start + |t| <= to && bytes[start..start + |t|] == t && env.utf8(t)
  }

  /** All ones stand for no text. */
  predicate UriStands(env: Env, bytes: Bytes, from: nat, to: nat, at: nat, uri: Option<Bytes>) {
    match uri
    case Some(t) => TextStands(env, bytes, from, to, at, t)
    case None => at + 12 <= |bytes| && U64At(bytes, at) == 0xffff_ffff_ffff_ffff && U32At(bytes, at + 8) == 0xffff_ffff
  }

  /** One text under its length, ending by `to`. */
  predicate EntryStands(env: Env, bytes: Bytes, at: nat, to: nat, value: Bytes) {
    && at + 4 + |value| <= |bytes| && U32At(bytes, at) == |value| && at + 4 + |value| <= to
    && bytes[at + 4..at + 4 + |value|] == value && env.utf8(value)
  }

  /** The texts stand one behind the other and fill the space up to `to`. */
  predicate EntriesStand(env: Env, bytes: Bytes, at: nat, to: nat, values: seq<Bytes>)
    decreases |values|
  {
    if values == [] then at == to
    else EntryStands(env, bytes, at, to, values[0]) && EntriesStand(env, bytes, at + 4 + |values[0]|, to, values[1..])
  }

  predicate ListStands(env: Env, bytes: Bytes, from: nat, to: nat, at: nat, values: seq<Bytes>) {
    && at + 12 <= |bytes| && to <= |bytes|
    && var start, len := from + U64At(bytes, at), U32At(bytes, at + 8);
       && 4 <= len && start + len <= to && U32At(bytes, start) == |values|
       && EntriesStand(env, bytes, start + 4, start + len, values)
  }

  predicate EdgeStands(bytes: Bytes, at: nat, owner: u128, e: RelationEdge) {
    && at + 37 <= |bytes| && U128At(bytes, at) == e.from == owner && U128At(bytes, at + 16) == e.to
    && bytes[at + 32] == (match e.kind
                          case Supports => 0
                          case Contradicts => 1
                          case Supersedes => 2
                          case DependsOn => 3
                          case DerivedFrom => 4
                          case DuplicateOf => 5)
    && I16At(bytes, at + 33) == e.weight
  }

  ghost predicate EdgesStand(bytes: Bytes, from: nat, to: nat, at: nat, owner: u128, es: seq<RelationEdge>) {
    && at + 12 <= |bytes| && to <= |bytes| && |es| == U32At(bytes, at + 8)
    && var start := from + U64At(bytes, at);
       && start + 37 * |es| <= to && forall i: nat :: i < |es| ==> EdgeStands(bytes, start + 37 * i, owner, es[i])
  }

  /** The fixed-width fields of the 340-byte record at `base`. */
  ghost predicate FieldsStand(bytes: Bytes, base: nat, c: Capsule) {
    && base + 340 <= |bytes|
    && U128At(bytes, base) == c.id && U64At(bytes, base + 16) == c.tenantId && U64At(bytes, base + 24) == c.sourceId
    && bytes[base + 32..base + 64] == c.sourceHash
    && (forall w: nat :: w < 4 ==> U64At(bytes, base + 64 + 8 * w) == c.semanticBits[w])
    && (forall i: nat :: i < 64 ==> bytes[base + 96 + i] == (c.residual[i] as int) % 256)
    && I64At(bytes, base + 160) == c.validFrom
    && I64At(bytes, base + 168) == (if c.validUntil.Some? then c.validUntil.value else 0x7fff_ffff_ffff_ffff)
    && c.validUntil != Some(0x7fff_ffff_ffff_ffff)
    && I64At(bytes, base + 176) == c.observedAt && I64At(bytes, base + 184) == c.lastVerifiedAt
    && U128At(bytes, base + 192) == c.contextMask && U128At(bytes, base + 208) == c.policyMask
    && bytes[base + 224] == c.trustLevel && bytes[base + 225] == c.classification && bytes[base + 226] == c.poisonRisk
    && bytes[base + 300..base + 332] == c.contentHash
  }

  /** The whole record: strings end by `relations`, edges by `index`, and both digests hold. */
  ghost predicate RecordStands(env: Env, bytes: Bytes, base: nat, strings: nat, relations: nat, index: nat, c: Capsule) {
    && FieldsStand(bytes, base, c)
    && TextStands(env, bytes, strings, relations, base + 228, c.claim)
    && TextStands(env, bytes, strings, relations, base + 240, c.evidence)
    && UriStands(env, bytes, strings, relations, base + 252, c.sourceUri)
    && ListStands(env, bytes, strings, relations, base + 264, c.anchors)
    && ListStands(env, bytes, strings, relations, base + 276, c.entities)
    && EdgesStand(bytes, relations, index, base + 288, c.id, c.relationEdges)
    && c.contentHash == env.hash(c.claim + [10] + c.evidence)
    && c.sourceHash == env.hash(if c.sourceUri.Some? then c.sourceUri.value else c.evidence)
  }

  predicate LaneStands(bytes: Bytes, at: nat, lane: u32) {
    at + 4 <= |bytes| && U32At(bytes, at) == lane
  }

  /** Where lane `j` of row `i` stands. */
  function LanePlace(offset: nat, dim: nat, i: nat, j: nat): nat {
    offset + 4 * (dim * i + j)
  }

  ghost predicate LanesStand(bytes: Bytes, offset: nat, dim: nat, cs: seq<Capsule>) {
    forall i: nat, j: nat :: i < |cs| && j < |cs[i].embedding| ==> LaneStands(bytes, LanePlace(offset, dim, i, j), cs[i].embedding[j])
  }

  ghost predicate Wide(cs: seq<Capsule>, dim: nat) {
    forall i: nat :: i < |cs| ==> |cs[i].embedding| == dim
  }

  /** One row of lanes per capsule, all of the width at 104. */
  ghost predicate VectorsStand(bytes: Bytes, cs: seq<Capsule>) {
    && 128 <= |bytes| && Wide(cs, U32At(bytes, 104))
    && (U32At(bytes, 104) > 0 ==> LanePlace(U64At(bytes, 108), U32At(bytes, 104), |cs|, 0) <= |bytes|)
    && LanesStand(bytes, U64At(bytes, 108), U32At(bytes, 104), cs)
  }

  /** The digest covers every byte, its own 32 read as zeros. */
  predicate DigestStands(env: Env, bytes: Bytes) {
    104 <= |bytes| && bytes[72..104] == env.hash(Image(bytes))
  }

  function Image(bytes: Bytes): Bytes
    requires 104 <= |bytes|
  {
    bytes[..72] + seq(32, _ => 0) + bytes[104..]
  }

  predicate HeaderStands(bytes: Bytes, g: Segment) {
    && 128 <= |bytes|
    && bytes[..8] == [0x4c, 0x35, 0x4d, 0x53, 0x45, 0x47, 0x30, 0x31] && U32At(bytes, 8) == 1 && U32At(bytes, 12) == 128
    && U64At(bytes, 16) == g.epoch && U64At(bytes, 24) == g.tenantId
    && U64At(bytes, 32) == |g.capsules| && U64At(bytes, 40) == 128
    && var strings, relations, index := U64At(bytes, 48), U64At(bytes, 56), U64At(bytes, 64);
       && strings == 128 + 340 * |g.capsules| && strings <= relations <= index && index + 16 <= |bytes|
       && bytes[index..index + 8] == [0x4c, 0x35, 0x4d, 0x49, 0x44, 0x58, 0x30, 0x31] && U64At(bytes, index + 8) == |g.capsules|
  }

  /** One record per capsule from `base` on. */
  ghost predicate Table(env: Env, bytes: Bytes, base: nat, strings: nat, relations: nat, index: nat, cs: seq<Capsule>) {
    forall i: nat :: i < |cs| ==> RecordStands(env, bytes, base + 340 * i, strings, relations, index, cs[i])
  }

  ghost predicate Format(env: Env, bytes: Bytes, g: Segment) {
    && HeaderStands(bytes, g) && DigestStands(env, bytes) && VectorsStand(bytes, g.capsules)
    && Table(env, bytes, 128, U64At(bytes, 48), U64At(bytes, 56), U64At(bytes, 64), g.capsules)
    && forall i: nat, j: nat :: i < j < |g.capsules| ==> g.capsules[i].id != g.capsules[j].id
  }

  // ---------------------------------------------------------------- piece by piece

  lemma TextExactly(env: Env, bytes: Bytes, from: usize, to: usize, at: nat, t: Bytes)
    requires at + 12 <= |bytes| && to <= |bytes| < ISIZE_LIMIT
    ensures ReadString(env, bytes, from, to, at) == Ok(t) <==> TextStands(env, bytes, from, to, at, t)
  {
    hide U64At, U32At;
  }

  lemma UriExactly(env: Env, bytes: Bytes, from: usize, to: usize, at: nat, uri: Option<Bytes>)
    requires at + 12 <= |bytes| && to <= |bytes| < ISIZE_LIMIT
    ensures ReadOptionalString(env, bytes, from, to, at) == Ok(uri) <==> UriStands(env, bytes, from, to, at, uri)
  {
    hide U64At, U32At, ReadString, TextStands;
    if uri.Some? {
      TextExactly(env, bytes, from, to, at, uri.value);
      if U64At(bytes, at) == 0xffff_ffff_ffff_ffff { AllOnesIsNoText(env, bytes, from, to, at, uri.value); }
    }
  }

  lemma AllOnesIsNoText(env: Env, bytes: Bytes, from: nat, to: nat, at: nat, t: Bytes)
    requires at + 12 <= |bytes| && to <= |bytes| < ISIZE_LIMIT && U64At(bytes, at) == 0xffff_ffff_ffff_ffff
    ensures !TextStands(env, bytes, from, to, at, t)
  {
  }

  lemma {:induction false} EntriesExactly(env: Env, bytes: Bytes, at: usize, to: usize, values: seq<Bytes>)
    requires at <= |bytes| < ISIZE_LIMIT
    ensures ReadEntries(env, bytes, at, to, |values|) == Ok((values, to)) <==> EntriesStand(env, bytes, at, to, values)
    decreases |values|
  {
    hide U32At, ReadEntries;
    if values == [] {
      NoEntriesStand(env, bytes, at, to);
    } else {
      EntryStep(env, bytes, at, to, values);
      if EntryStands(env, bytes, at, to, values[0]) { EntriesExactly(env, bytes, at + 4 + |values[0]|, to, values[1..]); }
    }
  }

  lemma NoEntriesStand(env: Env, bytes: Bytes, at: usize, to: usize)
    requires at <= |bytes| < ISIZE_LIMIT
    ensures ReadEntries(env, bytes, at, to, 0) == Ok(([], to)) <==> EntriesStand(env, bytes, at, to, [])
  {
  }

  lemma EntryStep(env: Env, bytes: Bytes, at: usize, to: usize, values: seq<Bytes>)
    requires at <= |bytes| < ISIZE_LIMIT && values != []
    ensures ReadEntries(env, bytes, at, to, |values|) == Ok((values, to))
            <==> EntryStands(env, bytes, at, to, values[0])
                 && ReadEntries(env, bytes, at + 4 + |values[0]|, to, |values| - 1) == Ok((values[1..], to))
  {
    hide U32At, ReadEntries, At;
    FirstAndRest(values);
    if EntryStands(env, bytes, at, to, values[0]) {
      EntryAccepted(env, bytes, at, to, |values|);
      Prepends(values, ReadEntries(env, bytes, at + 4 + |values[0]|, to, |values| - 1), to);
    }
    if ReadEntries(env, bytes, at, to, |values|) == Ok((values, to)) {
      FirstEntry(env, bytes, at, to, |values|);
      var text := bytes[at + 4..at + 4 + U32At(bytes, at)];
      var tail := ReadEntries(env, bytes, at + 4 + |text|, to, |values| - 1).value;
      assert values == [text] + tail.0;
      assert values[0] == text && values[1..] == tail.0;
    }
  }

  lemma Prepends(values: seq<Bytes>, tail: Result<(seq<Bytes>, usize)>, to: usize)
    requires values != []
    ensures Continued([values[0]], tail) == Ok((values, to)) <==> tail == Ok((values[1..], to))
  {
    FirstAndRest(values);
    if tail.Ok? { assert ([values[0]] + tail.value.0)[1..] == tail.value.0; }
  }

  lemma FirstAndRest<T>(xs: seq<T>)
    requires xs != []
    ensures xs == [xs[0]] + xs[1..]
  {
  }

  lemma ListExactly(env: Env, bytes: Bytes, from: usize, to: usize, at: nat, values: seq<Bytes>)
    requires at + 12 <= |bytes| && to <= |bytes| < ISIZE_LIMIT
    ensures ReadStringList(env, bytes, from, to, at) == Ok(values) <==> ListStands(env, bytes, from, to, at, values)
  {
    hide U64At, U32At, ReadEntries, EntriesStand;
    var start, len := from + U64At(bytes, at), U32At(bytes, at + 8);
    if start + 4 <= |bytes| && start + len <= |bytes| {
      EntriesExactly(env, bytes, start + 4, start + len, values);
    }
  }

  ghost predicate EdgeRun(bytes: Bytes, start: nat, owner: u128, es: seq<RelationEdge>) {
    forall i: nat :: i < |es| ==> EdgeStands(bytes, start + 37 * i, owner, es[i])
  }

  lemma EdgeRunSplits(bytes: Bytes, start: nat, owner: u128, es: seq<RelationEdge>)
    requires es != []
    ensures EdgeRun(bytes, start, owner, es) <==> EdgeStands(bytes, start, owner, es[0]) && EdgeRun(bytes, start + 37, owner, es[1..])
  {
    hide EdgeStands;
    if EdgeRun(bytes, start, owner, es) {
      assert EdgeStands(bytes, start + 37 * 0, owner, es[0]);
      forall i: nat | i < |es| - 1 ensures EdgeStands(bytes, start + 37 + 37 * i, owner, es[1..][i]) {
        assert EdgeStands(bytes, start + 37 * (i + 1), owner, es[i + 1]);
      }
    }
    if EdgeStands(bytes, start, owner, es[0]) && EdgeRun(bytes, start + 37, owner, es[1..]) {
      forall i: nat | i < |es| ensures EdgeStands(bytes, start + 37 * i, owner, es[i]) {
        if i > 0 { assert EdgeStands(bytes, start + 37 + 37 * (i - 1), owner, es[1..][i - 1]); }
      }
    }
  }

  lemma EdgeExactly(bytes: Bytes, at: usize, owner: u128, e: RelationEdge)
    requires at + 37 <= |bytes| < ISIZE_LIMIT
    ensures ReadRelation(bytes, at) == Ok(e) && e.from == owner <==> EdgeStands(bytes, at, owner, e)
  {
    hide U128At, I16At;
  }

  lemma {:induction false} EdgeRunExactly(bytes: Bytes, start: usize, owner: u128, es: seq<RelationEdge>)
    requires start + 37 * |es| <= |bytes| < ISIZE_LIMIT
    ensures ReadEdges(bytes, start, |es|, owner) == Ok(es) <==> EdgeRun(bytes, start, owner, es)
    decreases |es|
  {
    hide ReadRelation, EdgeRun, EdgeStands;
    if es == [] {
      NoEdges(bytes, start, owner);
    } else {
      EdgeRunSplits(bytes, start, owner, es);
      EdgeExactly(bytes, start, owner, es[0]);
      EdgeRunExactly(bytes, start + 37, owner, es[1..]);
      FirstAndRest(es);
    }
  }

  lemma NoEdges(bytes: Bytes, start: nat, owner: u128)
    ensures EdgeRun(bytes, start, owner, [])
  {
  }

  lemma EdgesExactly(bytes: Bytes, from: usize, to: usize, at: nat, owner: u128, es: seq<RelationEdge>)
    requires at + 12 <= |bytes| && to <= |bytes| < ISIZE_LIMIT
    ensures ReadRelations(bytes, from, to, U64At(bytes, at), U32At(bytes, at + 8), owner) == Ok(es)
            <==> EdgesStand(bytes, from, to, at, owner, es)
  {
    hide U64At, U32At, ReadEdges, EdgeStands;
    var start, count := from + U64At(bytes, at), U32At(bytes, at + 8);
    if start + 37 * count <= to {
      EdgesCounted(bytes, start, count, owner);
      if |es| == count { EdgeRunExactly(bytes, start, owner, es); }
    }
  }

  lemma EdgesCounted(bytes: Bytes, start: usize, count: nat, owner: u128)
    requires start + 37 * count <= |bytes| < ISIZE_LIMIT
    ensures ReadEdges(bytes, start, count, owner).Ok? ==> |ReadEdges(bytes, start, count, owner).value| == count
  {
    hide ReadEdges;
    if ReadEdges(bytes, start, count, owner).Ok? { EdgesSound(bytes, start, count, owner); }
  }

  // ---------------------------------------------------------------- one record

  lemma BitsExactly(bytes: Bytes, at: nat, bits: SemanticBits)
    requires at + 32 <= |bytes|
    ensures ReadBits(bytes, at) == bits <==> forall w: nat :: w < 4 ==> U64At(bytes, at + 8 * w) == bits[w]
  {
    hide U64At;
    var read := ReadBits(bytes, at);
    assert forall w: nat :: w < 4 ==> read[w] == U64At(bytes, at + 8 * w);
    if forall w: nat :: w < 4 ==> U64At(bytes, at + 8 * w) == bits[w] {
      forall w: nat | w < 4 ensures read[w] == bits[w] { assert U64At(bytes, at + 8 * w) == bits[w]; }
    }
  }

  lemma ResidualExactly(bytes: Bytes, at: nat, r: Residual)
    requires at + 64 <= |bytes|
    ensures ReadResidual(bytes, at) == r <==> forall i: nat :: i < 64 ==> bytes[at + i] == (r[i] as int) % 256
  {
    var read := ReadResidual(bytes, at);
    forall i: nat | i < 64 ensures read[i] == AsI8(bytes[at + i]) && (read[i] == r[i] <==> bytes[at + i] == (r[i] as int) % 256) {
      assert bytes[at..at + 64][i] == bytes[at + i];
      SignedByte(bytes[at + i], r[i]);
    }
    if forall i: nat :: i < 64 ==> bytes[at + i] == (r[i] as int) % 256 {
      forall i: nat | i < 64 ensures read[i] == r[i] { assert bytes[at + i] == (r[i] as int) % 256; }
    }
  }

  lemma SignedByte(b: byte, n: i8)
    ensures AsI8(b) == n <==> b == (n as int) % 256
  {
  }

  /** The fields of a read capsule that are neither text, list nor edge. */
  lemma FieldsExactly(bytes: Bytes, base: usize, c: Capsule)
    requires base + 340 <= |bytes| < ISIZE_LIMIT
    ensures FieldsStand(bytes, base, c) <==>
            && c.id == U128At(bytes, base) && c.tenantId == U64At(bytes, base + 16) && c.sourceId == U64At(bytes, base + 24)
            && c.sourceHash == bytes[base + 32..base + 64] && c.contentHash == bytes[base + 300..base + 332]
            && c.semanticBits == ReadBits(bytes, base + 64) && c.residual == ReadResidual(bytes, base + 96)
            && c.validFrom == I64At(bytes, base + 160) && c.validUntil == UntilOf(I64At(bytes, base + 168))
            && c.observedAt == I64At(bytes, base + 176) && c.lastVerifiedAt == I64At(bytes, base + 184)
            && c.contextMask == U128At(bytes, base + 192) && c.policyMask == U128At(bytes, base + 208)
            && c.trustLevel == bytes[base + 224] && c.classification == bytes[base + 225] && c.poisonRisk == bytes[base + 226]
  {
    hide U128At, U64At, I64At, ReadBits, ReadResidual;
    BitsExactly(bytes, base + 64, c.semanticBits);
    ResidualExactly(bytes, base + 96, c.residual);
  }

  /** One capsule, its embedding aside, is read from a record exactly when it stands there. */
  lemma RecordExactly(env: Env, bytes: Bytes, base: usize, strings: usize, relations: usize, index: usize, c: Capsule)
    requires base + 340 <= |bytes| < ISIZE_LIMIT && relations <= |bytes| && index <= |bytes|
    ensures ReadCapsule(env, bytes, base, strings, relations, index) == Ok(c.(embedding := []))
            <==> RecordStands(env, bytes, base, strings, relations, index, c)
  {
    hide U32At, U64At, U128At, I64At, ReadString, ReadOptionalString, ReadStringList, ReadRelations, ReadBits, ReadResidual;
    hide FieldsStand, TextStands, UriStands, ListStands, EdgesStand;
    FieldsExactly(bytes, base, c);
    TextExactly(env, bytes, strings, relations, base + 228, c.claim);
    TextExactly(env, bytes, strings, relations, base + 240, c.evidence);
    UriExactly(env, bytes, strings, relations, base + 252, c.sourceUri);
    ListExactly(env, bytes, strings, relations, base + 264, c.anchors);
    ListExactly(env, bytes, strings, relations, base + 276, c.entities);
    EdgesExactly(bytes, relations, index, base + 288, c.id, c.relationEdges);
  }

  // ---------------------------------------------------------------- the whole file

  lemma TableSplits(env: Env, bytes: Bytes, base: nat, strings: nat, relations: nat, index: nat, cs: seq<Capsule>)
    requires cs != []
    ensures Table(env, bytes, base, strings, relations, index, cs)
            <==> RecordStands(env, bytes, base, strings, relations, index, cs[0])
                 && Table(env, bytes, base + 340, strings, relations, index, cs[1..])
  {
    hide RecordStands;
    if Table(env, bytes, base, strings, relations, index, cs) {
      assert RecordStands(env, bytes, base + 340 * 0, strings, relations, index, cs[0]);
      forall i: nat | i < |cs| - 1 ensures RecordStands(env, bytes, base + 340 + 340 * i, strings, relations, index, cs[1..][i]) {
        assert RecordStands(env, bytes, base + 340 * (i + 1), strings, relations, index, cs[i + 1]);
      }
    }
    if RecordStands(env, bytes, base, strings, relations, index, cs[0]) && Table(env, bytes, base + 340, strings, relations, index, cs[1..]) {
      forall i: nat | i < |cs| ensures RecordStands(env, bytes, base + 340 * i, strings, relations, index, cs[i]) {
        if i > 0 { assert RecordStands(env, bytes, base + 340 + 340 * (i - 1), strings, relations, index, cs[1..][i - 1]); }
      }
    }
  }

  lemma {:induction false} TableExactly(env: Env, bytes: Bytes, ordinal: nat, strings: usize, relations: usize, index: usize, cs: seq<Capsule>)
    requires 128 + 340 * (ordinal + |cs|) <= |bytes| < ISIZE_LIMIT && relations <= |bytes| && index <= |bytes|
    ensures ReadCapsules(env, bytes, ordinal, ordinal + |cs|, strings, relations, index) == Ok(Stripped(cs))
            <==> Table(env, bytes, 128 + 340 * ordinal, strings, relations, index, cs)
    decreases |cs|
  {
    hide ReadCapsule, RecordStands, Table;
    if cs == [] {
      NoRecords(env, bytes, 128 + 340 * ordinal, strings, relations, index);
    } else {
      TableSplits(env, bytes, 128 + 340 * ordinal, strings, relations, index, cs);
      RecordExactly(env, bytes, 128 + 340 * ordinal, strings, relations, index, cs[0]);
      TableExactly(env, bytes, ordinal + 1, strings, relations, index, cs[1..]);
      FirstAndRest(Stripped(cs));
    }
  }

  lemma NoRecords(env: Env, bytes: Bytes, base: nat, strings: nat, relations: nat, index: nat)
    ensures Table(env, bytes, base, strings, relations, index, [])
  {
  }

  // ---------------------------------------------------------------- vectors

  ghost predicate RowStands(bytes: Bytes, at: nat, lanes: seq<u32>) {
    forall j: nat :: j < |lanes| ==> LaneStands(bytes, at + 4 * j, lanes[j])
  }

  lemma {:induction false} RowExactly(bytes: Bytes, at: nat, lanes: seq<u32>)
    requires at + 4 * |lanes| <= |bytes|
    ensures ReadLanes(bytes, at, |lanes|) == lanes <==> RowStands(bytes, at, lanes)
    decreases |lanes|
  {
    hide U32At;
    if lanes != [] {
      RowExactly(bytes, at + 4, lanes[1..]);
      FirstAndRest(lanes);
      if RowStands(bytes, at, lanes) {
        assert LaneStands(bytes, at + 4 * 0, lanes[0]);
        forall j: nat | j < |lanes| - 1 ensures LaneStands(bytes, at + 4 + 4 * j, lanes[1..][j]) {
          assert LaneStands(bytes, at + 4 * (j + 1), lanes[j + 1]);
        }
      }
      if ReadLanes(bytes, at, |lanes|) == lanes {
        assert ReadLanes(bytes, at, |lanes|)[1..] == ReadLanes(bytes, at + 4, |lanes| - 1);
        forall j: nat | j < |lanes| ensures LaneStands(bytes, at + 4 * j, lanes[j]) {
          if j > 0 { assert LaneStands(bytes, at + 4 + 4 * (j - 1), lanes[1..][j - 1]); }
        }
      }
    }
  }

  ghost predicate RowsStand(bytes: Bytes, at: nat, dim: nat, cs: seq<Capsule>) {
    forall i: nat :: i < |cs| ==> RowStands(bytes, at + RowsLen(i, 4 * dim), cs[i].embedding)
  }

  lemma RowsSplit(bytes: Bytes, at: nat, dim: nat, cs: seq<Capsule>)
    requires cs != []
    ensures RowsStand(bytes, at, dim, cs) <==> RowStands(bytes, at, cs[0].embedding) && RowsStand(bytes, at + 4 * dim, dim, cs[1..])
  {
    hide RowStands;
    if RowsStand(bytes, at, dim, cs) {
      assert RowStands(bytes, at + RowsLen(0, 4 * dim), cs[0].embedding);
      forall i: nat | i < |cs| - 1 ensures RowStands(bytes, at + 4 * dim + RowsLen(i, 4 * dim), cs[1..][i].embedding) {
        assert RowStands(bytes, at + RowsLen(i + 1, 4 * dim), cs[i + 1].embedding);
      }
    }
    if RowStands(bytes, at, cs[0].embedding) && RowsStand(bytes, at + 4 * dim, dim, cs[1..]) {
      forall i: nat | i < |cs| ensures RowStands(bytes, at + RowsLen(i, 4 * dim), cs[i].embedding) {
        if i > 0 { assert RowStands(bytes, at + 4 * dim + RowsLen(i - 1, 4 * dim), cs[1..][i - 1].embedding); }
      }
    }
  }

  lemma {:induction false} RowsExactly(bytes: Bytes, at: nat, dim: nat, cs: seq<Capsule>)
    requires at + RowsLen(|cs|, 4 * dim) <= |bytes| && Wide(cs, dim)
    ensures AttachRows(bytes, at, dim, Stripped(cs)) == cs <==> RowsStand(bytes, at, dim, cs)
    decreases |cs|
  {
    hide ReadLanes, RowStands, RowsStand;
    if cs == [] {
      NoRowsStand(bytes, at, dim);
    } else {
      RowsSplit(bytes, at, dim, cs);
      RowExactly(bytes, at, cs[0].embedding);
      RowsExactly(bytes, at + 4 * dim, dim, cs[1..]);
      AttachedFirst(bytes, at, dim, cs);
    }
  }

  lemma NoRowsStand(bytes: Bytes, at: nat, dim: nat)
    ensures RowsStand(bytes, at, dim, [])
  {
  }

  lemma AttachedFirst(bytes: Bytes, at: nat, dim: nat, cs: seq<Capsule>)
    requires cs != [] && at + RowsLen(|cs|, 4 * dim) <= |bytes|
    ensures AttachRows(bytes, at, dim, Stripped(cs)) == cs
            <==> ReadLanes(bytes, at, dim) == cs[0].embedding && AttachRows(bytes, at + 4 * dim, dim, Stripped(cs[1..])) == cs[1..]
  {
    hide ReadLanes;
    var out := AttachRows(bytes, at, dim, Stripped(cs));
    assert Stripped(cs)[1..] == Stripped(cs[1..]) && Stripped(cs)[0] == cs[0].(embedding := []);
    assert out[1..] == AttachRows(bytes, at + 4 * dim, dim, Stripped(cs[1..]));
    FirstAndRest(out);
    FirstAndRest(cs);
    assert cs[0].(embedding := []).(embedding := cs[0].embedding) == cs[0];
  }

  /** Rows at their products are rows one behind the other. */
  lemma RowsAreProducts(bytes: Bytes, at: nat, dim: nat, cs: seq<Capsule>)
    ensures RowsStand(bytes, at, dim, cs) <==> LanesStand(bytes, at, dim, cs)
  {
    hide LaneStands, RowsLen, LanePlace;
    forall i: nat, j: nat ensures LanePlace(at, dim, i, j) == at + RowsLen(i, 4 * dim) + 4 * j { PlaceInRow(at, dim, i, j); }
    if RowsStand(bytes, at, dim, cs) {
      forall i: nat, j: nat | i < |cs| && j < |cs[i].embedding| ensures LaneStands(bytes, LanePlace(at, dim, i, j), cs[i].embedding[j]) {
        assert RowStands(bytes, at + RowsLen(i, 4 * dim), cs[i].embedding);
      }
    }
    if LanesStand(bytes, at, dim, cs) {
      forall i: nat | i < |cs| ensures RowStands(bytes, at + RowsLen(i, 4 * dim), cs[i].embedding) {
        forall j: nat | j < |cs[i].embedding| ensures LaneStands(bytes, at + RowsLen(i, 4 * dim) + 4 * j, cs[i].embedding[j]) {
          assert LaneStands(bytes, LanePlace(at, dim, i, j), cs[i].embedding[j]);
        }
      }
    }
  }

  lemma PlaceInRow(at: nat, dim: nat, i: nat, j: nat)
    ensures LanePlace(at, dim, i, j) == at + RowsLen(i, 4 * dim) + 4 * j
  {
    RowsLenIsProduct(i, 4 * dim);
    hide RowsLen;
    Commutes(i, 4 * dim);
    assert 4 * dim * i == 4 * (dim * i);
  }

  lemma VectorsExactly(bytes: Bytes, cs: seq<Capsule>)
    requires 128 <= |bytes| < ISIZE_LIMIT && |cs| < ISIZE_LIMIT
    ensures ReadEmbeddings(bytes, Stripped(cs)) == Ok(cs) <==> VectorsStand(bytes, cs)
  {
    hide U32At, U64At, AttachRows, RowsLen, RowsStand, LanesStand, CheckedMul, Stripped, InRange, LanePlace, Wide;
    var dim: nat, offset := U32At(bytes, 104), U64At(bytes, 108);
    if dim == 0 {
      StrippedIsEmpty(cs);
      NoLanes(bytes, offset, cs);
    } else {
      RowsAreProducts(bytes, offset, dim, cs);
      RowsFit(bytes, offset, dim, |cs|);
      if offset + RowsLen(|cs|, 4 * dim) <= |bytes| {
        AttachedWidths(bytes, offset, dim, cs);
        if Wide(cs, dim) { RowsExactly(bytes, offset, dim, cs); }
      }
    }
  }

  lemma RowsFit(bytes: Bytes, offset: u64, dim: u32, n: nat)
    requires |bytes| < ISIZE_LIMIT && n < ISIZE_LIMIT
    ensures LanePlace(offset, dim, n, 0) == offset + RowsLen(n, 4 * dim)
    ensures offset + RowsLen(n, 4 * dim) <= |bytes| <==>
            && CheckedMul(dim, 4).Some? && CheckedMul(CheckedMul(dim, 4).value, n).Some?
            && InRange(bytes, offset, CheckedMul(CheckedMul(dim, 4).value, n).value)
  {
    PlaceInRow(offset, dim, n, 0);
    RowsLenIsProduct(n, 4 * dim);
    Commutes(n, 4 * dim);
    hide RowsLen, LanePlace;
  }

  lemma NoLanes(bytes: Bytes, offset: nat, cs: seq<Capsule>)
    ensures Wide(cs, 0) ==> LanesStand(bytes, offset, 0, cs)
  {
  }

  lemma {:induction false} StrippedIsEmpty(cs: seq<Capsule>)
    ensures Stripped(cs) == cs <==> Wide(cs, 0)
  {
    if cs != [] {
      StrippedIsEmpty(cs[1..]);
      FirstAndRest(cs);
      FirstAndRest(Stripped(cs));
      assert Stripped(cs)[1..] == Stripped(cs[1..]);
      assert forall i: nat :: i < |cs| - 1 ==> cs[1..][i] == cs[i + 1];
      if forall i: nat :: i < |cs| ==> |cs[i].embedding| == 0 {
        assert cs[0].embedding == [];
      }
      if Stripped(cs) == cs {
        forall i: nat | i < |cs| ensures |cs[i].embedding| == 0 {
          if i > 0 { assert |cs[1..][i - 1].embedding| == 0; } else { assert cs[0] == Stripped(cs)[0]; }
        }
      }
    }
  }

  lemma AttachedWidths(bytes: Bytes, offset: nat, dim: nat, cs: seq<Capsule>)
    requires offset + RowsLen(|cs|, 4 * dim) <= |bytes|
    ensures AttachRows(bytes, offset, dim, Stripped(cs)) == cs ==> Wide(cs, dim)
  {
    hide RowsLen;
    if AttachRows(bytes, offset, dim, Stripped(cs)) == cs {
      forall i: nat | i < |cs| ensures |cs[i].embedding| == dim {
        AttachRowsKeepsRest(bytes, offset, dim, Stripped(cs), i);
      }
    }
  }

  // ---------------------------------------------------------------- acceptance

  lemma HeaderExactly(bytes: Bytes, g: Segment)
    requires |bytes| < ISIZE_LIMIT
    ensures HeaderStands(bytes, g) <==>
            && ValidateHeader(bytes).Ok? && g.epoch == U64At(bytes, 16) && g.tenantId == U64At(bytes, 24)
            && U64At(bytes, 32) == |g.capsules|
            && ValidateSections(bytes, U64At(bytes, 32), U64At(bytes, 40), U64At(bytes, 48), U64At(bytes, 56), U64At(bytes, 64)).Ok?
  {
    hide U64At, U32At;
  }

  /** The digest check of the loader is that of the format. */
  lemma DigestExactly(env: Env, bytes: Bytes)
    requires 104 <= |bytes|
    ensures bytes[HASH_OFFSET..HASH_OFFSET + HASH_LEN] == SegmentHash(env, bytes) <==> DigestStands(env, bytes)
  {
    assert Zeros(32) == seq(32, _ => 0);
  }

  lemma ReadIsStripped(bytes: Bytes, read: seq<Capsule>, cs: seq<Capsule>)
    requires 128 <= |bytes| < ISIZE_LIMIT && |read| < ISIZE_LIMIT && forall c :: c in read ==> c.embedding == []
    requires ReadEmbeddings(bytes, read) == Ok(cs)
    ensures read == Stripped(cs)
  {
    hide U32At, U64At, AttachRows, RowsLen;
    var dim: nat, offset := U32At(bytes, 104), U64At(bytes, 108);
    RowsLenIsProduct(|read|, 4 * dim);
    forall i: nat | i < |read| ensures read[i] == cs[i].(embedding := []) {
      assert read[i] in read;
      if dim > 0 { AttachRowsKeepsRest(bytes, offset, dim, read, i); }
    }
    StrippedAt(cs);
  }

  lemma {:induction false} StrippedAt(cs: seq<Capsule>)
    ensures forall i: nat :: i < |cs| ==> Stripped(cs)[i] == cs[i].(embedding := [])
  {
    if cs != [] { StrippedAt(cs[1..]); }
  }

  /** The parts of the file agree with the capsules `cs`. */
  ghost predicate PartsStand(env: Env, bytes: Bytes, cs: seq<Capsule>)
    requires 128 <= |bytes|
  {
    && U64At(bytes, 32) == |cs| && VectorsStand(bytes, cs) && DistinctIds(cs)
    && Table(env, bytes, 128, U64At(bytes, 48), U64At(bytes, 56), U64At(bytes, 64), cs)
  }

  /** The steps of the loader after the digest and the section checks. */
  function LoadParts(env: Env, bytes: Bytes): Result<seq<Capsule>>
    requires 128 <= |bytes| < ISIZE_LIMIT
    requires ValidateSections(bytes, U64At(bytes, 32), U64At(bytes, 40), U64At(bytes, 48), U64At(bytes, 56), U64At(bytes, 64)).Ok?
  {
    var read :- ReadCapsules(env, bytes, 0, U64At(bytes, 32), U64At(bytes, 48), U64At(bytes, 56), U64At(bytes, 64));
    var capsules :- ReadEmbeddings(bytes, read);
    var _ :- Ensure(|IdSet(capsules)| == |capsules|, DuplicateIds);
    Ok(capsules)
  }

  lemma PartsExactly(env: Env, bytes: Bytes, cs: seq<Capsule>)
    requires 128 <= |bytes| < ISIZE_LIMIT
    requires ValidateSections(bytes, U64At(bytes, 32), U64At(bytes, 40), U64At(bytes, 48), U64At(bytes, 56), U64At(bytes, 64)).Ok?
    ensures LoadParts(env, bytes) == Ok(cs) <==> PartsStand(env, bytes, cs)
  {
    hide U64At, ReadCapsules, ReadEmbeddings, VectorsStand, Table, Stripped, ValidateSections, DistinctIds, Loadable, Sized;
    var count, strings, relations, index := U64At(bytes, 32), U64At(bytes, 48), U64At(bytes, 56), U64At(bytes, 64);
    IdCountDetectsRepeats(cs);
    var read := ReadCapsules(env, bytes, 0, count, strings, relations, index);
    if LoadParts(env, bytes) == Ok(cs) {
      AcceptedCapsules(env, bytes, 0, count, strings, relations, index);
      ReadIsStripped(bytes, read.value, cs);
    }
    if |cs| == count {
      TableExactly(env, bytes, 0, strings, relations, index, cs);
      VectorsExactly(bytes, cs);
    }
  }

  /** The loader accepts a byte string, and returns `g`, exactly when the bytes are a file of `g` in this format. */
  lemma AcceptedExactly(env: Env, bytes: Bytes, g: Segment)
    requires |bytes| < ISIZE_LIMIT
    ensures Parse(env, bytes) == Ok(g) <==> Format(env, bytes, g)
  {
    hide U64At, U32At, ValidateHeader, ValidateSections, SegmentHash, ReadCapsules, ReadEmbeddings, HeaderStands, DigestStands, VectorsStand, Table, Stripped;
    HeaderExactly(bytes, g);
    if |bytes| >= 128 {
      DigestExactly(env, bytes);
      if ValidateSections(bytes, U64At(bytes, 32), U64At(bytes, 40), U64At(bytes, 48), U64At(bytes, 56), U64At(bytes, 64)).Ok? {
        PartsExactly(env, bytes, g.capsules);
      }
    } else {
      ShortIsNoFile(env, bytes, g);
    }
  }

  lemma ShortIsNoFile(env: Env, bytes: Bytes, g: Segment)
    requires |bytes| < 128
    ensures Parse(env, bytes).Err? && !HeaderStands(bytes, g)
  {
  }

  // ---------------------------------------------------------------- what the digest protects

  /**
   Two accepted files with the same stored digest are the same file, unless the hash collides on
   the two byte strings it is computed over.
   */
  lemma DigestPinsFile(env: Env, a: Bytes, b: Bytes)
    requires |a| < ISIZE_LIMIT && |b| < ISIZE_LIMIT && Parse(env, a).Ok? && Parse(env, b).Ok?
    ensures |a| >= 128 && |b| >= 128
    ensures a[72..104] == b[72..104]
            && (env.hash(a[..72] + seq(32, _ => 0) + a[104..]) == env.hash(b[..72] + seq(32, _ => 0) + b[104..])
                ==> a[..72] + seq(32, _ => 0) + a[104..] == b[..72] + seq(32, _ => 0) + b[104..])
            ==> a == b
  {
    AcceptedExactly(env, a, Parse(env, a).value);
    AcceptedExactly(env, b, Parse(env, b).value);
    hide Parse, VectorsStand, Table, HeaderStands;
    LongEnough(a, Parse(env, a).value);
    LongEnough(b, Parse(env, b).value);
    if Image(a) == Image(b) && a[72..104] == b[72..104] {
      Reassembled(a);
      Reassembled(b);
      assert Image(a)[..72] == a[..72] && Image(b)[..72] == b[..72];
      assert Image(a)[104..] == a[104..] && Image(b)[104..] == b[104..];
    }
  }

  lemma LongEnough(bytes: Bytes, g: Segment)
    requires HeaderStands(bytes, g)
    ensures |bytes| >= 128
  {
  }

  lemma Reassembled(b: Bytes)
    requires |b| >= 104
    ensures b == b[..72] + b[72..104] + b[104..]
  {
  }

  /** Any change to an accepted file outside its digest and its first sixteen bytes is refused as a mismatch, short of a collision. */
  lemma AlteredFileRefused(env: Env, a: Bytes, b: Bytes)
    requires |a| < ISIZE_LIMIT && |b| < ISIZE_LIMIT && Parse(env, a).Ok?
    requires |b| >= 128 && |a| >= 128 && b[..16] == a[..16] && b[72..104] == a[72..104] && b != a
    requires env.hash(a[..72] + seq(32, _ => 0) + a[104..]) != env.hash(b[..72] + seq(32, _ => 0) + b[104..])
    ensures Parse(env, b) == Err(SegmentHashMismatch)
  {
    DigestExactly(env, a);
    DigestExactly(env, b);
    assert b[0..8] == b[..16][0..8] && a[0..8] == a[..16][0..8];
    assert b[8..12] == b[..16][8..12] && a[8..12] == a[..16][8..12];
    assert b[12..16] == b[..16][12..16] && a[12..16] == a[..16][12..16];
    hide SegmentHash, ReadCapsules, ReadEmbeddings, ValidateSections;
  }

  /** Whatever is assembled carries the digest of all its bytes, its own field read as zeros. */
  lemma WrittenDigest(env: Env, cs: seq<Capsule>, epoch: u64)
    requires Assemble(env, cs, epoch).Ok?
    ensures var b := Assemble(env, cs, epoch).value;
            |b| >= 128 && b[72..104] == env.hash(b[..72] + seq(32, _ => 0) + b[104..])
  {
    hide Sorted, SegmentHash, Layout, MaxDim;
    var ss := Sorted(cs);
    var digest := SegmentHash(env, Layout(ss, epoch, Zeros(32)));
    HashIgnoresItself(env, ss, epoch, digest);
    LayoutSize(ss, epoch, digest);
    LayoutStands(ss, epoch, digest);
    StoredDigest(Layout(ss, epoch, digest), digest);
    DigestExactly(env, Layout(ss, epoch, digest));
  }

  /** What is written of well-formed capsules is a file of them, in the order of their ids, in this format. */
  lemma WrittenFormat(env: Env, cs: seq<Capsule>, epoch: u64) returns (sorted: seq<Capsule>)
    requires AllSized(cs) && AllLoadable(env, cs) && DistinctIds(cs) && UniformDim(cs) && AssembledSize(Sorted(cs)) < ISIZE_LIMIT
    ensures multiset(sorted) == multiset(cs) && forall i, j :: 0 <= i < j < |sorted| ==> sorted[i].id < sorted[j].id
    ensures var built := Assemble(env, cs, epoch);
            built.Ok? && Format(env, built.value, Segment(epoch, if sorted == [] then 0 else sorted[0].tenantId, sorted))
  {
    hide Sorted, Assemble, Parse, Format, AllSized, AllLoadable, UniformDim, AssembledSize;
    sorted := Sorted(cs);
    SortedKeeps(cs);
    AssembledSegmentLoads(env, cs, epoch);
    AcceptedExactly(env, Assemble(env, cs, epoch).value, Segment(epoch, FirstTenant(sorted), sorted));
  }
}
