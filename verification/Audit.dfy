/** The hash-chained access trail of `audit.rs`. */
module Audit {
  import opened Results
  import opened ByteCodec
  import SegmentLayout
  import opened Capsules
  import opened Gates
  import opened Retrieve
  import opened WalCodec

  datatype Returned = Returned(capsuleId: Bytes, sourceHash: Bytes, trustLevel: byte)

  datatype Record = Record(
    timestamp: u64, tenantId: u64, contextMask: Bytes, policyMask: Bytes, trustFloor: byte, asOf: i64, queryHash: Bytes,
    candidateCount: u64, returnedCount: u64, returned: seq<Returned>, prevHash: Bytes, recordHash: Bytes)

  /** A line of the file: blank, a parsable record, or neither. */
  datatype Line = Blank | Entry(record: Record) | Garbled

  // ---------------------------------------------------------------- hashes

  /** `hex32`. */
  function Hex32(d: Bytes): (text: Bytes)
    ensures |text| == 2 * |d|
  {
    if d == [] then [] else [DigitByte(d[0] / 16), DigitByte(d[0] % 16)] + Hex32(d[1..])
  }

  /** Two lower-case digits per byte, the high half first. */
  lemma {:induction false} HexDigits(d: Bytes, i: nat)
    requires i < |d|
    ensures var hex: seq<byte> := [0x30, 0x31, 0x32, 0x33, 0x34, 0x35, 0x36, 0x37, 0x38, 0x39, 0x61, 0x62, 0x63, 0x64, 0x65, 0x66];
            Hex32(d)[2 * i] == hex[d[i] / 16] && Hex32(d)[2 * i + 1] == hex[d[i] % 16]
    decreases i
  {
    HexDigit(d[i] / 16);
    HexDigit(d[i] % 16);
    hide DigitByte;
    assert Hex32(d)[2..] == Hex32(d[1..]) && Hex32(d)[0] == DigitByte(d[0] / 16) && Hex32(d)[1] == DigitByte(d[0] % 16);
    hide Hex32;
    if i > 0 {
      HexDigits(d[1..], i - 1);
      assert Hex32(d)[2 * i] == Hex32(d)[2..][2 * (i - 1)] && Hex32(d)[2 * i + 1] == Hex32(d)[2..][2 * (i - 1) + 1];
    }
  }

  lemma HexDigit(n: nat)
    requires n < 16
    ensures var hex: seq<byte> := [0x30, 0x31, 0x32, 0x33, 0x34, 0x35, 0x36, 0x37, 0x38, 0x39, 0x61, 0x62, 0x63, 0x64, 0x65, 0x66];
            DigitByte(n) == hex[n]
  {
  }

  lemma {:induction false} Hex32Injective(d: Bytes, e: Bytes)
    requires Hex32(d) == Hex32(e)
    ensures d == e
  {
    if d != [] {
      var x, y := Hex32(d), Hex32(e);
      assert |d| == |e|;
      assert x[0] == y[0] && x[1] == y[1];
      assert d[0] == e[0];
      assert x[2..] == Hex32(d[1..]) && y[2..] == Hex32(e[1..]);
      Hex32Injective(d[1..], e[1..]);
      assert d == [d[0]] + d[1..] && e == [e[0]] + e[1..];
    }
  }

  /** The predecessor named by a first record. */
  function ZeroHash(): (text: Bytes)
    ensures |text| == 64
  {
    Hex32(SegmentLayout.Zeros(32))
  }

  function EntryFields(rs: seq<Returned>): seq<Bytes> {
    if rs == [] then [] else [rs[0].capsuleId, rs[0].sourceHash, [rs[0].trustLevel]] + EntryFields(rs[1..])
  }

  /** The fields fed to the hasher, in order: all but the record's own hash. */
  function Fields(r: Record): seq<Bytes> {
    assert Pow256(8) == 0x1_0000_0000_0000_0000 by { Pow256Values(); }
    [r.prevHash, LE(r.timestamp, 8), LE(r.tenantId, 8), r.contextMask, r.policyMask, [r.trustFloor],
     LE(ToUnsigned(r.asOf, 8), 8), r.queryHash, LE(r.candidateCount, 8), LE(r.returnedCount, 8)] + EntryFields(r.returned)
  }

  function Concat(fs: seq<Bytes>): Bytes {
    if fs == [] then [] else fs[0] + Concat(fs[1..])
  }

  function Preimage(r: Record): Bytes {
    Concat(Fields(r))
  }

  function RecordHash(env: Env, r: Record): (text: Bytes)
    ensures |text| == 64
  {
    Hex32(env.hash(Preimage(r)))
  }

  lemma {:induction false} ConcatAppend(fs: seq<Bytes>, gs: seq<Bytes>)
    ensures Concat(fs + gs) == Concat(fs) + Concat(gs)
  {
    hide Concat;
    if fs == [] {
      NoneConcat();
      assert fs + gs == gs && [] + Concat(gs) == Concat(gs);
    } else {
      ConcatAppend(fs[1..], gs);
      FirstOne(fs);
      FirstOne(fs + gs);
      assert (fs + gs)[1..] == fs[1..] + gs;
      assert fs[0] + (Concat(fs[1..]) + Concat(gs)) == (fs[0] + Concat(fs[1..])) + Concat(gs);
    }
  }

  /** `compute_hash`: the hasher is fed field by field. */
  method ComputeHash(env: Env, r: Record) returns (text: Bytes)
    ensures text == RecordHash(env, r)
  {
    Pow256Values();
    var fed := r.prevHash + LE(r.timestamp, 8) + LE(r.tenantId, 8) + r.contextMask + r.policyMask + [r.trustFloor]
      + LE(ToUnsigned(r.asOf, 8), 8) + r.queryHash + LE(r.candidateCount, 8) + LE(r.returnedCount, 8);
    HeadFed(r, fed);
    for i := 0 to |r.returned|
      invariant fed + Concat(EntryFields(r.returned[i..])) == Preimage(r)
    {
      var e := r.returned[i];
      assert r.returned[i..][0] == e && r.returned[i..][1..] == r.returned[i + 1..];
      EntryFed(e, r.returned[i + 1..]);
      fed := fed + e.capsuleId + e.sourceHash + [e.trustLevel];
    }
    assert fed + [] == fed;
    text := Hex32(env.hash(fed));
  }

  lemma HeadFed(r: Record, fed: Bytes)
    requires Pow256(8) == 0x1_0000_0000_0000_0000
    requires fed == r.prevHash + LE(r.timestamp, 8) + LE(r.tenantId, 8) + r.contextMask + r.policyMask + [r.trustFloor]
                    + LE(ToUnsigned(r.asOf, 8), 8) + r.queryHash + LE(r.candidateCount, 8) + LE(r.returnedCount, 8)
    ensures fed + Concat(EntryFields(r.returned[0..])) == Preimage(r)
  {
    hide LE, ToUnsigned;
    var head := [r.prevHash, LE(r.timestamp, 8), LE(r.tenantId, 8), r.contextMask, r.policyMask, [r.trustFloor],
                 LE(ToUnsigned(r.asOf, 8), 8), r.queryHash, LE(r.candidateCount, 8), LE(r.returnedCount, 8)];
    ConcatAppend(head, EntryFields(r.returned));
    assert r.returned[0..] == r.returned;
    ConcatTwo(head[8..], head[8], head[9]);
    ConcatFour(head[4..], head[4], head[5], head[6], head[7]);
    ConcatFour(head, head[0], head[1], head[2], head[3]);
  }

  /** Where each field stands in what is hashed; numbers are little-endian, `asOf` in two's complement. */
  lemma HashedAt(r: Record)
    ensures var fed, a := Preimage(r), |r.prevHash|;
            var b := a + 16 + |r.contextMask|;
            var c := b + |r.policyMask|;
            var d := c + 9 + |r.queryHash|;
            && At(fed, 0, r.prevHash) && At(fed, a + 16, r.contextMask) && At(fed, b, r.policyMask) && At(fed, c + 9, r.queryHash)
            && At(fed, c, [r.trustFloor]) && |fed| >= d + 16 && fed[d + 16..] == Concat(EntryFields(r.returned))
            && FromLE(fed[a..a + 8]) == r.timestamp && FromLE(fed[a + 8..a + 16]) == r.tenantId
            && FromLE(fed[c + 1..c + 9]) == r.asOf % 0x1_0000_0000_0000_0000
            && FromLE(fed[d..d + 8]) == r.candidateCount && FromLE(fed[d + 8..d + 16]) == r.returnedCount
  {
    Pow256Values();
    TwosComplement(r.asOf);
    hide LE, FromLE, ToUnsigned, Preimage, EntryFields, Concat, Pow256;
    var asOf := ToUnsigned(r.asOf, 8);
    var fed := r.prevHash + LE(r.timestamp, 8) + LE(r.tenantId, 8) + r.contextMask + r.policyMask + [r.trustFloor]
      + LE(asOf, 8) + r.queryHash + LE(r.candidateCount, 8) + LE(r.returnedCount, 8);
    HeadFed(r, fed);
    assert r.returned[0..] == r.returned;
    DecodeEncode(r.timestamp, 8);
    DecodeEncode(r.tenantId, 8);
    DecodeEncode(asOf, 8);
    DecodeEncode(r.candidateCount, 8);
    DecodeEncode(r.returnedCount, 8);
    TenParts(Preimage(r), r.prevHash, LE(r.timestamp, 8), LE(r.tenantId, 8), r.contextMask, r.policyMask, [r.trustFloor],
             LE(asOf, 8), r.queryHash, LE(r.candidateCount, 8), LE(r.returnedCount, 8), Concat(EntryFields(r.returned)));
  }

  lemma TwosComplement(n: i64)
    ensures Pow256(8) == 0x1_0000_0000_0000_0000 && ToUnsigned(n, 8) == n % 0x1_0000_0000_0000_0000
  {
    Pow256Values();
    hide Pow256;
  }

  lemma TenParts(fed: Bytes, p0: Bytes, p1: Bytes, p2: Bytes, p3: Bytes, p4: Bytes, p5: Bytes, p6: Bytes, p7: Bytes, p8: Bytes, p9: Bytes, rest: Bytes)
    requires fed == p0 + p1 + p2 + p3 + p4 + p5 + p6 + p7 + p8 + p9 + rest
    requires |p1| == 8 && |p2| == 8 && |p5| == 1 && |p6| == 8 && |p8| == 8 && |p9| == 8
    ensures var a := |p0|;
            var b := a + 16 + |p3|;
            var c := b + |p4|;
            var d := c + 9 + |p7|;
            && At(fed, 0, p0) && At(fed, a, p1) && At(fed, a + 8, p2) && At(fed, a + 16, p3) && At(fed, b, p4) && At(fed, c, p5)
            && At(fed, c + 1, p6) && At(fed, c + 9, p7) && At(fed, d, p8) && At(fed, d + 8, p9) && fed[d + 16..] == rest
  {
    hide At;
    var five := p0 + p1 + p2 + p3 + p4;
    assert fed == five + p5 + p6 + p7 + p8 + p9 + rest;
    WholeAt(fed);
    AtSplit(fed, 0, five + p5 + p6 + p7 + p8 + p9, rest);
    AtSplit(fed, 0, five + p5 + p6 + p7 + p8, p9);
    AtSplit(fed, 0, five + p5 + p6 + p7, p8);
    AtSplit(fed, 0, five + p5 + p6, p7);
    AtSplit(fed, 0, five + p5, p6);
    AtSplit(fed, 0, five, p5);
    AtSplit(fed, 0, p0 + p1 + p2 + p3, p4);
    AtSplit(fed, 0, p0 + p1 + p2, p3);
    AtSplit(fed, 0, p0 + p1, p2);
    AtSplit(fed, 0, p0, p1);
  }

  lemma WholeAt(fed: Bytes)
    ensures At(fed, 0, fed)
  {
    assert fed[0..|fed|] == fed;
  }

  lemma ConcatTwo(fs: seq<Bytes>, a: Bytes, b: Bytes)
    requires fs == [a, b]
    ensures Concat(fs) == a + b
  {
    assert fs[1..] == [b] && fs[1..][1..] == [];
    assert Concat([b]) == b + [] == b;
  }

  lemma ConcatFour(fs: seq<Bytes>, a: Bytes, b: Bytes, c: Bytes, d: Bytes)
    requires |fs| >= 4 && fs[0] == a && fs[1] == b && fs[2] == c && fs[3] == d
    ensures Concat(fs) == a + b + c + d + Concat(fs[4..])
  {
    hide Concat;
    FirstTwo(fs, a, b);
    FirstTwo(fs[2..], c, d);
    assert fs[2..][2..] == fs[4..];
    assert a + b + (c + d + Concat(fs[4..])) == a + b + c + d + Concat(fs[4..]);
  }

  lemma ConcatFive(fs: seq<Bytes>, a: Bytes, b: Bytes, c: Bytes, d: Bytes, e: Bytes)
    requires |fs| >= 5 && fs[0] == a && fs[1] == b && fs[2] == c && fs[3] == d && fs[4] == e
    ensures Concat(fs) == a + b + c + d + (e + Concat(fs[5..]))
  {
    ConcatFour(fs, a, b, c, d);
    assert fs[4..][1..] == fs[5..];
  }

  lemma NoneConcat()
    ensures Concat([]) == []
  {
  }

  lemma FirstOne(fs: seq<Bytes>)
    requires fs != []
    ensures Concat(fs) == fs[0] + Concat(fs[1..])
  {
  }

  lemma FirstTwo(fs: seq<Bytes>, a: Bytes, b: Bytes)
    requires |fs| >= 2 && fs[0] == a && fs[1] == b
    ensures Concat(fs) == a + b + Concat(fs[2..])
  {
    assert fs[1..][1..] == fs[2..];
    assert a + (b + Concat(fs[2..])) == a + b + Concat(fs[2..]);
  }

  lemma EntryFed(e: Returned, rest: seq<Returned>)
    ensures Concat(EntryFields([e] + rest)) == e.capsuleId + e.sourceHash + [e.trustLevel] + Concat(EntryFields(rest))
  {
    assert ([e] + rest)[1..] == rest;
    var fs := EntryFields([e] + rest);
    assert fs[0] == e.capsuleId && fs[1] == e.sourceHash && fs[2] == [e.trustLevel] && fs[3..] == EntryFields(rest);
    assert fs[1..][1..] == fs[2..] && fs[2..][1..] == fs[3..];
    assert Concat(fs[2..]) == [e.trustLevel] + Concat(fs[3..]);
    assert Concat(fs[1..]) == e.sourceHash + ([e.trustLevel] + Concat(fs[3..]));
    assert Concat(fs) == e.capsuleId + (e.sourceHash + ([e.trustLevel] + Concat(fs[3..])));
  }

  // ---------------------------------------------------------------- what a hash pins

  predicate SameContent(r: Record, s: Record) {
    r.(recordHash := s.recordHash) == s
  }

  /** The lengths of the hashed fields. */
  function Shape(r: Record): (lengths: seq<nat>)
    ensures |lengths| == |Fields(r)|
  {
    seq(|Fields(r)|, i requires 0 <= i < |Fields(r)| => |Fields(r)[i]|)
  }

  lemma {:induction false} ConcatInjective(fs: seq<Bytes>, gs: seq<Bytes>)
    requires |fs| == |gs| && (forall i :: 0 <= i < |fs| ==> |fs[i]| == |gs[i]|) && Concat(fs) == Concat(gs)
    ensures fs == gs
  {
    if fs != [] {
      var whole := Concat(fs);
      assert fs[0] == whole[..|fs[0]|] == gs[0];
      assert Concat(fs[1..]) == whole[|fs[0]|..] == Concat(gs[1..]);
      ConcatInjective(fs[1..], gs[1..]);
      assert fs == [fs[0]] + fs[1..] && gs == [gs[0]] + gs[1..];
    }
  }

  lemma {:induction false} EntryFieldsInjective(rs: seq<Returned>, ss: seq<Returned>)
    requires EntryFields(rs) == EntryFields(ss)
    ensures rs == ss
  {
    var x, y := EntryFields(rs), EntryFields(ss);
    if rs != [] && ss != [] {
      assert x[0] == y[0] && x[1] == y[1] && x[2] == y[2];
      assert rs[0] == ss[0];
      assert x[3..] == EntryFields(rs[1..]) && y[3..] == EntryFields(ss[1..]);
      EntryFieldsInjective(rs[1..], ss[1..]);
      assert rs == [rs[0]] + rs[1..] && ss == [ss[0]] + ss[1..];
    }
  }

  lemma LEInjective(n: nat, m: nat)
    requires n < Pow256(8) && m < Pow256(8) && LE(n, 8) == LE(m, 8)
    ensures n == m
  {
    DecodeEncode(n, 8);
    DecodeEncode(m, 8);
  }

  lemma FieldsInjective(r: Record, s: Record)
    requires Fields(r) == Fields(s)
    ensures SameContent(r, s)
  {
    hide LE, FromLE, Pow256;
    Pow256Values();
    var x, y := Fields(r), Fields(s);
    assert x[0] == y[0] && x[1] == y[1] && x[2] == y[2] && x[3] == y[3] && x[4] == y[4];
    assert x[5] == y[5] && x[6] == y[6] && x[7] == y[7] && x[8] == y[8] && x[9] == y[9];
    assert x[10..] == EntryFields(r.returned) && y[10..] == EntryFields(s.returned);
    EntryFieldsInjective(r.returned, s.returned);
    LEInjective(r.timestamp, s.timestamp);
    LEInjective(r.tenantId, s.tenantId);
    LEInjective(ToUnsigned(r.asOf, 8), ToUnsigned(s.asOf, 8));
    LEInjective(r.candidateCount, s.candidateCount);
    LEInjective(r.returnedCount, s.returnedCount);
  }

  /** Records hashed from the same bytes agree in every field exactly when their field lengths agree. */
  lemma HashPinsFields(r: Record, s: Record)
    requires Preimage(r) == Preimage(s)
    ensures SameContent(r, s) <==> Shape(r) == Shape(s)
  {
    if SameContent(r, s) {
      assert Fields(r) == Fields(s);
    }
    if Shape(r) == Shape(s) {
      forall i | 0 <= i < |Fields(r)| ensures |Fields(r)[i]| == |Fields(s)[i]| {
        assert Shape(r)[i] == Shape(s)[i];
      }
      ConcatInjective(Fields(r), Fields(s));
      FieldsInjective(r, s);
    }
  }

  /** The record with the first byte of its policy text moved to the end of its context text. */
  function Shifted(r: Record): Record
    requires r.policyMask != []
  {
    r.(contextMask := r.contextMask + [r.policyMask[0]], policyMask := r.policyMask[1..])
  }

  /** The fields carry no separators: a byte moved from the policy text to the context text goes unnoticed. */
  lemma BoundaryNotHashed(env: Env, r: Record)
    requires r.policyMask != []
    ensures RecordHash(env, Shifted(r)) == RecordHash(env, r) && !SameContent(r, Shifted(r))
  {
    hide LE, Concat;
    var s := Shifted(r);
    var x, y := Fields(r), Fields(s);
    assert x[5..] == y[5..];
    ConcatFive(x, x[0], x[1], x[2], x[3], x[4]);
    ConcatFive(y, y[0], y[1], y[2], y[3], y[4]);
    assert r.policyMask == [r.policyMask[0]] + r.policyMask[1..];
    assert r.contextMask + r.policyMask == s.contextMask + s.policyMask;
    Rejoin(x[0] + x[1] + x[2], x[3], x[4], y[3], y[4], Concat(x[5..]));
  }

  lemma Rejoin(front: Bytes, a: Bytes, b: Bytes, c: Bytes, d: Bytes, rest: Bytes)
    requires a + b == c + d
    ensures front + a + (b + rest) == front + c + (d + rest)
  {
    assert front + a + (b + rest) == front + (a + b) + rest;
    assert front + c + (d + rest) == front + (c + d) + rest;
  }

  // ---------------------------------------------------------------- chains

  function Records(lines: seq<Line>): seq<Record> {
    if lines == [] then []
    else Records(lines[..|lines| - 1]) + if lines[|lines| - 1].Entry? then [lines[|lines| - 1].record] else []
  }

  predicate Readable(lines: seq<Line>) {
    forall l :: l in lines ==> !l.Garbled?
  }

  /** The hash the next record must name. */
  function Tip(rs: seq<Record>): Bytes {
    if rs == [] then ZeroHash() else rs[|rs| - 1].recordHash
  }

  /** Every record names its predecessor's hash, and its own hash recomputes. */
  ghost predicate Linked(env: Env, rs: seq<Record>) {
    forall i :: 0 <= i < |rs| ==> rs[i].prevHash == Tip(rs[..i]) && rs[i].recordHash == RecordHash(env, rs[i])
  }

  lemma LinkedSnoc(env: Env, rs: seq<Record>, r: Record)
    ensures Linked(env, rs + [r]) <==> Linked(env, rs) && r.prevHash == Tip(rs) && r.recordHash == RecordHash(env, r)
  {
    hide RecordHash;
    var all := rs + [r];
    assert all[..|rs|] == rs;
    forall i | 0 <= i < |rs| ensures all[i] == rs[i] && all[..i] == rs[..i] {}
    if Linked(env, all) {
      assert all[|rs|] == r;
      forall i | 0 <= i < |rs| ensures rs[i].prevHash == Tip(rs[..i]) && rs[i].recordHash == RecordHash(env, rs[i]) {
        assert all[i] == rs[i];
      }
    }
  }

  /** Acceptance is prefix-closed. */
  lemma LinkedPrefix(env: Env, rs: seq<Record>, n: nat)
    requires n <= |rs| && Linked(env, rs)
    ensures Linked(env, rs[..n])
  {
    hide RecordHash;
    forall i | 0 <= i < n ensures rs[..n][..i] == rs[..i] {}
  }

  lemma {:induction false} RecordsPrefix(lines: seq<Line>, n: nat)
    requires n <= |lines|
    ensures |Records(lines[..n])| <= |Records(lines)|
    ensures Records(lines)[..|Records(lines[..n])|] == Records(lines[..n])
    decreases |lines|
  {
    if n < |lines| {
      var front := lines[..|lines| - 1];
      RecordsPrefix(front, n);
      assert front[..n] == lines[..n];
    } else {
      assert lines[..n] == lines;
    }
  }

  /**
   `verify_chain`: a file is accepted exactly when it can be read and its records are linked, and
   then every record is counted.
   */
  method VerifyChain(env: Env, lines: seq<Line>) returns (r: Result<nat>)
    ensures r.Ok? <==> Readable(lines) && Linked(env, Records(lines))
    ensures r.Ok? ==> r.value == |Records(lines)|
    ensures r == Err(BadAuditLine) ==> !Readable(lines)
    ensures Garbled in lines ==> r.Err?
  {
    hide Hex32, Preimage, Tip, RecordHash;
    var expected := ZeroHash();
    var count := 0;
    EmptyLog(env);
    for i := 0 to |lines|
      invariant Readable(lines[..i]) && Linked(env, Records(lines[..i]))
      invariant count == |Records(lines[..i])| && expected == Tip(Records(lines[..i]))
    {
      var front, upTo := lines[..i], lines[..i + 1];
      assert upTo[..|upTo| - 1] == front && upTo[|upTo| - 1] == lines[i];
      assert lines[i] in lines;
      match lines[i] {
        case Blank => assert Records(upTo) == Records(front) + [] == Records(front);
        case Garbled => return Err(BadAuditLine);
        case Entry(record) =>
          LinkedSnoc(env, Records(front), record);
          assert Records(upTo) == Records(front) + [record];
          TipSnoc(Records(front), record);
          if Linked(env, Records(lines)) {
            RecordsPrefix(lines, i + 1);
            LinkedPrefix(env, Records(lines), |Records(upTo)|);
          }
          if record.prevHash != expected { return Err(BrokenChain); }
          var own := ComputeHash(env, record);
          if own != record.recordHash { return Err(ModifiedRecord); }
          expected := record.recordHash;
          count := count + 1;
      }
    }
    assert lines[..|lines|] == lines;
    return Ok(count);
  }

  lemma EmptyLog(env: Env)
    ensures Linked(env, Records([])) && Tip(Records([])) == ZeroHash()
  {
  }

  lemma TipSnoc(rs: seq<Record>, r: Record)
    ensures Tip(rs + [r]) == r.recordHash
  {
  }

  // ---------------------------------------------------------------- recording

  function Disclosures(fs: seq<FrameCapsule>): (r: seq<Returned>)
    ensures |r| == |fs|
  {
    seq(|fs|, i requires 0 <= i < |fs| => Returned(Digits(fs[i].id, 10), Hex32(fs[i].sourceHash), fs[i].trustLevel))
  }

  /** `from_query`, before chaining. */
  function FromQuery(p: Probe, frame: Frame, queryHash: Digest, timestamp: u64): Record
    requires frame.candidateCount < 0x1_0000_0000_0000_0000 && |frame.capsules| < 0x1_0000_0000_0000_0000
  {
    Record(timestamp, p.tenantId, HexText(p.contextMask), HexText(p.policyMask), p.trustFloor, p.asOf, Hex32(queryHash),
           frame.candidateCount, |frame.capsules|, Disclosures(frame.capsules), [], [])
  }

  /** The record names the caller's tenant, masks, trust floor and time, and every capsule returned. */
  ghost predicate Tells(r: Record, p: Probe, frame: Frame, timestamp: u64) {
    && r.timestamp == timestamp && r.tenantId == p.tenantId && r.trustFloor == p.trustFloor && r.asOf == p.asOf
    && ParseU128(r.contextMask) == Ok(p.contextMask) && ParseU128(r.policyMask) == Ok(p.policyMask)
    && r.candidateCount == frame.candidateCount && r.returnedCount == |r.returned| == |frame.capsules|
    && forall i :: 0 <= i < |frame.capsules| ==>
         && ParseU128(r.returned[i].capsuleId) == Ok(frame.capsules[i].id)
         && r.returned[i].sourceHash == Hex32(frame.capsules[i].sourceHash)
         && r.returned[i].trustLevel == frame.capsules[i].trustLevel
  }

  lemma FromQueryTells(p: Probe, frame: Frame, queryHash: Digest, timestamp: u64)
    requires frame.candidateCount < 0x1_0000_0000_0000_0000 && |frame.capsules| < 0x1_0000_0000_0000_0000
    ensures Tells(FromQuery(p, frame, queryHash, timestamp), p, frame, timestamp)
  {
    hide ParseU128, Digits, HexText, Hex32;
    HexRoundTrip(p.contextMask);
    HexRoundTrip(p.policyMask);
    forall i | 0 <= i < |frame.capsules| ensures ParseU128(Digits(frame.capsules[i].id, 10)) == Ok(frame.capsules[i].id) {
      DecimalRoundTrip(frame.capsules[i].id);
    }
  }

  function Chained(env: Env, r: Record, prev: Bytes): Record {
    var linked := r.(prevHash := prev);
    linked.(recordHash := RecordHash(env, linked))
  }

  lemma ChainedHash(env: Env, r: Record, prev: Bytes)
    ensures Chained(env, r, prev).recordHash == RecordHash(env, Chained(env, r, prev))
  {
    var linked := r.(prevHash := prev);
    assert Fields(linked) == Fields(Chained(env, r, prev));
  }

  class AuditLog {
    var file: seq<Line>
    var prevHash: Bytes

    ghost function State(): Log
      reads this
    {
      Log(file, prevHash)
    }

    /** The open log continues the chain of its file. */
    ghost predicate Continues(env: Env)
      reads this
    {
      Readable(file) && Linked(env, Records(file)) && prevHash == Tip(Records(file))
    }

    constructor (file: seq<Line>, prevHash: Bytes)
      ensures this.file == file && this.prevHash == prevHash
    {
      this.file, this.prevHash := file, prevHash;
    }

    /** `record`: a failed write leaves the chain where it was. */
    method Record(env: Env, p: Probe, frame: Frame, queryHash: Digest, timestamp: u64, ioOk: bool) returns (r: Result<Record>)
      requires frame.candidateCount < 0x1_0000_0000_0000_0000 && |frame.capsules| < 0x1_0000_0000_0000_0000
      modifies this
      ensures r.Ok? <==> ioOk
      ensures ioOk ==> r.value == Chained(env, FromQuery(p, frame, queryHash, timestamp), old(prevHash))
      ensures ioOk ==> Tells(r.value, p, frame, timestamp) && r.value.queryHash == Hex32(queryHash) && r.value.prevHash == old(prevHash)
      ensures State() == if ioOk then Do(env, old(State()), Write(FromQuery(p, frame, queryHash, timestamp))) else old(State())
      ensures old(Continues(env)) ==> Continues(env) && |Records(file)| == |Records(old(file))| + if ioOk then 1 else 0
    {
      hide Fields, Preimage, Linked, Tip, RecordHash;
      var record := FromQuery(p, frame, queryHash, timestamp);
      record := record.(prevHash := prevHash);
      var own := ComputeHash(env, record);
      record := record.(recordHash := own);
      if !ioOk { return Err(IoFailure); }
      AppendLinks(env, file, FromQuery(p, frame, queryHash, timestamp), prevHash);
      FromQueryTells(p, frame, queryHash, timestamp);
      file := file + [Entry(record)];
      prevHash := record.recordHash;
      return Ok(record);
    }
  }

  lemma AppendLinks(env: Env, lines: seq<Line>, r: Record, prev: Bytes)
    ensures var record := Chained(env, r, prev);
            var grown := lines + [Entry(record)];
            && Records(grown) == Records(lines) + [record] && Tip(Records(grown)) == record.recordHash
            && (Readable(lines) ==> Readable(grown))
            && (Linked(env, Records(lines)) && prev == Tip(Records(lines)) ==> Linked(env, Records(grown)))
  {
    hide RecordHash, Linked;
    var record := Chained(env, r, prev);
    assert (lines + [Entry(record)])[..|lines|] == lines;
    ChainedHash(env, r, prev);
    LinkedSnoc(env, Records(lines), record);
  }

  /** `last_record_hash`. */
  method LastRecordHash(lines: seq<Line>) returns (r: Result<Bytes>)
    ensures r.Ok? <==> Readable(lines)
    ensures r.Ok? ==> r.value == Tip(Records(lines))
  {
    hide Hex32;
    var last := ZeroHash();
    for i := 0 to |lines|
      invariant Readable(lines[..i]) && last == Tip(Records(lines[..i]))
    {
      assert lines[..i + 1][..i] == lines[..i] && lines[i] in lines;
      match lines[i] {
        case Blank =>
        case Garbled => return Err(BadAuditLine);
        case Entry(record) => last := record.recordHash;
      }
    }
    assert lines[..|lines|] == lines;
    return Ok(last);
  }

  /** `open`: a missing file starts an empty chain. */
  method Open(env: Env, existing: Option<seq<Line>>) returns (r: Result<AuditLog>)
    ensures r.Ok? <==> existing.None? || Readable(existing.value)
    ensures existing.Some? && Garbled in existing.value ==> r.Err?
    ensures r.Ok? ==> fresh(r.value) && r.value.file == (if existing.Some? then existing.value else [])
                      && r.value.State() == Do(env, r.value.State(), Reopen)
    ensures r.Ok? && Linked(env, Records(r.value.file)) ==> r.value.Continues(env)
  {
    var lines: seq<Line> := if existing.Some? then existing.value else [];
    var last := LastRecordHash(lines);
    if last.Err? { return Err(last.error); }
    var log := new AuditLog(lines, last.value);
    return Ok(log);
  }

  // ---------------------------------------------------------------- whole histories

  datatype Step = Reopen | Write(record: Record)

  datatype Log = Log(file: seq<Line>, prevHash: Bytes)

  function Do(env: Env, log: Log, s: Step): Log {
    match s
    case Reopen => log.(prevHash := Tip(Records(log.file)))
    case Write(r) => var record := Chained(env, r, log.prevHash); Log(log.file + [Entry(record)], record.recordHash)
  }

  function Run(env: Env, steps: seq<Step>): Log {
    if steps == [] then Log([], ZeroHash()) else Do(env, Run(env, steps[..|steps| - 1]), steps[|steps| - 1])
  }

  function Writes(steps: seq<Step>): nat {
    if steps == [] then 0 else Writes(steps[..|steps| - 1]) + if steps[|steps| - 1].Write? then 1 else 0
  }

  /** Any number of records over any number of reopenings yields a log that verifies with exactly that count. */
  lemma {:induction false} RunVerifies(env: Env, steps: seq<Step>)
    ensures var log := Run(env, steps);
            && Readable(log.file) && Linked(env, Records(log.file)) && |Records(log.file)| == Writes(steps)
            && log.prevHash == Tip(Records(log.file))
    decreases |steps|
  {
    hide Linked, RecordHash;
    if steps == [] {
      EmptyLog(env);
    } else {
      var front, last := steps[..|steps| - 1], steps[|steps| - 1];
      RunVerifies(env, front);
      var log := Run(env, front);
      if last.Write? { AppendLinks(env, log.file, last.record, log.prevHash); }
    }
  }

  // ---------------------------------------------------------------- tamper evidence

  ghost function Hashed(rs: seq<Record>): set<Bytes> {
    set r | r in rs :: Preimage(r)
  }

  /** No two of these inputs share a hash, and none hashes to zero. */
  ghost predicate CollisionFree(env: Env, inputs: set<Bytes>) {
    && (forall x, y :: x in inputs && y in inputs && env.hash(x) == env.hash(y) ==> x == y)
    && (forall x :: x in inputs ==> env.hash(x) != SegmentLayout.Zeros(32))
  }

  lemma SameInputSamePrev(env: Env, r: Record, s: Record)
    requires Preimage(r) == Preimage(s) && |r.prevHash| == |s.prevHash|
    ensures r.prevHash == s.prevHash
  {
    hide LE;
    assert Preimage(r)[..|r.prevHash|] == r.prevHash && Preimage(s)[..|s.prevHash|] == s.prevHash;
  }

  lemma TipLength(env: Env, rs: seq<Record>)
    requires Linked(env, rs)
    ensures |Tip(rs)| == 64
  {
  }

  lemma SameHashSameInput(env: Env, r: Record, s: Record, inputs: set<Bytes>)
    requires CollisionFree(env, inputs) && Preimage(r) in inputs && Preimage(s) in inputs
    requires RecordHash(env, r) == RecordHash(env, s)
    ensures Preimage(r) == Preimage(s)
  {
    hide Preimage;
    Hex32Injective(env.hash(Preimage(r)), env.hash(Preimage(s)));
  }

  /**
   The last hash pins the whole log: two accepted logs that end in the same hash have the same
   number of records, and hashed the same bytes for each of them.
   */
  lemma {:induction false} LastHashPinsLog(env: Env, rs: seq<Record>, ss: seq<Record>)
    requires Linked(env, rs) && Linked(env, ss) && Tip(rs) == Tip(ss)
    requires CollisionFree(env, Hashed(rs) + Hashed(ss))
    ensures |rs| == |ss| && forall i :: 0 <= i < |rs| ==> Preimage(rs[i]) == Preimage(ss[i])
    decreases |rs|
  {
    hide Preimage, Linked, Tip, CollisionFree, Hashed;
    if rs == [] || ss == [] {
      OnlyEmptyEndsInZero(env, rs, ss);
    } else {
      var n, m := |rs| - 1, |ss| - 1;
      DropLast(env, rs, ss);
      LastHashPinsLog(env, rs[..n], ss[..m]);
      forall i | 0 <= i < |rs| ensures Preimage(rs[i]) == Preimage(ss[i]) {
        if i < n { assert rs[..n][i] == rs[i] && ss[..m][i] == ss[i]; }
      }
    }
  }

  lemma OnlyEmptyEndsInZero(env: Env, rs: seq<Record>, ss: seq<Record>)
    requires Linked(env, rs) && Linked(env, ss) && Tip(rs) == Tip(ss) && CollisionFree(env, Hashed(rs) + Hashed(ss))
    requires rs == [] || ss == []
    ensures rs == [] && ss == []
  {
    hide Preimage, Hex32;
    if rs != [] || ss != [] {
      var r := if rs == [] then ss[|ss| - 1] else rs[|rs| - 1];
      assert Preimage(r) in Hashed(rs) + Hashed(ss);
      Hex32Injective(env.hash(Preimage(r)), SegmentLayout.Zeros(32));
    }
  }

  lemma DropLast(env: Env, rs: seq<Record>, ss: seq<Record>)
    requires Linked(env, rs) && Linked(env, ss) && Tip(rs) == Tip(ss) && CollisionFree(env, Hashed(rs) + Hashed(ss))
    requires rs != [] && ss != []
    ensures var n, m := |rs| - 1, |ss| - 1;
            && Preimage(rs[n]) == Preimage(ss[m]) && Tip(rs[..n]) == Tip(ss[..m])
            && Linked(env, rs[..n]) && Linked(env, ss[..m]) && CollisionFree(env, Hashed(rs[..n]) + Hashed(ss[..m]))
  {
    hide Linked, Tip, Hashed, RecordHash, Preimage;
    var n, m := |rs| - 1, |ss| - 1;
    LastLinked(env, rs);
    LastLinked(env, ss);
    SameHashSameInput(env, rs[n], ss[m], Hashed(rs) + Hashed(ss));
    SameInputSamePrev(env, rs[n], ss[m]);
  }

  lemma LastLinked(env: Env, rs: seq<Record>)
    requires Linked(env, rs) && rs != []
    ensures var n := |rs| - 1;
            && Tip(rs) == RecordHash(env, rs[n]) && rs[n].prevHash == Tip(rs[..n]) && |rs[n].prevHash| == 64
            && Linked(env, rs[..n]) && Hashed(rs[..n]) <= Hashed(rs) && Preimage(rs[n]) in Hashed(rs)
  {
    hide RecordHash, Preimage;
    var n := |rs| - 1;
    assert rs[n] in rs;
    LinkedPrefix(env, rs, n);
    TipLength(env, rs[..n]);
    HashedPrefix(rs, n);
  }

  lemma HashedPrefix(rs: seq<Record>, n: nat)
    requires n <= |rs|
    ensures Hashed(rs[..n]) <= Hashed(rs)
  {
  }

  /** Two records of one accepted log are hashed from the same bytes only if they are the same record. */
  lemma DistinctInputs(env: Env, rs: seq<Record>, i: nat, j: nat)
    requires Linked(env, rs) && CollisionFree(env, Hashed(rs))
    requires i < |rs| && j < |rs| && Preimage(rs[i]) == Preimage(rs[j])
    ensures i == j
  {
    hide Preimage, Tip, CollisionFree, RecordHash;
    LinkedPrefix(env, rs, i);
    LinkedPrefix(env, rs, j);
    TipLength(env, rs[..i]);
    TipLength(env, rs[..j]);
    SameInputSamePrev(env, rs[i], rs[j]);
    FewerCollide(env, Hashed(rs[..i]) + Hashed(rs[..j]), Hashed(rs));
    LastHashPinsLog(env, rs[..i], rs[..j]);
  }

  lemma FewerCollide(env: Env, inputs: set<Bytes>, more: set<Bytes>)
    requires CollisionFree(env, more) && inputs <= more
    ensures CollisionFree(env, inputs)
  {
  }

  /**
   Records cannot be dropped, repeated or reordered: without a collision among its records, a log
   and any accepted log made of its records end in the same hash only if they are the same log.
   */
  lemma LastHashPinsOrder(env: Env, rs: seq<Record>, ss: seq<Record>)
    requires Linked(env, rs) && Linked(env, ss) && CollisionFree(env, Hashed(rs)) && forall s :: s in ss ==> s in rs
    ensures Tip(ss) == Tip(rs) <==> ss == rs
  {
    hide Preimage, Tip, CollisionFree, RecordHash, Linked;
    if Tip(ss) == Tip(rs) {
      assert Hashed(rs) + Hashed(ss) == Hashed(rs);
      LastHashPinsLog(env, rs, ss);
      forall i | 0 <= i < |rs| ensures ss[i] == rs[i] {
        assert ss[i] in ss;
        var j :| 0 <= j < |rs| && rs[j] == ss[i];
        DistinctInputs(env, rs, i, j);
      }
    }
  }

  // ---------------------------------------------------------------- what goes unnoticed

  /** The place of a line's record among the records. */
  lemma {:induction false} RecordReplaced(lines: seq<Line>, i: nat, s: Record) returns (k: nat)
    requires i < |lines| && lines[i].Entry?
    ensures k < |Records(lines)| && Records(lines)[k] == lines[i].record
    ensures Records(lines[i := Entry(s)]) == Records(lines)[k := s]
    decreases |lines|
  {
    var n := |lines| - 1;
    var front, changed := lines[..n], lines[i := Entry(s)];
    if i == n {
      k := |Records(front)|;
      assert changed[..n] == front;
    } else {
      k := RecordReplaced(front, i, s);
      assert changed[..n] == front[i := Entry(s)];
    }
  }

  lemma SameHashesStayLinked(env: Env, rs: seq<Record>, k: nat, s: Record)
    requires Linked(env, rs) && k < |rs|
    requires s.prevHash == rs[k].prevHash && s.recordHash == rs[k].recordHash && RecordHash(env, s) == RecordHash(env, rs[k])
    ensures Linked(env, rs[k := s]) && Tip(rs[k := s]) == Tip(rs)
  {
    hide RecordHash, Tip;
    var changed := rs[k := s];
    forall i | 0 <= i < |rs| ensures changed[i].prevHash == Tip(changed[..i]) && changed[i].recordHash == RecordHash(env, changed[i]) {
      TipReplaced(rs, k, s, i);
      assert rs[i].prevHash == Tip(rs[..i]) && rs[i].recordHash == RecordHash(env, rs[i]);
    }
    TipReplaced(rs, k, s, |rs|);
    assert changed[..|rs|] == changed && rs[..|rs|] == rs;
  }

  lemma TipReplaced(rs: seq<Record>, k: nat, s: Record, i: nat)
    requires k < |rs| && s.recordHash == rs[k].recordHash && i <= |rs|
    ensures Tip(rs[k := s][..i]) == Tip(rs[..i])
  {
    var before, after := rs[..i], rs[k := s][..i];
    if i > 0 { assert after[i - 1] == rs[k := s][i - 1] && before[i - 1] == rs[i - 1]; }
  }

  /** An accepted file stays accepted, with the same count and last hash, when a byte of one record crosses that boundary. */
  lemma ShiftGoesUnnoticed(env: Env, lines: seq<Line>, i: nat)
    requires Readable(lines) && Linked(env, Records(lines))
    requires i < |lines| && lines[i].Entry? && lines[i].record.policyMask != []
    ensures var r := lines[i].record;
            var changed := lines[i := Entry(Shifted(r))];
            && Readable(changed) && Linked(env, Records(changed)) && |Records(changed)| == |Records(lines)|
            && Tip(Records(changed)) == Tip(Records(lines)) && !SameContent(r, Shifted(r))
  {
    hide Linked, RecordHash, Tip;
    var r := lines[i].record;
    var k := RecordReplaced(lines, i, Shifted(r));
    BoundaryNotHashed(env, r);
    SameHashesStayLinked(env, Records(lines), k, Shifted(r));
  }
}
