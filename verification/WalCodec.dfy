/** Numbers as text, and the JSON shape a capsule takes in the write-ahead log. */
module WalCodec {
  import opened Results
  import opened Capsules
  import opened Terms

  const U128_LIMIT: nat := 0x1_0000_0000_0000_0000_0000_0000_0000_0000

  // ---------------------------------------------------------------- u128 as text

  function DigitByte(d: nat): byte
    requires d < 16
  {
    if d < 10 then '0' as int + d else 'a' as int + (d - 10)
  }

  function DigitValue(b: byte, radix: nat): Option<nat> {
    var d :=
      if '0' as int <= b <= '9' as int then b - '0' as int
      else if 'a' as int <= b <= 'f' as int then b - 'a' as int + 10
      else if 'A' as int <= b <= 'F' as int then b - 'A' as int + 10
      else 255;
    if d < radix then Some(d) else None
  }

  /** `to_string` for radix 10 and the digits of `{:x}` for radix 16. */
  function Digits(n: nat, radix: nat): (r: Bytes)
    requires 2 <= radix <= 16
    ensures r != []
    decreases n
  {
    if n < radix then [DigitByte(n)] else Digits(n / radix, radix) + [DigitByte(n % radix)]
  }

  function HexText(n: nat): Bytes {
    ['0' as int, 'x' as int] + Digits(n, 16)
  }

  predicate IsSpace(b: byte) {
    b == 32 || 9 <= b <= 13
  }

  function TrimSpace(t: Bytes): Bytes
    decreases |t|
  {
    if t != [] && IsSpace(t[0]) then TrimSpace(t[1..])
    else if t != [] && IsSpace(t[|t| - 1]) then TrimSpace(t[..|t| - 1])
    else t
  }

  /** The checked multiply-and-add loop of `u128::from_str_radix`. */
  function Accumulate(digits: Bytes, radix: nat, acc: u128): Option<u128> {
    if digits == [] then Some(acc)
    else
      match DigitValue(digits[0], radix)
      case None => None
      case Some(d) => if acc * radix + d < U128_LIMIT then Accumulate(digits[1..], radix, acc * radix + d) else None
  }

  function FromRadix(text: Bytes, radix: nat): Option<u128> {
    if text == [] then None
    else if |text| == 1 && (text[0] == '+' as int || text[0] == '-' as int) then None
    else Accumulate(if text[0] == '+' as int then text[1..] else text, radix, 0)
  }

  predicate HasHexPrefix(t: Bytes) {
    |t| >= 2 && t[0] == '0' as int && (t[1] == 'x' as int || t[1] == 'X' as int)
  }

  function ParseU128(text: Bytes): Result<u128> {
    var trimmed := TrimSpace(text);
    var parsed := if HasHexPrefix(trimmed) then FromRadix(trimmed[2..], 16) else FromRadix(trimmed, 10);
    match parsed
    case Some(n) => Ok(n)
    case None => Err(InvalidNumber)
  }

  lemma {:induction false} AccumulateConcat(a: Bytes, b: Bytes, radix: nat, acc: u128)
    ensures Accumulate(a + b, radix, acc)
            == match Accumulate(a, radix, acc) case Some(v) => Accumulate(b, radix, v) case None => None
    decreases |a|
  {
    if a == [] {
      assert a + b == b;
    } else {
      assert (a + b)[1..] == a[1..] + b;
      match DigitValue(a[0], radix) {
        case None =>
        case Some(d) => if acc * radix + d < U128_LIMIT { AccumulateConcat(a[1..], b, radix, acc * radix + d); }
      }
    }
  }

  lemma AccumulateDigit(d: nat, radix: nat, acc: u128)
    requires (radix == 10 || radix == 16) && d < radix && acc * radix + d < U128_LIMIT
    ensures Accumulate([DigitByte(d)], radix, acc) == Some(acc * radix + d)
  {
    var text := [DigitByte(d)];
    assert text[1..] == [];
    assert DigitValue(text[0], radix) == Some(d);
    assert Accumulate([], radix, acc * radix + d) == Some(acc * radix + d);
  }

  /** Printing then parsing digits gives the number back, at either radix. */
  lemma {:induction false} DigitsParse(n: u128, radix: nat)
    requires radix == 10 || radix == 16
    ensures Accumulate(Digits(n, radix), radix, 0) == Some(n)
    decreases n
  {
    hide Accumulate;
    if n < radix {
      AccumulateDigit(n, radix, 0);
    } else {
      var high, low := n / radix, n % radix;
      assert high * radix + low == n by { if radix == 10 { assert n == n / 10 * 10 + n % 10; } }
      DigitsParse(high, radix);
      AccumulateConcat(Digits(high, radix), [DigitByte(low)], radix, 0);
      AccumulateDigit(low, radix, high);
    }
  }

  ghost predicate PlainDigits(t: Bytes) {
    forall i :: 0 <= i < |t| ==> '0' as int <= t[i] <= '9' as int || 'a' as int <= t[i] <= 'f' as int
  }

  lemma {:induction false} DigitsArePlain(n: nat, radix: nat)
    requires 2 <= radix <= 16
    ensures PlainDigits(Digits(n, radix))
    ensures radix == 10 ==> forall i :: 0 <= i < |Digits(n, radix)| ==> Digits(n, radix)[i] <= '9' as int
    decreases n
  {
    if n >= radix {
      DigitsArePlain(n / radix, radix);
      hide DigitByte, PlainDigits;
      OneMoreDigit(Digits(n / radix, radix), n % radix, radix);
    } else {
      OneMoreDigit([], n, radix);
      assert [] + [DigitByte(n)] == [DigitByte(n)];
    }
  }

  lemma OneMoreDigit(t: Bytes, d: nat, radix: nat)
    requires d < radix <= 16 && PlainDigits(t)
    ensures PlainDigits(t + [DigitByte(d)])
    ensures radix == 10 ==> DigitByte(d) <= '9' as int
  {
  }

  lemma DecimalRoundTrip(n: u128)
    ensures ParseU128(Digits(n, 10)) == Ok(n)
  {
    var text := Digits(n, 10);
    DigitsArePlain(n, 10);
    DigitsParse(n, 10);
    assert TrimSpace(text) == text;
  }

  lemma HexRoundTrip(n: u128)
    ensures ParseU128(HexText(n)) == Ok(n)
  {
    var digits, text := Digits(n, 16), HexText(n);
    DigitsArePlain(n, 16);
    DigitsParse(n, 16);
    assert text[|text| - 1] == digits[|digits| - 1];
    assert TrimSpace(text) == text;
    assert text[2..] == digits;
  }

  // ---------------------------------------------------------------- the logged shape

  datatype RawEdge = RawEdge(from: Bytes, to: Bytes, kind: RelationKind, weight: i16)

  /** The fields of a logged capsule; `None` is an absent key, and for an embedding lane a JSON null. */
  datatype RawCapsule = RawCapsule(
    id: Bytes, tenantId: u64, claim: Bytes, evidence: Bytes, sourceId: u64, sourceUri: Option<Bytes>,
    anchors: Option<seq<Bytes>>, entities: Option<seq<Bytes>>, embedding: Option<seq<Option<u32>>>,
    validFrom: i64, validUntil: Option<i64>, observedAt: i64, lastVerifiedAt: i64,
    contextMask: Bytes, policyMask: Bytes, trustLevel: byte, classification: byte, poisonRisk: byte,
    relationEdges: seq<RawEdge>)

  function Spaced(a: Bytes, b: Bytes): Bytes {
    a + [32] + b
  }

  function Joined(values: seq<Bytes>): Bytes {
    if values == [] then [] else if |values| == 1 then values[0] else Spaced(values[0], Joined(values[1..]))
  }

  function SemanticText(claim: Bytes, evidence: Bytes, anchors: seq<Bytes>): Bytes {
    Spaced(Spaced(claim, evidence), Joined(anchors))
  }

  function IntoEdge(e: RawEdge): Result<RelationEdge> {
    var from :- ParseU128(e.from);
    var to :- ParseU128(e.to);
    Ok(RelationEdge(from, to, e.kind, e.weight))
  }

  function IntoEdges(es: seq<RawEdge>): Result<seq<RelationEdge>> {
    if es == [] then Ok([])
    else
      var e :- IntoEdge(es[0]);
      var rest :- IntoEdges(es[1..]);
      Ok([e] + rest)
  }

  /** The bit pattern of an infinity or of no number has all its exponent bits set. */
  predicate FiniteLane(lane: u32) {
    (lane / 0x80_0000) % 0x100 != 0xff
  }

  /** Sign aside, such a pattern is at least that of infinity. */
  lemma FiniteLaneMeans(lane: u32)
    ensures FiniteLane(lane) <==> lane % 0x8000_0000 < 0x7f80_0000
  {
  }

  predicate FiniteLanes(lanes: seq<u32>) {
    forall l :: l in lanes ==> FiniteLane(l)
  }

  /** JSON has no number for a lane that is not finite: it is written as null. */
  function RawLanes(lanes: seq<u32>): (raw: seq<Option<u32>>)
    ensures |raw| == |lanes|
  {
    seq(|lanes|, i requires 0 <= i < |lanes| => if FiniteLane(lanes[i]) then Some(lanes[i]) else None)
  }

  /** A null is no lane, and refuses the whole entry. */
  function IntoLanes(raw: seq<Option<u32>>): Result<seq<u32>> {
    if None in raw then Err(InvalidNumber) else Ok(LanesOf(raw))
  }

  function LanesOf(raw: seq<Option<u32>>): (lanes: seq<u32>)
    requires None !in raw
    ensures |lanes| == |raw|
  {
    seq(|raw|, i requires 0 <= i < |raw| => assert raw[i] in raw; raw[i].value)
  }

  /** The lanes of an entry read back exactly when all are finite. */
  lemma LanesRoundTrip(lanes: seq<u32>)
    ensures IntoLanes(RawLanes(lanes)) == if FiniteLanes(lanes) then Ok(lanes) else Err(InvalidNumber)
  {
    var raw := RawLanes(lanes);
    hide FiniteLane;
    if FiniteLanes(lanes) {
      forall i | 0 <= i < |lanes| ensures raw[i] == Some(lanes[i]) { assert lanes[i] in lanes; }
      assert LanesOf(raw) == lanes;
    } else {
      var l :| l in lanes && !FiniteLane(l);
      var i :| 0 <= i < |lanes| && lanes[i] == l;
      assert raw[i] == None;
    }
  }

  function AnchorsOf(raw: RawCapsule): seq<Bytes> {
    Normalize(match raw.anchors case Some(a) => a case None => ExtractTerms(Spaced(raw.claim, raw.evidence)))
  }

  function EntitiesOf(raw: RawCapsule): seq<Bytes> {
    Normalize(match raw.entities case Some(e) => e case None => AnchorsOf(raw))
  }

  /** `into_capsule`: terms normalised, fingerprints and digests computed, numbers parsed. */
  function IntoCapsule(env: Env, raw: RawCapsule): Result<Capsule> {
    var embedding :- match raw.embedding case Some(lanes) => IntoLanes(lanes) case None => Ok([]);
    var anchors := AnchorsOf(raw);
    var text := SemanticText(raw.claim, raw.evidence, anchors);
    var id :- ParseU128(raw.id);
    var contextMask :- ParseU128(raw.contextMask);
    var policyMask :- ParseU128(raw.policyMask);
    var edges :- IntoEdges(raw.relationEdges);
    Ok(Capsule(
         id, raw.tenantId, raw.claim, raw.evidence, raw.sourceId, raw.sourceUri,
         env.hash(SourceMaterial(raw.evidence, raw.sourceUri)), env.semanticBitsFor(text), env.residualFor(text),
         embedding, anchors, EntitiesOf(raw),
         raw.validFrom, raw.validUntil, raw.observedAt, raw.lastVerifiedAt, contextMask, policyMask,
         raw.trustLevel, raw.classification, raw.poisonRisk, edges,
         env.hash(ContentMaterial(raw.claim, raw.evidence))))
  }

  function RawEdges(es: seq<RelationEdge>): seq<RawEdge> {
    if es == [] then []
    else [RawEdge(Digits(es[0].from, 10), Digits(es[0].to, 10), es[0].kind, es[0].weight)] + RawEdges(es[1..])
  }

  /** `capsule_to_json`: fingerprints and digests are dropped, empty collections left out. */
  function ToRaw(c: Capsule): RawCapsule {
    RawCapsule(
      Digits(c.id, 10), c.tenantId, c.claim, c.evidence, c.sourceId, c.sourceUri,
      Some(c.anchors), Some(c.entities), if c.embedding == [] then None else Some(RawLanes(c.embedding)),
      c.validFrom, c.validUntil, c.observedAt, c.lastVerifiedAt, HexText(c.contextMask), HexText(c.policyMask),
      c.trustLevel, c.classification, c.poisonRisk, RawEdges(c.relationEdges))
  }

  /** What every capsule built from a logged shape satisfies. */
  ghost predicate Canonical(env: Env, c: Capsule) {
    && TermList(c.anchors) && TermList(c.entities)
    && HashesMatch(env, c)
    && c.semanticBits == env.semanticBitsFor(SemanticText(c.claim, c.evidence, c.anchors))
    && c.residual == env.residualFor(SemanticText(c.claim, c.evidence, c.anchors))
  }

  lemma {:induction false} EdgesRoundTrip(es: seq<RelationEdge>)
    ensures IntoEdges(RawEdges(es)) == Ok(es)
  {
    hide ParseU128, Digits;
    if es != [] {
      DecimalRoundTrip(es[0].from);
      DecimalRoundTrip(es[0].to);
      EdgesRoundTrip(es[1..]);
      assert RawEdges(es)[1..] == RawEdges(es[1..]);
      assert es == [es[0]] + es[1..];
    }
  }

  /** Everything `into_capsule` builds is canonical. */
  lemma BuiltIsCanonical(env: Env, raw: RawCapsule)
    requires IntoCapsule(env, raw).Ok?
    ensures Canonical(env, IntoCapsule(env, raw).value)
  {
    hide Normalize, ParseU128, IntoEdges, IntoLanes, SemanticText, TermList;
    NormalizeGivesTerms(match raw.anchors case Some(a) => a case None => ExtractTerms(Spaced(raw.claim, raw.evidence)));
    NormalizeGivesTerms(match raw.entities case Some(e) => e case None => AnchorsOf(raw));
  }

  /** A capsule survives the log unchanged exactly when it is canonical and its lanes are finite. */
  lemma LogRoundTrip(env: Env, c: Capsule)
    ensures IntoCapsule(env, ToRaw(c)) == Ok(c) <==> Canonical(env, c) && FiniteLanes(c.embedding)
    ensures !FiniteLanes(c.embedding) ==> IntoCapsule(env, ToRaw(c)) == Err(InvalidNumber)
  {
    hide Normalize, ParseU128, IntoEdges, IntoLanes, RawLanes, FiniteLane, SemanticText, TermList, Digits, RawEdges, HexText;
    LanesRoundTrip(c.embedding);
    DecimalRoundTrip(c.id);
    HexRoundTrip(c.contextMask);
    HexRoundTrip(c.policyMask);
    EdgesRoundTrip(c.relationEdges);
    NormalizeFixpoint(c.anchors);
    NormalizeFixpoint(c.entities);
    if IntoCapsule(env, ToRaw(c)) == Ok(c) {
      BuiltIsCanonical(env, ToRaw(c));
    }
  }

  /** Hence a capsule built once is rebuilt the same by every replay, or, if a lane is not finite, by none. */
  lemma BuiltSurvivesLog(env: Env, raw: RawCapsule)
    requires IntoCapsule(env, raw).Ok?
    ensures var c := IntoCapsule(env, raw).value;
            IntoCapsule(env, ToRaw(c)) == if FiniteLanes(c.embedding) then Ok(c) else Err(InvalidNumber)
  {
    hide IntoCapsule, ToRaw, Canonical, FiniteLanes;
    BuiltIsCanonical(env, raw);
    LogRoundTrip(env, IntoCapsule(env, raw).value);
  }

  // ---------------------------------------------------------------- numbers in full

  /** Digits by their characters; letters of either case count up from ten. */
  lemma DigitMeans(b: byte, radix: nat)
    requires radix <= 16
    ensures DigitValue(b, radix).Some? <==> (0x30 <= b <= 0x39 && b - 0x30 < radix) || ((0x61 <= b <= 0x66 || 0x41 <= b <= 0x46) && b % 0x20 + 9 < radix)
    ensures DigitValue(b, radix).Some? ==> DigitValue(b, radix).value == if b <= 0x39 then b - 0x30 else b % 0x20 + 9
  {
  }

  predicate AllDigits(t: Bytes, radix: nat) {
    forall i :: 0 <= i < |t| ==> DigitValue(t[i], radix).Some?
  }

  /** The number its digits denote, the last one counting once. */
  function Positional(t: Bytes, radix: nat): nat
    requires AllDigits(t, radix)
  {
    if t == [] then 0 else Positional(t[..|t| - 1], radix) * radix + DigitValue(t[|t| - 1], radix).value
  }

  lemma LastDigit(d: byte, radix: nat, n: u128)
    ensures Accumulate([d], radix, n) ==
            match DigitValue(d, radix)
            case None => None
            case Some(v) => if n * radix + v < U128_LIMIT then Some(n * radix + v) else None
  {
    hide DigitValue;
    assert [d][1..] == [];
  }

  lemma Grows(n: nat, radix: nat, d: nat)
    requires radix >= 1
    ensures n * radix + d >= n
  {
  }

  /** Accumulating from the left gives the positional value, or nothing when it does not fit 128 bits. */
  lemma {:induction false} AccumulateMeans(t: Bytes, radix: nat)
    requires radix >= 1
    ensures Accumulate(t, radix, 0) == if AllDigits(t, radix) && Positional(t, radix) < U128_LIMIT then Some(Positional(t, radix)) else None
    decreases |t|
  {
    hide DigitValue;
    if t != [] {
      var n := |t| - 1;
      AccumulateMeans(t[..n], radix);
      assert t == t[..n] + [t[n]];
      AccumulateConcat(t[..n], [t[n]], radix, 0);
      FrontDigits(t, radix);
      hide Accumulate, AllDigits;
      if AllDigits(t[..n], radix) && DigitValue(t[n], radix).Some? {
        Grows(Positional(t[..n], radix), radix, DigitValue(t[n], radix).value);
      }
      if Accumulate(t[..n], radix, 0).Some? { LastDigit(t[n], radix, Accumulate(t[..n], radix, 0).value); }
    }
  }

  lemma FrontDigits(t: Bytes, radix: nat)
    requires t != []
    ensures AllDigits(t, radix) <==> AllDigits(t[..|t| - 1], radix) && DigitValue(t[|t| - 1], radix).Some?
  {
    hide DigitValue;
    var n := |t| - 1;
    if AllDigits(t[..n], radix) && DigitValue(t[n], radix).Some? {
      forall i | 0 <= i < |t| ensures DigitValue(t[i], radix).Some? { if i < n { assert t[..n][i] == t[i]; } }
    }
  }

  /** The digits proper: what follows one plus sign, if there is one. */
  function Unsigned(text: Bytes): Bytes {
    if text != [] && text[0] == 0x2b then text[1..] else text
  }

  /** A text is a number exactly when, one leading plus aside, it is digits, at least one, of a value below 2^128. */
  lemma NumberExactly(text: Bytes, radix: nat, n: u128)
    requires radix == 10 || radix == 16
    ensures FromRadix(text, radix) == Some(n) <==>
            Unsigned(text) != [] && AllDigits(Unsigned(text), radix) && Positional(Unsigned(text), radix) == n
  {
    hide DigitValue, Accumulate, AllDigits, Positional;
    AccumulateMeans(Unsigned(text), radix);
    if text == [0x2d] { MinusIsNoDigit(radix); }
  }

  lemma MinusIsNoDigit(radix: nat)
    requires radix <= 16
    ensures !AllDigits([0x2d], radix)
  {
    assert DigitValue([0x2d][0], radix) == None;
  }

  /** Only blanks are trimmed, and all of them at both ends. */
  lemma {:induction false} TrimSpaceMeans(t: Bytes) returns (a: nat, b: nat)
    ensures a <= b <= |t| && TrimSpace(t) == t[a..b]
    ensures (forall k :: 0 <= k < a ==> IsSpace(t[k])) && forall k :: b <= k < |t| ==> IsSpace(t[k])
    ensures a < b ==> !IsSpace(t[a]) && !IsSpace(t[b - 1])
    decreases |t|
  {
    hide IsSpace;
    if t != [] && IsSpace(t[0]) {
      var rest := t[1..];
      a, b := TrimSpaceMeans(rest);
      assert rest[a..b] == t[a + 1..b + 1];
      forall k | 0 <= k < a + 1 ensures IsSpace(t[k]) { if k > 0 { assert t[k] == rest[k - 1]; } }
      forall k | b + 1 <= k < |t| ensures IsSpace(t[k]) { assert t[k] == rest[k - 1]; }
      a, b := a + 1, b + 1;
    } else if t != [] && IsSpace(t[|t| - 1]) {
      var rest := t[..|t| - 1];
      a, b := TrimSpaceMeans(rest);
      assert rest[a..b] == t[a..b];
      forall k | b <= k < |t| ensures IsSpace(t[k]) { if k < |t| - 1 { assert t[k] == rest[k]; } }
    } else {
      a, b := 0, |t|;
      assert t[0..|t|] == t;
    }
  }

  // ---------------------------------------------------------------- ingestion in full

  /** A space ends a token, so a term is found in two texts with one between exactly when it is found in either. */
  lemma FoundInSpaced(x: Bytes, y: Bytes, t: Bytes)
    ensures FoundIn(Spaced(x, y), t) <==> FoundIn(x, t) || FoundIn(y, t)
  {
    hide IsTokenByte, IsJoiner, LowerAll;
    var text, n := Spaced(x, y), |x| + 1;
    if |t| >= 3 {
      if i: nat, a: nat, b: nat, j: nat :| FoundAt(text, i, a, b, j, t) {
        SpaceSplits(x, y, i, j);
        if j <= |x| { FoundLeft(x, y, i, a, b, j, t); } else { FoundRight(x, y, i - n, a - n, b - n, j - n, t); }
      }
      if i: nat, a: nat, b: nat, j: nat :| FoundAt(x, i, a, b, j, t) { FoundLeft(x, y, i, a, b, j, t); }
      if i: nat, a: nat, b: nat, j: nat :| FoundAt(y, i, a, b, j, t) { FoundRight(x, y, i, a, b, j, t); }
    }
  }

  lemma SpaceSplits(x: Bytes, y: Bytes, i: nat, j: nat)
    requires RunAt(Spaced(x, y), i, j)
    ensures j <= |x| || i > |x|
  {
    assert !IsTokenByte(32);
    assert Spaced(x, y)[|x|] == 32;
    hide IsTokenByte;
  }

  lemma FoundLeft(x: Bytes, y: Bytes, i: nat, a: nat, b: nat, j: nat, t: Bytes)
    requires j <= |x|
    ensures FoundAt(Spaced(x, y), i, a, b, j, t) <==> FoundAt(x, i, a, b, j, t)
  {
    assert !IsTokenByte(32);
    hide IsTokenByte, IsJoiner, LowerAll;
    var text := Spaced(x, y);
    assert text[|x|] == 32 && forall k :: 0 <= k < |x| ==> text[k] == x[k];
    if a <= b <= |x| { assert text[a..b] == x[a..b]; }
  }

  lemma FoundRight(x: Bytes, y: Bytes, i: nat, a: nat, b: nat, j: nat, t: Bytes)
    ensures var n := |x| + 1;
            FoundAt(Spaced(x, y), i + n, a + n, b + n, j + n, t) <==> FoundAt(y, i, a, b, j, t)
  {
    hide IsTokenByte, IsJoiner, LowerAll, RunAt, Spaced, Behind;
    var text, n := Spaced(x, y), |x| + 1;
    SpacedBehind(x, y);
    RunMoves(text, y, n, i, j);
    CutMoves(text, y, n, i, a, b, j);
    SliceMoves(text, y, n, a, b);
  }

  lemma SpacedBehind(x: Bytes, y: Bytes)
    ensures Behind(Spaced(x, y), y, |x| + 1)
  {
  }

  lemma SliceMoves(text: Bytes, y: Bytes, n: nat, a: nat, b: nat)
    requires Behind(text, y, n)
    ensures a <= b <= |y| ==> text[a + n..b + n] == y[a..b]
  {
    if a <= b <= |y| {
      forall k | 0 <= k < b - a ensures text[a + n..b + n][k] == y[a..b][k] { assert text[a + k + n] == y[a + k]; }
    }
  }

  /** `y` stands in `text` from `n` on, behind a space. */
  ghost predicate Behind(text: Bytes, y: Bytes, n: nat) {
    0 < n && |text| == |y| + n && text[n - 1] == 32 && forall k :: 0 <= k < |y| ==> text[k + n] == y[k]
  }

  lemma RunMoves(text: Bytes, y: Bytes, n: nat, i: nat, j: nat)
    requires Behind(text, y, n)
    ensures RunAt(text, i + n, j + n) <==> RunAt(y, i, j)
  {
    assert !IsTokenByte(32);
    hide IsTokenByte;
    if RunAt(text, i + n, j + n) {
      forall k | i <= k < j ensures IsTokenByte(y[k]) { assert text[k + n] == y[k]; }
      if i > 0 { assert text[i - 1 + n] == y[i - 1]; }
    }
    if RunAt(y, i, j) {
      forall k | i + n <= k < j + n ensures IsTokenByte(text[k]) { assert text[k - n + n] == y[k - n]; }
      if i > 0 { assert text[i - 1 + n] == y[i - 1]; }
    }
  }

  lemma CutMoves(text: Bytes, y: Bytes, n: nat, i: nat, a: nat, b: nat, j: nat)
    requires Behind(text, y, n)
    ensures CutAt(text, i + n, a + n, b + n, j + n) <==> CutAt(y, i, a, b, j)
  {
    hide IsJoiner;
    if CutAt(text, i + n, a + n, b + n, j + n) {
      assert text[b - 1 + n] == y[b - 1];
      forall k | i <= k < a ensures IsJoiner(y[k]) { assert text[k + n] == y[k]; }
      forall k | b <= k < j ensures IsJoiner(y[k]) { assert text[k + n] == y[k]; }
    }
    if CutAt(y, i, a, b, j) {
      assert text[b - 1 + n] == y[b - 1];
      forall k | i + n <= k < a + n ensures IsJoiner(text[k]) { assert text[k - n + n] == y[k - n]; }
      forall k | b + n <= k < j + n ensures IsJoiner(text[k]) { assert text[k - n + n] == y[k - n]; }
    }
  }

  /** The fields taken over as they are, and the numbers parsed. */
  ghost predicate TakesOver(raw: RawCapsule, c: Capsule) {
    && ParseU128(raw.id) == Ok(c.id) && ParseU128(raw.contextMask) == Ok(c.contextMask) && ParseU128(raw.policyMask) == Ok(c.policyMask)
    && c.tenantId == raw.tenantId && c.claim == raw.claim && c.evidence == raw.evidence
    && c.sourceId == raw.sourceId && c.sourceUri == raw.sourceUri
    && c.validFrom == raw.validFrom && c.validUntil == raw.validUntil
    && c.observedAt == raw.observedAt && c.lastVerifiedAt == raw.lastVerifiedAt
    && c.trustLevel == raw.trustLevel && c.classification == raw.classification && c.poisonRisk == raw.poisonRisk
    && |c.relationEdges| == |raw.relationEdges|
    && forall i :: 0 <= i < |c.relationEdges| ==>
         var e, r := c.relationEdges[i], raw.relationEdges[i];
         ParseU128(r.from) == Ok(e.from) && ParseU128(r.to) == Ok(e.to) && e.kind == r.kind && e.weight == r.weight
  }

  /** The terms: found in the given values, or, when none are given, in the claim or the evidence; entities default to anchors. */
  ghost predicate TakesTerms(raw: RawCapsule, c: Capsule) {
    && (forall t :: t in c.anchors <==>
          if raw.anchors.Some? then exists v :: v in raw.anchors.value && FoundIn(v, t) else FoundIn(raw.claim, t) || FoundIn(raw.evidence, t))
    && (raw.entities.Some? ==> forall t :: t in c.entities <==> exists v :: v in raw.entities.value && FoundIn(v, t))
    && (raw.entities.None? ==> c.entities == c.anchors)
  }

  lemma {:induction false} EdgesTaken(es: seq<RawEdge>)
    requires IntoEdges(es).Ok?
    ensures var out := IntoEdges(es).value;
            && |out| == |es|
            && forall i :: 0 <= i < |es| ==>
                 ParseU128(es[i].from) == Ok(out[i].from) && ParseU128(es[i].to) == Ok(out[i].to) && out[i].kind == es[i].kind && out[i].weight == es[i].weight
  {
    hide ParseU128;
    if es != [] { EdgesTaken(es[1..]); }
  }

  lemma {:induction false} EdgesParse(es: seq<RawEdge>)
    ensures IntoEdges(es).Ok? <==> forall i :: 0 <= i < |es| ==> ParseU128(es[i].from).Ok? && ParseU128(es[i].to).Ok?
  {
    hide ParseU128;
    if es != [] {
      EdgesParse(es[1..]);
      if IntoEdges(es[1..]).Ok? && ParseU128(es[0].from).Ok? && ParseU128(es[0].to).Ok? {
        forall i | 0 <= i < |es| ensures ParseU128(es[i].from).Ok? && ParseU128(es[i].to).Ok? { if i > 0 { assert es[1..][i - 1] == es[i]; } }
      }
      if forall i :: 0 <= i < |es| ==> ParseU128(es[i].from).Ok? && ParseU128(es[i].to).Ok? {
        forall i | 0 <= i < |es| - 1 ensures ParseU128(es[1..][i].from).Ok? && ParseU128(es[1..][i].to).Ok? { assert es[1..][i] == es[i + 1]; }
      }
    }
  }

  lemma AnchorsTaken(raw: RawCapsule, t: Bytes)
    ensures t in AnchorsOf(raw) <==>
            if raw.anchors.Some? then exists v :: v in raw.anchors.value && FoundIn(v, t) else FoundIn(raw.claim, t) || FoundIn(raw.evidence, t)
  {
    hide FoundIn, Normalize, ExtractTerms;
    match raw.anchors
    case Some(values) => NormalizedExactly(values, t);
    case None =>
      var text := Spaced(raw.claim, raw.evidence);
      ExtractGivesTerms(text);
      NormalizeFixpoint(ExtractTerms(text));
      ExtractedExactly(text, t);
      FoundInSpaced(raw.claim, raw.evidence, t);
  }

  lemma EntitiesTaken(raw: RawCapsule, t: Bytes)
    ensures raw.entities.Some? ==> (t in EntitiesOf(raw) <==> exists v :: v in raw.entities.value && FoundIn(v, t))
    ensures raw.entities.None? ==> EntitiesOf(raw) == AnchorsOf(raw)
  {
    hide FoundIn, Normalize, ExtractTerms;
    match raw.entities
    case Some(values) => NormalizedExactly(values, t);
    case None => NormalizeIdempotent(match raw.anchors case Some(a) => a case None => ExtractTerms(Spaced(raw.claim, raw.evidence)));
  }

  /** Ingestion in full: every field, the terms, and the two digests over the bytes they are meant to cover. */
  lemma BuiltMeans(env: Env, raw: RawCapsule)
    requires IntoCapsule(env, raw).Ok?
    ensures var c := IntoCapsule(env, raw).value;
            && TakesOver(raw, c) && TakesTerms(raw, c)
            && c.contentHash == env.hash(raw.claim + [0x0a] + raw.evidence)
            && c.semanticBits == env.semanticBitsFor(raw.claim + [0x20] + raw.evidence + [0x20] + Joined(c.anchors))
            && c.residual == env.residualFor(raw.claim + [0x20] + raw.evidence + [0x20] + Joined(c.anchors))
            && c.sourceHash == env.hash(if raw.sourceUri.Some? then raw.sourceUri.value else raw.evidence)
            && (raw.embedding.None? ==> c.embedding == [])
            && (raw.embedding.Some? ==> |c.embedding| == |raw.embedding.value|
                                        && forall i :: 0 <= i < |c.embedding| ==> raw.embedding.value[i] == Some(c.embedding[i]))
  {
    hide FoundIn, AnchorsOf, EntitiesOf, ParseU128, IntoEdges;
    EdgesTaken(raw.relationEdges);
    TermsTaken(raw, IntoCapsule(env, raw).value);
  }

  lemma TermsTaken(raw: RawCapsule, c: Capsule)
    requires c.anchors == AnchorsOf(raw) && c.entities == EntitiesOf(raw)
    ensures TakesTerms(raw, c)
  {
    hide FoundIn, AnchorsOf, EntitiesOf;
    forall t ensures t in c.anchors <==>
        if raw.anchors.Some? then exists v :: v in raw.anchors.value && FoundIn(v, t) else FoundIn(raw.claim, t) || FoundIn(raw.evidence, t)
    {
      AnchorsTaken(raw, t);
    }
    forall t ensures raw.entities.Some? ==> (t in c.entities <==> exists v :: v in raw.entities.value && FoundIn(v, t)) {
      EntitiesTaken(raw, t);
    }
    EntitiesTaken(raw, []);
  }

  /** It fails exactly when a number does not parse or a lane is missing. */
  lemma BuiltWhen(env: Env, raw: RawCapsule)
    ensures IntoCapsule(env, raw).Ok? <==>
            && ParseU128(raw.id).Ok? && ParseU128(raw.contextMask).Ok? && ParseU128(raw.policyMask).Ok?
            && (forall i :: 0 <= i < |raw.relationEdges| ==> ParseU128(raw.relationEdges[i].from).Ok? && ParseU128(raw.relationEdges[i].to).Ok?)
            && (raw.embedding.Some? ==> None !in raw.embedding.value)
  {
    hide AnchorsOf, EntitiesOf, ParseU128, IntoEdges, SemanticText, LanesOf;
    EdgesParse(raw.relationEdges);
  }
}
