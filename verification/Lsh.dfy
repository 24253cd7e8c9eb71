/** Fingerprint distance, 16-bit bands, and why near fingerprints share a band. */
module Lsh {
  import opened Results
  import opened Words
  import opened BitSets
  import opened Capsules

  const BANDS: nat := 16
  const SIGNATURE_BANDS: nat := 4

  /** `w >> k`: drops the `k` low bits, one at a time. */
  function ShiftRight(w: nat, k: nat): nat
    decreases k
  {
    if k == 0 then w else ShiftRight(w / 2, k - 1)
  }

  /** The number formed by the `k` low bits. */
  function Low(w: nat, k: nat): nat
    decreases k
  {
    if k == 0 then 0 else w % 2 + 2 * Low(w / 2, k - 1)
  }

  /** `((word >> (16 * slice)) & 0xffff)`. */
  function Slice16(word: nat, slice: nat): nat {
    And(ShiftRight(word, 16 * slice), 0xffff)
  }

  function BandKey(bits: SemanticBits, band: nat): nat
    requires band < BANDS
  {
    Slice16(bits[band / 4], band % 4)
  }

  function SemanticBucket(bits: SemanticBits): nat {
    And(bits[0], 0xffff)
  }

  function HammingDistance(a: SemanticBits, b: SemanticBits): nat {
    CountOnes(Xor(a[0], b[0])) + CountOnes(Xor(a[1], b[1])) + CountOnes(Xor(a[2], b[2])) + CountOnes(Xor(a[3], b[3]))
  }

  /** The positions below 256 at which the fingerprints differ. */
  function Differing(a: SemanticBits, b: SemanticBits): (s: set<nat>)
    ensures forall i: nat :: i in s <==> i < 256 && DiffersAt(a, b, i)
  {
    set i: nat | 0 <= i < 256 && DiffersAt(a, b, i)
  }

  predicate DiffersAt(a: SemanticBits, b: SemanticBits, i: nat)
    requires i < 256
  {
    Bit(a[i / 64], i % 64) != Bit(b[i / 64], i % 64)
  }

  function Xors(a: SemanticBits, b: SemanticBits): (ws: seq<nat>)
    ensures |ws| == 4
  {
    [Xor(a[0], b[0]), Xor(a[1], b[1]), Xor(a[2], b[2]), Xor(a[3], b[3])]
  }

  /** The distance is the number of differing bits. */
  lemma DistanceCountsBits(a: SemanticBits, b: SemanticBits)
    ensures HammingDistance(a, b) == |Differing(a, b)|
  {
    hide Xor, CountOnes, Bit;
    forall k | 0 <= k < 4 ensures Xor(a[k], b[k]) < 0x1_0000_0000_0000_0000 {
      WordRange();
      XorBound(a[k], b[k], 64);
    }
    var ws: seq<u64> := Xors(a, b);
    Cardinality(ws);
    SumOfFour(ws);
    forall i: nat ensures i in Elements(ws, 256) <==> i in Differing(a, b) {
      if i < 256 {
        assert ws[i / 64] == Xor(a[i / 64], b[i / 64]);
        BitXor(a[i / 64], b[i / 64], i % 64);
      }
    }
    assert Elements(ws, 256) == Differing(a, b);
  }

  lemma SumOfFour(ws: seq<u64>)
    requires |ws| == 4
    ensures SumOnes(ws) == CountOnes(ws[0]) + CountOnes(ws[1]) + CountOnes(ws[2]) + CountOnes(ws[3])
  {
    hide CountOnes;
    assert SumOnes(ws[..1]) == SumOnes([]) + CountOnes(ws[0]) by { assert ws[..1][..0] == []; }
    assert SumOnes(ws[..2]) == SumOnes(ws[..1]) + CountOnes(ws[1]) by { assert ws[..2][..1] == ws[..1]; }
    assert SumOnes(ws[..3]) == SumOnes(ws[..2]) + CountOnes(ws[2]) by { assert ws[..3][..2] == ws[..2]; }
  }

  /** The word-by-word sum of `hamming_distance`. */
  method Hamming(a: SemanticBits, b: SemanticBits) returns (distance: nat)
    ensures distance == HammingDistance(a, b) == |Differing(a, b)|
  {
    DistanceCountsBits(a, b);
    distance := 0;
    var i := 0;
    while i < 4
      invariant 0 <= i <= 4
      invariant distance == (if i > 0 then CountOnes(Xor(a[0], b[0])) else 0) + (if i > 1 then CountOnes(Xor(a[1], b[1])) else 0)
                            + (if i > 2 then CountOnes(Xor(a[2], b[2])) else 0) + (if i > 3 then CountOnes(Xor(a[3], b[3])) else 0)
    {
      distance := distance + CountOnes(Xor(a[i], b[i]));
      i := i + 1;
    }
  }

  // ---------------------------------------------------------------- masks and shifts

  lemma {:induction false} AndLowMask(w: nat, k: nat)
    ensures And(w, Pow2(k) - 1) == Low(w, k)
    decreases k
  {
    if k > 0 {
      AndLowMask(w / 2, k - 1);
      assert (Pow2(k) - 1) / 2 == Pow2(k - 1) - 1;
      if w == 0 { LowOfZero(k); }
    }
  }

  lemma {:induction false} LowOfZero(k: nat)
    ensures Low(0, k) == 0
  {
    if k > 0 { LowOfZero(k - 1); }
  }

  lemma {:induction false} ShiftShift(w: nat, m: nat, n: nat)
    ensures ShiftRight(ShiftRight(w, m), n) == ShiftRight(w, m + n)
    decreases m
  {
    if m > 0 { ShiftShift(w / 2, m - 1, n); }
  }

  lemma Pow2Sixteen()
    ensures Pow2(16) == 0x1_0000
  {
    assert Pow2(8) == 256 by { assert Pow2(4) == 16; }
    assert Pow2(12) == 4096;
  }

  lemma SliceIsLow(word: nat, slice: nat)
    ensures Slice16(word, slice) == Low(ShiftRight(word, 16 * slice), 16)
  {
    hide Pow2, And, Low, ShiftRight;
    Pow2Sixteen();
    AndLowMask(ShiftRight(word, 16 * slice), 16);
  }

  /** The semantic bucket is the first band. */
  lemma BucketIsFirstBand(bits: SemanticBits)
    ensures SemanticBucket(bits) == BandKey(bits, 0)
  {
  }

  // ---------------------------------------------------------------- counting differing digits

  lemma XorStep(a: nat, b: nat)
    ensures CountOnes(Xor(a, b)) == (if a % 2 != b % 2 then 1 else 0) + CountOnes(Xor(a / 2, b / 2))
  {
    if a != 0 && b != 0 {
      var low := if a % 2 != b % 2 then 1 else 0;
      assert Xor(a, b) == low + 2 * Xor(a / 2, b / 2);
      assert Xor(a, b) / 2 == Xor(a / 2, b / 2) && Xor(a, b) % 2 == low;
    } else if a == 0 {
      assert Xor(a / 2, b / 2) == b / 2;
    } else {
      assert Xor(a / 2, b / 2) == a / 2;
    }
  }

  /** Words that differ in their low `k` bits spend at least one bit of distance there. */
  lemma {:induction false} LowDigitCosts(a: nat, b: nat, k: nat)
    ensures CountOnes(Xor(a, b))
            >= Differs(Low(a, k), Low(b, k)) + CountOnes(Xor(ShiftRight(a, k), ShiftRight(b, k)))
    decreases k
  {
    if k > 0 {
      LowDigitCosts(a / 2, b / 2, k - 1);
      XorStep(a, b);
    }
  }

  function Differs(x: nat, y: nat): nat {
    if x != y then 1 else 0
  }

  /** A word's distance is at least its number of differing 16-bit slices. */
  lemma WordDistance(a: nat, b: nat)
    ensures CountOnes(Xor(a, b)) >= Differs(Slice16(a, 0), Slice16(b, 0)) + Differs(Slice16(a, 1), Slice16(b, 1))
                                    + Differs(Slice16(a, 2), Slice16(b, 2)) + Differs(Slice16(a, 3), Slice16(b, 3))
  {
    hide Xor, CountOnes, Slice16, ShiftRight, Low;
    SliceCosts(a, b, 0);
    SliceCosts(a, b, 1);
    SliceCosts(a, b, 2);
    SliceCosts(a, b, 3);
    NoShift(a);
    NoShift(b);
  }

  lemma NoShift(a: nat)
    ensures ShiftRight(a, 0) == a
  {
  }

  lemma SliceCosts(a: nat, b: nat, slice: nat)
    ensures CountOnes(Xor(ShiftRight(a, 16 * slice), ShiftRight(b, 16 * slice)))
            >= Differs(Slice16(a, slice), Slice16(b, slice))
               + CountOnes(Xor(ShiftRight(a, 16 * (slice + 1)), ShiftRight(b, 16 * (slice + 1))))
  {
    hide Xor, CountOnes, Slice16, ShiftRight, Low;
    SliceIsLow(a, slice);
    SliceIsLow(b, slice);
    LowDigitCosts(ShiftRight(a, 16 * slice), ShiftRight(b, 16 * slice), 16);
    ShiftShift(a, 16 * slice, 16);
    ShiftShift(b, 16 * slice, 16);
  }

  predicate SharesBand(a: SemanticBits, b: SemanticBits) {
    exists band :: 0 <= band < BANDS && BandKey(a, band) == BandKey(b, band)
  }

  /** Pigeonhole: fewer differing bits than bands leave some band untouched. */
  lemma NearSharesBand(a: SemanticBits, b: SemanticBits)
    requires HammingDistance(a, b) < BANDS
    ensures SharesBand(a, b)
  {
    hide Xor, CountOnes, Slice16;
    WordDistance(a[0], b[0]);
    WordDistance(a[1], b[1]);
    WordDistance(a[2], b[2]);
    WordDistance(a[3], b[3]);
    if !SharesBand(a, b) {
      forall band | 0 <= band < BANDS ensures Slice16(a[band / 4], band % 4) != Slice16(b[band / 4], band % 4) {
        assert BandKey(a, band) != BandKey(b, band);
      }
      forall w, s | 0 <= w < 4 && 0 <= s < 4 ensures Slice16(a[w], s) != Slice16(b[w], s) {
        assert (4 * w + s) / 4 == w && (4 * w + s) % 4 == s;
      }
      assert false;
    }
  }

  // ---------------------------------------------------------------- the bound is exact

  function ShiftLeft(w: nat, k: nat): nat {
    if k == 0 then w else 2 * ShiftLeft(w, k - 1)
  }

  lemma {:induction false} ShiftLeftUndone(w: nat, k: nat)
    ensures ShiftRight(ShiftLeft(w, k), k) == w && Low(ShiftLeft(w, k), k) == 0
    ensures CountOnes(ShiftLeft(w, k)) == CountOnes(w)
  {
    if k > 0 {
      ShiftLeftUndone(w, k - 1);
      var v := ShiftLeft(w, k - 1);
      assert 2 * v / 2 == v;
      if v == 0 { assert CountOnes(0) == 0; }
    }
  }

  lemma {:induction false} ShiftLeftIsProduct(w: nat, k: nat)
    ensures ShiftLeft(w, k) == Pow2(k) * w
  {
    if k > 0 {
      ShiftLeftIsProduct(w, k - 1);
      assert 2 * (Pow2(k - 1) * w) == (2 * Pow2(k - 1)) * w;
    }
  }

  /** A 16-bit digit of value one, put below `w`. */
  lemma UnitDigit(w: nat)
    ensures CountOnes(0x1_0000 * w + 1) == CountOnes(w) + 1
    ensures ShiftRight(0x1_0000 * w + 1, 16) == w && Low(0x1_0000 * w + 1, 16) == 1
  {
    hide CountOnes, ShiftRight, Low, ShiftLeft;
    var v := ShiftLeft(w, 15);
    ShiftLeftUndone(w, 15);
    assert 0x1_0000 * w + 1 == 2 * v + 1 by {
      ShiftLeftIsProduct(w, 15);
      Pow2Sixteen();
      assert Pow2(16) == 2 * Pow2(15);
    }
    OddDigit(v, 15);
  }

  lemma OddDigit(v: nat, k: nat)
    ensures CountOnes(2 * v + 1) == CountOnes(v) + 1
    ensures ShiftRight(2 * v + 1, k + 1) == ShiftRight(v, k) && Low(2 * v + 1, k + 1) == 1 + 2 * Low(v, k)
  {
    assert (2 * v + 1) / 2 == v && (2 * v + 1) % 2 == 1;
  }

  function Units(n: nat): nat {
    if n == 0 then 0 else 0x1_0000 * Units(n - 1) + 1
  }

  lemma {:induction false} UnitsCount(n: nat)
    ensures CountOnes(Units(n)) == n
  {
    if n == 0 {
      assert CountOnes(0) == 0;
    } else {
      hide CountOnes;
      UnitsCount(n - 1);
      UnitDigit(Units(n - 1));
    }
  }

  lemma UnitsShift(n: nat)
    requires n > 0
    ensures ShiftRight(Units(n), 16) == Units(n - 1) && Low(Units(n), 16) == 1
  {
    hide CountOnes, ShiftRight, Low;
    UnitDigit(Units(n - 1));
  }

  lemma {:induction false} UnitSlices(n: nat, slice: nat)
    requires slice < n
    ensures ShiftRight(Units(n), 16 * slice) == Units(n - slice) && Slice16(Units(n), slice) == 1
  {
    hide CountOnes, Low, Slice16;
    if slice > 0 {
      UnitSlices(n, slice - 1);
      ShiftShift(Units(n), 16 * (slice - 1), 16);
      UnitsShift(n - slice + 1);
    }
    UnitsShift(n - slice);
    SliceIsLow(Units(n), slice);
  }

  lemma ZeroSlice(slice: nat)
    ensures Slice16(0, slice) == 0
  {
    hide ShiftRight;
    SliceIsLow(0, slice);
    assert And(ShiftRight(0, 16 * slice), 0xffff) == 0 by { ZeroShift(16 * slice); }
  }

  lemma {:induction false} ZeroShift(k: nat)
    ensures ShiftRight(0, k) == 0
  {
    if k > 0 { ZeroShift(k - 1); }
  }

  /** One bit in every band is distance 16, and no band is shared. */
  lemma SixteenCanMiss()
    ensures var w := 0x1_0001_0001_0001;
            var a: SemanticBits, b: SemanticBits := [0, 0, 0, 0], [w, w, w, w];
            HammingDistance(a, b) == 16 && !SharesBand(a, b)
  {
    hide Slice16, CountOnes;
    var w := 0x1_0001_0001_0001;
    assert Units(4) == w by { assert Units(2) == 0x1_0001; }
    UnitsCount(4);
    var a: SemanticBits, b: SemanticBits := [0, 0, 0, 0], [w, w, w, w];
    forall band | 0 <= band < BANDS ensures BandKey(a, band) != BandKey(b, band) {
      assert a[band / 4] == 0 && b[band / 4] == w;
      ZeroSlice(band % 4);
      UnitSlices(4, band % 4);
    }
  }

  // ---------------------------------------------------------------- bands by their bits

  lemma {:induction false} BitOfShift(w: nat, m: nat, k: nat)
    ensures Bit(ShiftRight(w, m), k) == Bit(w, m + k)
    decreases m
  {
    if m > 0 { BitOfShift(w / 2, m - 1, k); }
  }

  /** A slice is made of sixteen consecutive bits. */
  lemma SliceBit(w: nat, slice: nat, k: nat)
    ensures Bit(Slice16(w, slice), k) <==> k < 16 && Bit(w, 16 * slice + k)
  {
    hide Bit, ShiftRight, And;
    Pow2Sixteen();
    BitAnd(ShiftRight(w, 16 * slice), 0xffff, k);
    BitLowMask(16, k);
    BitOfShift(w, 16 * slice, k);
  }

  lemma DifferingSlice(a: nat, b: nat, slice: nat) returns (i: nat)
    requires Slice16(a, slice) != Slice16(b, slice)
    ensures 16 * slice <= i < 16 * slice + 16 && Bit(a, i) != Bit(b, i)
  {
    hide Slice16, Bit;
    var k := DifferingBit(Slice16(a, slice), Slice16(b, slice));
    SliceBit(a, slice, k);
    SliceBit(b, slice, k);
    i := 16 * slice + k;
  }

  lemma EqualSlices(a: nat, b: nat, slice: nat, i: nat)
    requires Slice16(a, slice) == Slice16(b, slice) && 16 * slice <= i < 16 * slice + 16
    ensures Bit(a, i) == Bit(b, i)
  {
    hide Slice16, Bit;
    SliceBit(a, slice, i - 16 * slice);
    SliceBit(b, slice, i - 16 * slice);
  }

  /** Two fingerprints have a band key in common exactly when they agree on its sixteen of the 256 positions. */
  lemma BandKeysAgree(a: SemanticBits, b: SemanticBits, band: nat)
    requires band < BANDS
    ensures BandKey(a, band) == BandKey(b, band) <==> forall i: nat :: 16 * band <= i < 16 * band + 16 ==> !DiffersAt(a, b, i)
  {
    hide Slice16, Bit;
    var w, s := band / 4, band % 4;
    if Slice16(a[w], s) != Slice16(b[w], s) {
      var j := DifferingSlice(a[w], b[w], s);
      InWord(band, j + 64 * w);
      assert DiffersAt(a, b, j + 64 * w);
    } else {
      forall i: nat | 16 * band <= i < 16 * band + 16 ensures !DiffersAt(a, b, i) {
        InWord(band, i);
        EqualSlices(a[w], b[w], s, i - 64 * w);
      }
    }
  }

  lemma InWord(band: nat, i: nat)
    requires 16 * band <= i < 16 * band + 16
    ensures i / 64 == band / 4 && i % 64 == i - 64 * (band / 4) && 16 * (band % 4) <= i - 64 * (band / 4) < 16 * (band % 4) + 16
  {
  }
}
