/** Little-endian codec for fixed-width integers and the byte-window vocabulary of the reader. */
module ByteCodec {
  import opened Results

  function Pow256(n: nat): (p: nat)
    ensures p > 0
  {
    if n == 0 then 1 else 256 * Pow256(n - 1)
  }

  lemma Pow256Values()
    ensures Pow256(1) == 0x100 && Pow256(2) == 0x1_0000 && Pow256(4) == 0x1_0000_0000
    ensures Pow256(8) == 0x1_0000_0000_0000_0000
    ensures Pow256(16) == 0x1_0000_0000_0000_0000_0000_0000_0000_0000
  {
    assert Pow256(2) == 256 * Pow256(1) && Pow256(3) == 256 * Pow256(2) && Pow256(4) == 256 * Pow256(3);
    assert Pow256(5) == 256 * Pow256(4) && Pow256(6) == 256 * Pow256(5) && Pow256(7) == 256 * Pow256(6);
    assert Pow256(8) == 256 * Pow256(7) && Pow256(9) == 256 * Pow256(8) && Pow256(10) == 256 * Pow256(9);
    assert Pow256(11) == 256 * Pow256(10) && Pow256(12) == 256 * Pow256(11) && Pow256(13) == 256 * Pow256(12);
    assert Pow256(14) == 256 * Pow256(13) && Pow256(15) == 256 * Pow256(14) && Pow256(16) == 256 * Pow256(15);
  }

  /** `(n as uN).to_le_bytes()`: keeps the low `width` bytes, as the cast does. */
  function LE(n: nat, width: nat): (b: Bytes)
    ensures |b| == width
  {
    if width == 0 then [] else [n % 256] + LE(n / 256, width - 1)
  }

  function FromLE(b: Bytes): (n: nat)
    ensures n < Pow256(|b|)
  {
    if b == [] then 0 else b[0] + 256 * FromLE(b[1..])
  }

  lemma {:induction false} DecodeEncode(n: nat, width: nat)
    requires n < Pow256(width)
    ensures FromLE(LE(n, width)) == n
  {
    if width > 0 {
      DecodeEncode(n / 256, width - 1);
      assert LE(n, width)[1..] == LE(n / 256, width - 1);
    }
  }

  lemma {:induction false} EncodeDecode(b: Bytes)
    ensures LE(FromLE(b), |b|) == b
  {
    if b != [] {
      EncodeDecode(b[1..]);
      assert FromLE(b) / 256 == FromLE(b[1..]);
    }
  }

  /** Two's complement on `8 * width` bits. */
  function ToUnsigned(n: int, width: nat): (u: nat)
    requires 0 <= 2 * n + Pow256(width) < 2 * Pow256(width)
    ensures u < Pow256(width)
  {
    if n < 0 then n + Pow256(width) else n
  }

  function ToSigned(u: nat, width: nat): (n: int)
    requires u < Pow256(width)
    ensures 0 <= 2 * n + Pow256(width) < 2 * Pow256(width)
    ensures ToUnsigned(n, width) == u
  {
    if 2 * u < Pow256(width) then u else u - Pow256(width)
  }

  /** `field` stands in `bytes` at `offset`. */
  predicate At(bytes: Bytes, offset: nat, field: Bytes) {
    offset + |field| <= |bytes| && bytes[offset..offset + |field|] == field
  }

  lemma AtSplit(bytes: Bytes, offset: nat, a: Bytes, b: Bytes)
    ensures At(bytes, offset, a + b) <==> At(bytes, offset, a) && At(bytes, offset + |a|, b)
  {
    if offset + |a| + |b| <= |bytes| {
      var whole := bytes[offset..offset + |a| + |b|];
      assert whole[..|a|] == bytes[offset..offset + |a|];
      assert whole[|a|..] == bytes[offset + |a|..offset + |a| + |b|];
      assert (a + b)[..|a|] == a && (a + b)[|a|..] == b;
      assert whole == whole[..|a|] + whole[|a|..];
    }
  }
}
