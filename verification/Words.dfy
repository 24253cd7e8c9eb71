/**
 Bit algebra of unsigned machine words, carried out on natural numbers.
 `Bit(w, k)` is the meaning of a word; the operators `&`, `|`, `^`, `!`, `1 << k`,
 `count_ones` and `trailing_zeros` are defined digit by digit and characterised by it.
 */
module Words {

  function Pow2(n: nat): (p: nat)
    ensures p > 0
  {
    if n == 0 then 1 else 2 * Pow2(n - 1)
  }

  function Bit(w: nat, k: nat): bool
    decreases k
  {
    if k == 0 then w % 2 == 1 else Bit(w / 2, k - 1)
  }

  function And(a: nat, b: nat): nat {
    if a == 0 || b == 0 then 0
    else (if a % 2 == 1 && b % 2 == 1 then 1 else 0) + 2 * And(a / 2, b / 2)
  }

  function Or(a: nat, b: nat): nat {
    if a == 0 then b else if b == 0 then a
    else (if a % 2 == 1 || b % 2 == 1 then 1 else 0) + 2 * Or(a / 2, b / 2)
  }

  function Xor(a: nat, b: nat): nat {
    if a == 0 then b else if b == 0 then a
    else (if a % 2 != b % 2 then 1 else 0) + 2 * Xor(a / 2, b / 2)
  }

  /** `!w` on a word of `width` bits. */
  function Not(width: nat, w: nat): nat
    requires w < Pow2(width)
  {
    Pow2(width) - 1 - w
  }

  function CountOnes(w: nat): nat {
    if w == 0 then 0 else w % 2 + CountOnes(w / 2)
  }

  function TrailingZeros(w: nat): nat
    requires w > 0
  {
    if w % 2 == 1 then 0 else 1 + TrailingZeros(w / 2)
  }

  // ---------------------------------------------------------------- bits of the operators

  lemma {:induction false} BitZero(k: nat)
    ensures !Bit(0, k)
    decreases k
  {
    if k > 0 { BitZero(k - 1); }
  }

  lemma {:induction false} BitAnd(a: nat, b: nat, k: nat)
    ensures Bit(And(a, b), k) <==> Bit(a, k) && Bit(b, k)
    decreases k
  {
    if a == 0 || b == 0 {
      BitZero(k);
    } else if k > 0 {
      BitAnd(a / 2, b / 2, k - 1);
    }
  }

  lemma {:induction false} BitOr(a: nat, b: nat, k: nat)
    ensures Bit(Or(a, b), k) <==> Bit(a, k) || Bit(b, k)
    decreases k
  {
    if a == 0 || b == 0 {
      BitZero(k);
    } else if k > 0 {
      BitOr(a / 2, b / 2, k - 1);
    }
  }

  lemma {:induction false} BitXor(a: nat, b: nat, k: nat)
    ensures Bit(Xor(a, b), k) <==> Bit(a, k) != Bit(b, k)
    decreases k
  {
    if a == 0 || b == 0 {
      BitZero(k);
    } else if k > 0 {
      BitXor(a / 2, b / 2, k - 1);
    }
  }

  lemma {:induction false} BitPow2(n: nat, k: nat)
    ensures Bit(Pow2(n), k) <==> k == n
    decreases k
  {
    if k == 0 {
    } else if n == 0 {
      BitZero(k - 1);
    } else {
      BitPow2(n - 1, k - 1);
    }
  }

  lemma {:induction false} BitNot(width: nat, w: nat, k: nat)
    requires w < Pow2(width) && k < width
    ensures Bit(Not(width, w), k) <==> !Bit(w, k)
    decreases k
  {
    assert Not(width, w) / 2 == Not(width - 1, w / 2);
    if k > 0 {
      BitNot(width - 1, w / 2, k - 1);
    }
  }

  lemma {:induction false} BitBeyond(w: nat, width: nat, k: nat)
    requires w < Pow2(width) && k >= width
    ensures !Bit(w, k)
    decreases k
  {
    if width == 0 {
      BitZero(k);
    } else {
      BitBeyond(w / 2, width - 1, k - 1);
    }
  }

  /** The low mask `(1 << n) - 1` has exactly the bits below `n`. */
  lemma {:induction false} BitLowMask(n: nat, k: nat)
    ensures Bit(Pow2(n) - 1, k) <==> k < n
    decreases n
  {
    if n == 0 {
      BitZero(k);
    } else if k > 0 {
      assert (Pow2(n) - 1) / 2 == Pow2(n - 1) - 1;
      BitLowMask(n - 1, k - 1);
    }
  }

  lemma {:induction false} Pow2Monotone(m: nat, n: nat)
    requires m <= n
    ensures Pow2(m) <= Pow2(n)
    decreases n
  {
    if m < n { Pow2Monotone(m, n - 1); }
  }

  lemma {:induction false} AndBound(a: nat, b: nat)
    ensures And(a, b) <= a && And(a, b) <= b
  {
    if a != 0 && b != 0 { AndBound(a / 2, b / 2); }
  }

  lemma {:induction false} OrBound(a: nat, b: nat, width: nat)
    requires a < Pow2(width) && b < Pow2(width)
    ensures Or(a, b) < Pow2(width)
    decreases width
  {
    if a != 0 && b != 0 { OrBound(a / 2, b / 2, width - 1); }
  }

  lemma {:induction false} XorBound(a: nat, b: nat, width: nat)
    requires a < Pow2(width) && b < Pow2(width)
    ensures Xor(a, b) < Pow2(width)
    decreases width
  {
    if a != 0 && b != 0 { XorBound(a / 2, b / 2, width - 1); }
  }

  /** A word is zero exactly when it has no bit. */
  lemma {:induction false} SomeBit(w: nat)
    requires w > 0
    ensures Bit(w, TrailingZeros(w))
    ensures forall j | 0 <= j < TrailingZeros(w) :: !Bit(w, j)
  {
    if w % 2 == 0 {
      SomeBit(w / 2);
      forall j | 0 <= j < TrailingZeros(w) ensures !Bit(w, j) {
        if j > 0 { assert !Bit(w / 2, j - 1); }
      }
    }
  }

  /** Different words differ in some bit. */
  lemma {:induction false} DifferingBit(a: nat, b: nat) returns (k: nat)
    requires a != b
    ensures Bit(a, k) != Bit(b, k)
    decreases a + b
  {
    if a % 2 != b % 2 {
      k := 0;
    } else {
      k := DifferingBit(a / 2, b / 2);
      k := k + 1;
    }
  }

  // ---------------------------------------------------------------- the `x & (x - 1)` step

  lemma {:induction false} AndSelf(a: nat)
    ensures And(a, a) == a
  {
    if a != 0 { AndSelf(a / 2); }
  }

  /** `w &= w - 1` removes the lowest one bit and nothing else. */
  lemma {:induction false} ClearLowest(w: nat)
    requires w > 0
    ensures And(w, w - 1) < w
    ensures CountOnes(And(w, w - 1)) + 1 == CountOnes(w)
    ensures forall j: nat :: Bit(And(w, w - 1), j) <==> Bit(w, j) && j != TrailingZeros(w)
  {
    var r := And(w, w - 1);
    AndBound(w, w - 1);
    if w % 2 == 1 {
      AndSelf(w / 2);
      assert w == 1 || r == w - 1;
      assert r == w - 1;
      assert r / 2 == w / 2;
    } else {
      ClearLowest(w / 2);
      assert (w - 1) / 2 == w / 2 - 1;
      assert r == 2 * And(w / 2, w / 2 - 1);
    }
    forall j: nat ensures Bit(r, j) <==> Bit(w, j) && j != TrailingZeros(w) {
      if j > 0 && w % 2 == 0 {
        assert Bit(And(w / 2, w / 2 - 1), j - 1) <==> Bit(w / 2, j - 1) && j - 1 != TrailingZeros(w / 2);
      }
    }
  }
}
