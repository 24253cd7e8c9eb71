/** The word-packed bit set of `bitset.rs` refines a finite set of naturals. */
module BitSets {
  import opened Results
  import opened Words

  lemma WordRange()
    ensures Pow2(64) == 0x1_0000_0000_0000_0000
  {
    assert Pow2(8) == 256;
    assert Pow2(16) == 65536 by { assert Pow2(12) == 4096; }
    assert Pow2(24) == 0x100_0000 by { assert Pow2(20) == 0x10_0000; }
    assert Pow2(32) == 0x1_0000_0000 by { assert Pow2(28) == 0x1000_0000; }
    assert Pow2(40) == 0x100_0000_0000 by { assert Pow2(36) == 0x10_0000_0000; }
    assert Pow2(48) == 0x1_0000_0000_0000 by { assert Pow2(44) == 0x1000_0000_0000; }
    assert Pow2(56) == 0x100_0000_0000_0000 by { assert Pow2(52) == 0x10_0000_0000_0000; }
    assert Pow2(60) == 0x1000_0000_0000_0000;
  }

  function DivCeil(n: nat): nat {
    (n + 63) / 64
  }

  /** Membership of index `i` in the packed words `ws`. */
  predicate Has(ws: seq<u64>, i: nat) {
    i / 64 < |ws| && Bit(ws[i / 64], i % 64)
  }

  ghost predicate NoBitBeyond(ws: seq<u64>, size: nat) {
    forall i: nat :: Has(ws, i) ==> i < size
  }

  function Elements(ws: seq<u64>, size: nat): (s: set<nat>)
    ensures forall i: nat :: i in s <==> i < size && Has(ws, i)
  {
    set i: nat | 0 <= i < size && Has(ws, i)
  }

  function SumOnes(ws: seq<u64>): nat {
    if ws == [] then 0 else SumOnes(ws[..|ws| - 1]) + CountOnes(ws[|ws| - 1])
  }

  // ---------------------------------------------------------------- cardinality

  /** The members contributed by one word standing at word position `at`. */
  ghost function WordMembers(w: nat, at: nat, width: nat): (s: set<nat>)
    ensures forall i: nat :: i in s <==> at <= i < at + width && ShiftedBit(w, at, i)
  {
    set i: nat | at <= i < at + width && ShiftedBit(w, at, i)
  }

  ghost predicate ShiftedBit(w: nat, at: nat, i: nat) {
    at <= i && Bit(w, i - at)
  }

  lemma {:induction false} WordCardinality(w: nat, at: nat, width: nat)
    requires w < Pow2(width)
    ensures |WordMembers(w, at, width)| == CountOnes(w)
    decreases width
  {
    var all := WordMembers(w, at, width);
    if width == 0 {
      assert all == {};
    } else {
      var rest := WordMembers(w / 2, at + 1, width - 1);
      WordCardinality(w / 2, at + 1, width - 1);
      assert at !in rest;
      if w % 2 == 1 {
        assert all == {at} + rest;
      } else {
        assert all == rest;
      }
      assert CountOnes(w) == w % 2 + CountOnes(w / 2) by { if w == 0 { assert CountOnes(0) == 0; } }
    }
  }

  lemma {:induction false} Cardinality(ws: seq<u64>)
    ensures |Elements(ws, 64 * |ws|)| == SumOnes(ws)
  {
    if ws == [] {
      assert Elements(ws, 0) == {};
    } else {
      var n := |ws| - 1;
      var front := ws[..n];
      Cardinality(front);
      WordRange();
      WordCardinality(ws[n], 64 * n, 64);
      var low, high := Elements(front, 64 * n), WordMembers(ws[n], 64 * n, 64);
      forall i: nat ensures i in Elements(ws, 64 * |ws|) <==> i in low + high {
        if i < 64 * n {
          assert i / 64 < n;
        } else if i < 64 * n + 64 {
          assert i / 64 == n && i % 64 == i - 64 * n;
        }
      }
      assert Elements(ws, 64 * |ws|) == low + high;
      assert low !! high;
    }
  }

  /** Under the no-stray-bit invariant, the population count is the number of members. */
  lemma CountIsCardinality(ws: seq<u64>, size: nat)
    requires |ws| == DivCeil(size) && NoBitBeyond(ws, size)
    ensures SumOnes(ws) == |Elements(ws, size)|
  {
    Cardinality(ws);
    assert Elements(ws, 64 * |ws|) == Elements(ws, size);
  }

  // ---------------------------------------------------------------- single words

  lemma SetBit(w: u64, k: nat, j: nat)
    requires k < 64 && j < 64
    ensures Or(w, Pow2(k)) < 0x1_0000_0000_0000_0000
    ensures Bit(Or(w, Pow2(k)), j) <==> Bit(w, j) || j == k
  {
    WordRange();
    Pow2Monotone(k, 63);
    OrBound(w, Pow2(k), 64);
    BitOr(w, Pow2(k), j);
    BitPow2(k, j);
  }

  lemma ClearBit(w: u64, k: nat, j: nat)
    requires k < 64 && j < 64
    ensures Pow2(k) < Pow2(64)
    ensures And(w, Not(64, Pow2(k))) < 0x1_0000_0000_0000_0000
    ensures Bit(And(w, Not(64, Pow2(k))), j) <==> Bit(w, j) && j != k
  {
    Pow2Monotone(k, 63);
    AndBound(w, Not(64, Pow2(k)));
    BitAnd(w, Not(64, Pow2(k)), j);
    BitNot(64, Pow2(k), j);
    BitPow2(k, j);
  }

  lemma {:induction false} AndPow2(w: nat, k: nat)
    ensures And(w, Pow2(k)) != 0 <==> Bit(w, k)
  {
    BitAnd(w, Pow2(k), k);
    BitPow2(k, k);
    BitZero(k);
    var r := And(w, Pow2(k));
    if r != 0 {
      SomeBit(r);
      BitAnd(w, Pow2(k), TrailingZeros(r));
      BitPow2(k, TrailingZeros(r));
    }
  }

  class BitSet {
    const size: nat
    const words: array<u64>

    ghost predicate Valid()
      reads this, words
    {
      words.Length == DivCeil(size) && NoBitBeyond(words[..], size)
    }

    ghost function Members(): set<nat>
      reads this, words
    {
      Elements(words[..], size)
    }

    constructor (size: nat)
      ensures Valid() && fresh(words) && this.size == size
      ensures Members() == {}
    {
      this.size := size;
      words := new u64[DivCeil(size)](_ => 0);
      new;
      forall i: nat ensures !Has(words[..], i) { BitZero(i % 64); }
    }

    constructor Full(size: nat)
      ensures Valid() && fresh(words) && this.size == size
      ensures forall i: nat :: i in Members() <==> i < size
    {
      this.size := size;
      words := new u64[DivCeil(size)](_ => 0xffff_ffff_ffff_ffff);
      new;
      forall i: nat | i < 64 * words.Length ensures Has(words[..], i) {
        WordRange();
        BitLowMask(64, i % 64);
      }
      ClearUnusedBits();
    }

    /** Drops the bits of the last word that lie at or beyond `size`. */
    method ClearUnusedBits()
      requires words.Length == DivCeil(size)
      modifies words
      ensures Valid()
      ensures forall i: nat :: Has(words[..], i) <==> i < size && Has(old(words[..]), i)
    {
      ghost var was := words[..];
      var extra := size % 64;
      if extra != 0 && words.Length > 0 {
        var last := words.Length - 1;
        var mask := Pow2(extra) - 1;
        AndBound(words[last], mask);
        words[last] := And(words[last], mask);
        forall i: nat ensures Has(words[..], i) <==> i < size && Has(was, i) {
          if i / 64 == last {
            BitAnd(was[last], mask, i % 64);
            BitLowMask(extra, i % 64);
          }
        }
      }
    }

    method Set(index: nat)
      requires Valid() && index < size
      modifies words
      ensures Valid() && Members() == old(Members()) + {index}
    {
      ghost var was := words[..];
      SetBit(words[index / 64], index % 64, 0);
      words[index / 64] := Or(words[index / 64], Pow2(index % 64));
      forall i: nat ensures Has(words[..], i) <==> Has(was, i) || i == index {
        if i / 64 == index / 64 {
          SetBit(was[i / 64], index % 64, i % 64);
        }
      }
    }

    method Clear(index: nat)
      requires Valid() && index < size
      modifies words
      ensures Valid() && Members() == old(Members()) - {index}
    {
      ghost var was := words[..];
      ClearBit(words[index / 64], index % 64, 0);
      words[index / 64] := And(words[index / 64], Not(64, Pow2(index % 64)));
      forall i: nat ensures Has(words[..], i) <==> Has(was, i) && i != index {
        if i / 64 == index / 64 {
          ClearBit(was[i / 64], index % 64, i % 64);
        }
      }
    }

    method Get(index: nat) returns (b: bool)
      requires Valid() && index < size
      ensures b <==> index in Members()
    {
      AndPow2(words[index / 64], index % 64);
      b := And(words[index / 64], Pow2(index % 64)) != 0;
    }

    method AndAssign(other: BitSet)
      requires Valid() && other.Valid() && size == other.size && words != other.words
      modifies words
      ensures Valid() && Members() == old(Members()) * other.Members()
    {
      ghost var was := words[..];
      for k := 0 to words.Length
        invariant forall j :: k <= j < words.Length ==> words[j] == was[j]
        invariant forall j :: 0 <= j < k ==> words[j] == And(was[j], other.words[j])
      {
        AndBound(words[k], other.words[k]);
        words[k] := And(words[k], other.words[k]);
      }
      forall i: nat ensures Has(words[..], i) <==> Has(was, i) && Has(other.words[..], i) {
        if i / 64 < words.Length {
          BitAnd(was[i / 64], other.words[i / 64], i % 64);
        }
      }
    }

    method OrAssign(other: BitSet)
      requires Valid() && other.Valid() && size == other.size && words != other.words
      modifies words
      ensures Valid() && Members() == old(Members()) + other.Members()
    {
      ghost var was := words[..];
      for k := 0 to words.Length
        invariant forall j :: k <= j < words.Length ==> words[j] == was[j]
        invariant forall j :: 0 <= j < k ==> words[j] == Or(was[j], other.words[j])
      {
        WordRange();
        OrBound(words[k], other.words[k], 64);
        words[k] := Or(words[k], other.words[k]);
      }
      forall i: nat ensures Has(words[..], i) <==> Has(was, i) || Has(other.words[..], i) {
        if i / 64 < words.Length {
          BitOr(was[i / 64], other.words[i / 64], i % 64);
        }
      }
      ClearUnusedBits();
    }

    method Clone() returns (copy: BitSet)
      requires Valid()
      ensures fresh(copy) && fresh(copy.words) && copy.Valid()
      ensures copy.size == size && copy.Members() == Members()
    {
      ghost var source := words[..];
      assert NoBitBeyond(source, size);
      copy := new BitSet(size);
      forall k | 0 <= k < words.Length {
        copy.words[k] := words[k];
      }
      assert copy.words[..] == source;
    }

    method CountOnes() returns (n: nat)
      requires Valid()
      ensures n == |Members()|
    {
      n := 0;
      for k := 0 to words.Length
        invariant n == SumOnes(words[..k])
      {
        assert words[..k + 1][..k] == words[..k];
        n := n + Words.CountOnes(words[k]);
      }
      assert words[..words.Length] == words[..];
      CountIsCardinality(words[..], size);
    }

    /** Collects `iter_ones`: the members, each once, in increasing order. */
    method Ones() returns (out: seq<nat>)
      requires Valid()
      ensures forall i, j :: 0 <= i < j < |out| ==> out[i] < out[j]
      ensures (set i | i in out) == Members()
    {
      out := [];
      var iter := new BitSetOnes(this);
      ghost var taken: set<nat> := {};
      while true
        invariant iter.Valid() && iter.bitset == this && fresh(iter)
        invariant taken == set i | i in out
        invariant taken !! iter.Remaining() && taken + iter.Remaining() == Members()
        invariant forall i, r :: i in out && r in iter.Remaining() ==> i < r
        invariant forall i, j :: 0 <= i < j < |out| ==> out[i] < out[j]
        decreases iter.Remaining()
      {
        ghost var rest := iter.Remaining();
        var next := iter.Next();
        match next {
          case None => break;
          case Some(i) =>
            assert forall p :: 0 <= p < |out| ==> out[p] in out && out[p] < i;
            out := out + [i];
            taken := taken + {i};
        }
      }
    }
  }

  /** The cursor behind `iter_ones`: a word index and the word with the visited bits removed. */
  class BitSetOnes {
    const bitset: BitSet
    var wordIndex: nat
    var currentWord: u64

    ghost predicate Valid()
      reads this, bitset, bitset.words
    {
      bitset.Valid() && wordIndex <= bitset.words.Length
      && (wordIndex == bitset.words.Length ==> currentWord == 0)
      && forall k: nat :: k < 64 && Bit(currentWord, k) ==>
           wordIndex < bitset.words.Length && Bit(bitset.words[wordIndex], k)
    }

    /** Members not yet returned. */
    ghost function Remaining(): (s: set<nat>)
      reads this, bitset, bitset.words
      ensures forall i: nat :: i in s <==> i < bitset.size && (Pending(i))
    {
      set i: nat | 0 <= i < bitset.size && Pending(i)
    }

    ghost predicate Pending(i: nat)
      reads this, bitset, bitset.words
    {
      (i / 64 == wordIndex && Bit(currentWord, i % 64)) || (i / 64 > wordIndex && Has(bitset.words[..], i))
    }

    constructor (bitset: BitSet)
      requires bitset.Valid()
      ensures Valid() && this.bitset == bitset && Remaining() == bitset.Members()
    {
      this.bitset := bitset;
      wordIndex := 0;
      currentWord := if bitset.words.Length > 0 then bitset.words[0] else 0;
      new;
      forall k: nat | bitset.words.Length == 0 ensures !Bit(currentWord, k) { BitZero(k); }
    }

    method Next() returns (r: Option<nat>)
      requires Valid()
      modifies this
      ensures Valid()
      ensures r.None? ==> old(Remaining()) == {}
      ensures r.Some? ==> r.value in old(Remaining()) && Remaining() == old(Remaining()) - {r.value}
      ensures r.Some? ==> forall i :: i in Remaining() ==> r.value < i
    {
      ghost var todo := Remaining();
      while wordIndex < bitset.words.Length
        invariant Valid() && Remaining() == todo
        decreases bitset.words.Length - wordIndex, currentWord
      {
        if currentWord != 0 {
          var bit := TrailingZeros(currentWord);
          SomeBit(currentWord);
          ClearLowest(currentWord);
          if bit >= 64 { WordRange(); BitBeyond(currentWord, 64, bit); }
          var index := wordIndex * 64 + bit;
          assert index / 64 == wordIndex && index % 64 == bit;
          assert Has(bitset.words[..], index);
          ghost var before := currentWord;
          currentWord := And(currentWord, currentWord - 1);
          if index < bitset.size {
            forall i: nat ensures Pending(i) ==> index < i {
              if i / 64 == wordIndex && Bit(currentWord, i % 64) { assert Bit(before, i % 64); }
            }
            assert Remaining() == todo - {index};
            return Some(index);
          }
        } else {
          forall k: nat ensures !Bit(0, k) { BitZero(k); }
          wordIndex := wordIndex + 1;
          currentWord := if wordIndex < bitset.words.Length then bitset.words[wordIndex] else 0;
          forall i: nat ensures i in Remaining() <==> i in todo {}
        }
      }
      forall i: nat ensures !Pending(i) { if i / 64 == wordIndex { BitZero(i % 64); } }
      r := None;
    }
  }
}
