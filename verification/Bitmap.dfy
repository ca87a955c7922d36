/** Bitmaps over 64-bit words (kernel/lib/ec/bitmap.h). */
module Bitmap {
  import opened Arithmetic

  const BITS: nat := 64
  const ALL_ONES: nat := 0xffff_ffff_ffff_ffff

  // ---------------------------------------------------------------- one word

  /** `w >> j` */
  function ShiftRight(w: nat, j: nat): nat {
    if j == 0 then w else ShiftRight(w / 2, j - 1)
  }

  /** Bit j of a word: `w & (1 << j)`. */
  predicate Bit(w: nat, j: nat) {
    ShiftRight(w, j) % 2 == 1
  }

  /** `w | (1 << j)` */
  function WithBit(w: nat, j: nat): nat {
    if j == 0 then w / 2 * 2 + 1 else WithBit(w / 2, j - 1) * 2 + w % 2
  }

  /** `w & ~(1 << j)` */
  function WithoutBit(w: nat, j: nat): nat {
    if j == 0 then w / 2 * 2 else WithoutBit(w / 2, j - 1) * 2 + w % 2
  }

  lemma {:induction false} WithBitEffect(w: nat, j: nat, k: nat)
    ensures Bit(WithBit(w, j), k) <==> k == j || Bit(w, k)
    ensures Bit(WithoutBit(w, j), k) <==> k != j && Bit(w, k)
  {
    if j == 0 {
      if k > 0 {
        assert WithBit(w, j) / 2 == w / 2 == WithoutBit(w, j) / 2;
      }
    } else {
      assert WithBit(w, j) / 2 == WithBit(w / 2, j - 1) && WithBit(w, j) % 2 == w % 2;
      assert WithoutBit(w, j) / 2 == WithoutBit(w / 2, j - 1) && WithoutBit(w, j) % 2 == w % 2;
      if k > 0 {
        WithBitEffect(w / 2, j - 1, k - 1);
      }
    }
  }

  lemma {:induction false} WithBitBound(w: nat, j: nat, n: nat)
    requires w < Power(2, n) && j < n
    ensures WithBit(w, j) < Power(2, n) && WithoutBit(w, j) < Power(2, n)
  {
    hide Power;
    PowerOfTwo(n);
    if j > 0 {
      WithBitBound(w / 2, j - 1, n - 1);
    }
  }

  lemma {:induction false} MaxHasAllBits(n: nat, j: nat)
    requires j < n
    ensures Bit(Power(2, n) - 1, j)
  {
    hide Power;
    PowerOfTwo(n);
    assert (Power(2, n) - 1) / 2 == Power(2, n - 1) - 1;
    if j > 0 {
      MaxHasAllBits(n - 1, j - 1);
    }
  }

  lemma {:induction false} AllBitsGiveMax(w: nat, n: nat)
    requires w < Power(2, n) && forall j | 0 <= j < n :: Bit(w, j)
    ensures w == Power(2, n) - 1
  {
    if n > 0 {
      hide Power;
      PowerOfTwo(n);
      assert Bit(w, 0);
      forall j | 0 <= j < n - 1 ensures Bit(w / 2, j) {
        assert Bit(w, j + 1);
      }
      AllBitsGiveMax(w / 2, n - 1);
    }
  }

  lemma WordSize()
    ensures Power(2, BITS) == ALL_ONES + 1
  {
    assert Power(2, 4) == 16;
    hide Power;
    PowerSum(2, 4, 4);
    assert Power(2, 8) == 0x100;
    PowerSum(2, 8, 8);
    assert Power(2, 16) == 0x1_0000;
    PowerSum(2, 16, 16);
    assert Power(2, 32) == 0x1_0000_0000;
    PowerSum(2, 32, 32);
  }

  /** A 64-bit word is the largest one exactly if all its bits are set. */
  lemma WordIsFull(w: nat)
    requires w <= ALL_ONES
    ensures w == ALL_ONES <==> forall j | 0 <= j < BITS :: Bit(w, j)
  {
    WordSize();
    hide Power;
    if w == ALL_ONES {
      forall j | 0 <= j < BITS ensures Bit(w, j) {
        MaxHasAllBits(BITS, j);
      }
    } else if forall j | 0 <= j < BITS :: Bit(w, j) {
      AllBitsGiveMax(w, BITS);
    }
  }

  // ---------------------------------------------------------------- the bitmap

  ghost predicate IsWord(w: nat) { w <= ALL_ONES }

  /** The bits of a sequence of words, in order. */
  function BitsOf(words: seq<nat>): (bits: seq<bool>)
    ensures |bits| == |words| * BITS
  {
    seq(|words| * BITS, b requires 0 <= b < |words| * BITS => Bit(words[b / BITS], b % BITS))
  }

  lemma BitsUpdate(words: seq<nat>, b: nat, w: nat, on: bool)
    requires b < |words| * BITS
    requires w == if on then WithBit(words[b / BITS], b % BITS) else WithoutBit(words[b / BITS], b % BITS)
    ensures BitsOf(words[b / BITS := w]) == BitsOf(words)[b := on]
  {
    var r := words[b / BITS := w];
    forall k | 0 <= k < |words| * BITS ensures Bit(r[k / BITS], k % BITS) == if k == b then on else Bit(words[k / BITS], k % BITS) {
      if k / BITS == b / BITS {
        WithBitEffect(words[b / BITS], b % BITS, k % BITS);
        assert k % BITS == b % BITS <==> k == b;
      }
    }
  }

  class ConstBitmap {
    const data: array<nat>

    constructor (words: nat)
      ensures Valid() && data.Length == words && Bits() == seq(words * BITS, _ => false) && fresh(data)
    {
      data := new nat[words](_ => 0);
      new;
      forall j: nat ensures !Bit(0, j) {
        ZeroHasNoBits(j);
      }
    }

    ghost predicate Valid()
      reads data
    {
      forall i | 0 <= i < data.Length :: IsWord(data[i])
    }

    ghost function Bits(): (bits: seq<bool>)
      reads data
      ensures |bits| == data.Length * BITS
    {
      BitsOf(data[..])
    }

    predicate HasBit(b: nat)
      reads data
      requires b < data.Length * BITS
      ensures HasBit(b) == Bits()[b]
    {
      Bit(data[b / BITS], b % BITS)
    }

    method SetBit(b: nat)
      requires Valid() && b < data.Length * BITS
      modifies data
      ensures Valid() && Bits() == old(Bits())[b := true]
    {
      ghost var words := data[..];
      WordBound(data[b / BITS], b % BITS);
      data[b / BITS] := WithBit(data[b / BITS], b % BITS);
      assert data[..] == words[b / BITS := data[b / BITS]];
      BitsUpdate(words, b, data[b / BITS], true);
    }

    method ClearBit(b: nat)
      requires Valid() && b < data.Length * BITS
      modifies data
      ensures Valid() && Bits() == old(Bits())[b := false]
    {
      ghost var words := data[..];
      WordBound(data[b / BITS], b % BITS);
      data[b / BITS] := WithoutBit(data[b / BITS], b % BITS);
      assert data[..] == words[b / BITS := data[b / BITS]];
      BitsUpdate(words, b, data[b / BITS], false);
    }

    /** A word equal to all ones covers only set bits, and any other word covers a clear one. */
    lemma FullWord(i: nat)
      requires Valid() && i < data.Length
      ensures data[i] == ALL_ONES <==> forall b | i * BITS <= b < (i + 1) * BITS :: Bits()[b]
    {
      WordIsFull(data[i]);
      if data[i] == ALL_ONES {
        forall b | i * BITS <= b < (i + 1) * BITS ensures Bits()[b] {
          assert b == i * BITS + (b - i * BITS);
          assert b / BITS == i;
          assert Bit(data[i], b % BITS);
        }
      } else {
        var j :| 0 <= j < BITS && !Bit(data[i], j);
        assert (i * BITS + j) / BITS == i && (i * BITS + j) % BITS == j;
        assert !Bits()[i * BITS + j];
      }
    }
  }

  lemma WordBound(w: nat, j: nat)
    requires w <= ALL_ONES && j < BITS
    ensures WithBit(w, j) <= ALL_ONES && WithoutBit(w, j) <= ALL_ONES
  {
    WordSize();
    hide Power;
    WithBitBound(w, j, BITS);
  }

  lemma {:induction false} ZeroHasNoBits(j: nat)
    ensures !Bit(0, j)
  {
    if j > 0 {
      ZeroHasNoBits(j - 1);
    }
  }
}
