/** Bit operations on natural numbers, read through `Bit`: two numbers with the same bits are equal,
    and each C operator the drivers use is described by the bits of its result. */
module Bits {

  type byte = x: nat | x < 256

  function Pow2(k: nat): (p: nat)
    ensures p > 0
  {
    if k == 0 then 1 else 2 * Pow2(k - 1)
  }

  predicate Bit(x: nat, i: nat) {
    if i == 0 then x % 2 == 1 else Bit(x / 2, i - 1)
  }

  function FromBit(b: bool): nat { if b then 1 else 0 }

  function And(x: nat, y: nat): nat {
    if x == 0 || y == 0 then 0 else FromBit(Bit(x, 0) && Bit(y, 0)) + 2 * And(x / 2, y / 2)
  }

  function Or(x: nat, y: nat): nat {
    if x == 0 then y else FromBit(Bit(x, 0) || Bit(y, 0)) + 2 * Or(x / 2, y / 2)
  }

  function Shr(x: nat, k: nat): nat {
    if k == 0 then x else Shr(x / 2, k - 1)
  }

  function Shl(x: nat, k: nat): nat {
    if k == 0 then x else 2 * Shl(x, k - 1)
  }

  /** The low `k` bits: masking with (1 << k) - 1, or a cast to a `k`-bit unsigned type. */
  function Low(x: nat, k: nat): nat {
    if k == 0 then 0 else x % 2 + 2 * Low(x / 2, k - 1)
  }

  /** The low `k` bits of the complement of `x`. */
  function Flip(x: nat, k: nat): nat {
    if k == 0 then 0 else 1 - x % 2 + 2 * Flip(x / 2, k - 1)
  }

  /** (1 << k) - 1. */
  function Ones(k: nat): nat { Flip(0, k) }

  function SetBit(x: nat, i: nat): nat { Or(x, Shl(1, i)) }

  /** x & ~(1 << i) on a 32-bit unsigned operand. */
  function ClearBit(x: nat, i: nat): nat { And(x, Flip(Shl(1, i), 32)) }

  lemma {:induction false} ZeroHasNoBits(i: nat)
    ensures !Bit(0, i)
  {
    if i > 0 { ZeroHasNoBits(i - 1); }
  }

  lemma {:induction false} AndBit(x: nat, y: nat, i: nat)
    ensures Bit(And(x, y), i) <==> Bit(x, i) && Bit(y, i)
  {
    ZeroHasNoBits(i);
    if x != 0 && y != 0 && i > 0 { AndBit(x / 2, y / 2, i - 1); }
  }

  lemma {:induction false} OrBit(x: nat, y: nat, i: nat)
    ensures Bit(Or(x, y), i) <==> Bit(x, i) || Bit(y, i)
  {
    ZeroHasNoBits(i);
    if x != 0 && i > 0 { OrBit(x / 2, y / 2, i - 1); }
  }

  lemma {:induction false} ShrBit(x: nat, k: nat, i: nat)
    ensures Bit(Shr(x, k), i) <==> Bit(x, i + k)
  {
    if k > 0 { ShrBit(x / 2, k - 1, i); }
  }

  lemma ShrByThree(x: nat)
    ensures Shr(x, 3) == x / 8
  {
    assert Shr(x, 3) == Shr(x / 2, 2);
    assert Shr(x / 2, 2) == Shr(x / 2 / 2, 1);
    assert Shr(x / 2 / 2, 1) == Shr(x / 2 / 2 / 2, 0);
  }

  lemma {:induction false} ShrShr(x: nat, j: nat, k: nat)
    ensures Shr(Shr(x, j), k) == Shr(x, j + k)
  {
    if j > 0 { ShrShr(x / 2, j - 1, k); }
  }

  lemma {:induction false} ShlBit(x: nat, k: nat, i: nat)
    ensures Bit(Shl(x, k), i) <==> i >= k && Bit(x, i - k)
  {
    if k > 0 && i > 0 { ShlBit(x, k - 1, i - 1); }
  }

  lemma Halves(low: nat, high: nat)
    requires low < 2
    ensures (low + 2 * high) % 2 == low && (low + 2 * high) / 2 == high
  {}

  lemma {:induction false} LowBit(x: nat, k: nat, i: nat)
    ensures Bit(Low(x, k), i) <==> i < k && Bit(x, i)
  {
    ZeroHasNoBits(i);
    if k > 0 {
      Halves(x % 2, Low(x / 2, k - 1));
      if i > 0 { LowBit(x / 2, k - 1, i - 1); }
    }
  }

  lemma {:induction false} FlipBit(x: nat, k: nat, i: nat)
    ensures Bit(Flip(x, k), i) <==> i < k && !Bit(x, i)
  {
    ZeroHasNoBits(i);
    if k > 0 {
      Halves(1 - x % 2, Flip(x / 2, k - 1));
      if i > 0 { FlipBit(x / 2, k - 1, i - 1); }
    }
  }

  lemma OneBit(k: nat, i: nat)
    ensures Bit(Shl(1, k), i) <==> i == k
  {
    ShlBit(1, k, i);
    if i > k { ZeroHasNoBits(i - k - 1); }
  }

  lemma SetBitBit(x: nat, k: nat, i: nat)
    ensures Bit(SetBit(x, k), i) <==> i == k || Bit(x, i)
  {
    OrBit(x, Shl(1, k), i);
    OneBit(k, i);
  }

  lemma ClearBitBit(x: nat, k: nat, i: nat)
    requires i < 32
    ensures Bit(ClearBit(x, k), i) <==> i != k && Bit(x, i)
  {
    AndBit(x, Flip(Shl(1, k), 32), i);
    FlipBit(Shl(1, k), 32, i);
    OneBit(k, i);
  }

  /** A number below 2^k has no bits from `k` up. */
  lemma {:induction false} NoHighBit(x: nat, k: nat, i: nat)
    requires x < Pow2(k) && i >= k
    ensures !Bit(x, i)
  {
    if k == 0 { ZeroHasNoBits(i); } else { NoHighBit(x / 2, k - 1, i - 1); }
  }

  /** Any other number has one. */
  lemma {:induction false} HighBit(x: nat, k: nat) returns (i: nat)
    requires x >= Pow2(k)
    ensures i >= k && Bit(x, i)
  {
    if k == 0 { i := SomeBit(x); } else { i := HighBit(x / 2, k - 1); i := i + 1; }
  }

  lemma {:induction false} SomeBit(x: nat) returns (i: nat)
    requires x > 0
    ensures Bit(x, i)
  {
    if x % 2 == 1 { i := 0; } else { i := SomeBit(x / 2); i := i + 1; }
  }

  /** Extensionality. */
  lemma {:induction false} SameBits(x: nat, y: nat)
    requires forall i: nat :: Bit(x, i) <==> Bit(y, i)
    ensures x == y
  {
    assert Bit(x, 0) <==> Bit(y, 0);
    if x == 0 && y > 0 {
      var i := SomeBit(y);
      ZeroHasNoBits(i);
    } else if x > 0 && y == 0 {
      var i := SomeBit(x);
      ZeroHasNoBits(i);
    } else if x > 0 {
      forall i: nat ensures Bit(x / 2, i) <==> Bit(y / 2, i) {
        assert Bit(x, i + 1) <==> Bit(y, i + 1);
      }
      SameBits(x / 2, y / 2);
    }
  }

  /** A number without bits from `k` up is unchanged by masking to `k` bits, and masking always fits. */
  lemma {:induction false} LowFits(x: nat, k: nat)
    ensures Low(x, k) < Pow2(k)
    ensures x < Pow2(k) ==> Low(x, k) == x
  {
    if k > 0 { LowFits(x / 2, k - 1); }
  }

  lemma ByteHasNoHighBit(x: byte, i: nat)
    requires i >= 8
    ensures !Bit(x, i)
  {
    assert Pow2(8) == 256 by { assert Pow2(4) == 16; }
    NoHighBit(x, 8, i);
  }

  lemma LowByte(x: nat)
    ensures Low(x, 8) < 256
  {
    LowFits(x, 8);
    assert Pow2(8) == 256 by { assert Pow2(4) == 16; }
  }
}
