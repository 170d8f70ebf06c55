/** `Mult` of `machine/mips_sim.cc`: the 64-bit product of two 32-bit words by
    shifting and adding, signed (`MULT`) or unsigned (`MULTU`). */
module Multiply {
  const TWO_32: int := 0x1_0000_0000

  type Int32 = x: int | -0x8000_0000 <= x < 0x8000_0000 witness 0
  type Word = x: int | 0 <= x < 0x1_0000_0000 witness 0

  /** The cast from `int` to `unsigned`, and back. */
  function Unsigned(x: Int32): (u: Word)
    ensures u % 0x1_0000_0000 == x % 0x1_0000_0000
  {
    if x < 0 then x + TWO_32 else x
  }

  function Signed(x: Word): (i: Int32)
    ensures i % 0x1_0000_0000 == x % 0x1_0000_0000
  {
    if x < 0x8000_0000 then x else x - TWO_32
  }

  /** Unary minus on `int`, taken to wrap. */
  function Negate(x: Int32): Int32 { if x == -0x8000_0000 then x else -x }

  function Wide(hi: int, lo: int): int { TWO_32 * hi + lo }

  function Power(n: nat): nat { if n == 0 then 1 else 2 * Power(n - 1) }

  lemma {:induction false} PowerGrows(m: nat, n: nat)
    requires m <= n
    ensures 0 < Power(m) <= Power(n)
  {
    if m < n { PowerGrows(m, n - 1); } else if m > 0 { PowerGrows(m - 1, m - 1); }
  }

  lemma Power32()
    ensures Power(32) == TWO_32
  {
    assert Power(8) == 0x100;
    assert Power(16) == 0x1_0000;
    assert Power(24) == 0x100_0000;
  }

  /** The product, under a name of its own so that few proofs have to multiply. */
  ghost function Prod(m: int, y: int): int { m * y }

  lemma ProdAdd(m: int, p: int, y: int)
    ensures Prod(m + p, y) == Prod(m, y) + Prod(p, y)
  {
  }

  lemma ProdTwice(p: int, y: int)
    ensures Prod(2 * p, y) == 2 * Prod(p, y) == Prod(p, 2 * y)
  {
  }

  lemma ProdUnits(y: int)
    ensures Prod(0, y) == 0 && Prod(1, y) == y && Prod(-1, y) == -y && Prod(TWO_32, y) == TWO_32 * y
  {
  }

  lemma ProdMonotone(m: int, p: int, y: int)
    requires m <= p && 0 <= y
    ensures Prod(m, y) <= Prod(p, y)
  {
    ProdAdd(m, p - m, y);
    assert (p - m) * y >= 0;
  }

  /** After `i` rounds: `a` is what is left of the multiplier `x`, `m` what was used of
      it; the accumulator holds `m` times `y` and the shifted operand `2^i` times `y`. */
  ghost predicate Rounds(x: Int32, y: Word, i: nat, a: Int32, m: int, hi: int, lo: int, bHi: int, bLo: int) {
    && x == Prod(a, Power(i)) + m && 0 <= m < Power(i)
    && Wide(hi, lo) == Prod(m, y) && Wide(bHi, bLo) == Prod(Power(i), y)
  }

  lemma NoRounds(x: Int32, y: Word)
    ensures Rounds(x, y, 0, x, 0, 0, 0, 0, y)
  {
  }

  lemma Bounded(p: int, y: Word)
    requires p <= TWO_32
    ensures Prod(p, y) < TWO_32 * TWO_32
  {
    hide Prod;
    ProdMonotone(p, TWO_32, y);
    ProdUnits(y);
  }

  /** `lo += bLo` with its carry, then `hi += bHi`: the sum, since it fits 64 bits. */
  method AddWide(hi: Word, lo: Word, bHi: Word, bLo: Word) returns (hi': Word, lo': Word)
    requires Wide(hi, lo) + Wide(bHi, bLo) < TWO_32 * TWO_32
    ensures Wide(hi', lo') == Wide(hi, lo) + Wide(bHi, bLo)
  {
    lo' := (lo + bLo) % TWO_32;
    hi' := hi;
    if lo' < bLo {
      hi' := (hi' + 1) % TWO_32;
    }
    hi' := (hi' + bHi) % TWO_32;
  }

  /** The double word shifted left by one. */
  method ShiftWide(bHi: Word, bLo: Word) returns (bHi': Word, bLo': Word)
    requires 2 * Wide(bHi, bLo) < TWO_32 * TWO_32
    ensures Wide(bHi', bLo') == 2 * Wide(bHi, bLo)
  {
    bHi' := (2 * bHi) % TWO_32;
    if bLo >= 0x8000_0000 {
      bHi' := bHi' + 1;
    }
    bLo' := (2 * bLo) % TWO_32;
  }

  /** The two's complement of the double word. */
  method NegateWide(hi: Word, lo: Word) returns (hi': Word, lo': Word)
    requires Wide(hi, lo) > 0
    ensures Wide(hi', lo') == TWO_32 * TWO_32 - Wide(hi, lo)
  {
    hi' := TWO_32 - 1 - hi;
    lo' := TWO_32 - 1 - lo;
    lo' := (lo' + 1) % TWO_32;
    if lo' == 0 {
      hi' := (hi' + 1) % TWO_32;
    }
  }

  lemma UseBit(x: Int32, y: Word, i: nat, a: Int32, m: int, hi: int, lo: int, bHi: int, bLo: int)
    requires i < 32 && Rounds(x, y, i, a, m, hi, lo, bHi, bLo)
    ensures Wide(hi, lo) + Wide(bHi, bLo) == Prod(m + Power(i), y) < TWO_32 * TWO_32
    ensures x == Prod(a - 1, Power(i)) + (m + Power(i))
  {
    hide Prod;
    PowerGrows(i, 31);
    Power32();
    ProdAdd(m, Power(i), y);
    Bounded(m + Power(i), y);
    ProdAdd(a - 1, 1, Power(i));
    ProdUnits(Power(i));
  }

  lemma HalfBit(x: Int32, y: Word, i: nat, a: int, m: int, hi: int, lo: int, bHi: int, bLo: int)
    requires i < 32 && 0 <= m < 2 * Power(i) && x == Prod(2 * a, Power(i)) + m && -0x8000_0000 <= a < 0x8000_0000
    requires Wide(hi, lo) == Prod(m, y) && Wide(bHi, bLo) == Prod(Power(i), y)
    ensures 2 * Wide(bHi, bLo) < TWO_32 * TWO_32
    ensures forall bHi': int, bLo': int {:trigger Wide(bHi', bLo')} ::
      Wide(bHi', bLo') == 2 * Wide(bHi, bLo) ==> Rounds(x, y, i + 1, a, m, hi, lo, bHi', bLo')
  {
    hide Prod;
    PowerGrows(i, 31);
    Power32();
    ProdTwice(Power(i), y);
    Bounded(2 * Power(i), y);
    ProdTwice(a, Power(i));
  }

  /** Only one bit was left of the multiplier: it is used up. */
  lemma LastBit(x: Int32, i: nat, m: int)
    requires i < 32 && 0 <= m < Power(i) && x == Prod(0, Power(i)) + (m + Power(i))
    ensures m + Power(i) == Unsigned(x)
  {
  }

  lemma AllBits(x: Int32, a: Int32, m: int)
    requires x == Prod(a, Power(32)) + m && 0 <= m < Power(32)
    ensures m == Unsigned(x)
  {
    Power32();
  }

  /** The loop: the product of both operands taken as unsigned words. */
  method UnsignedProduct(x: Int32, y: Word) returns (hi: Word, lo: Word)
    ensures Wide(hi, lo) == Unsigned(x) * y
  {
    var a, bHi: Word, bLo: Word := x, 0, y;
    hi, lo := 0, 0;
    ghost var m := 0;
    NoRounds(x, y);
    var i := 0;
    while i < 32
      invariant 0 <= i <= 32 && Rounds(x, y, i, a, m, hi, lo, bHi, bLo)
    {
      if a % 2 == 1 {
        UseBit(x, y, i, a, m, hi, lo, bHi, bLo);
        hi, lo := AddWide(hi, lo, bHi, bLo);
        ghost var used := m;
        m := m + Power(i);
        if a == 0 || a == 1 {
          LastBit(x, i, used);
          return;
        }
      }
      HalfBit(x, y, i, a / 2, m, hi, lo, bHi, bLo);
      bHi, bLo := ShiftWide(bHi, bLo);
      a := a / 2;
      i := i + 1;
    }
    AllBits(x, a, m);
  }

  function Abs(x: int): int { if x < 0 then -x else x }

  /** `hi:lo` is the product: of the signed values, or of the words as unsigned. */
  method Mult(a: Int32, b: Int32, signedArith: bool) returns (hi: Int32, lo: Int32)
    ensures signedArith ==> 0x1_0000_0000 * hi + Unsigned(lo) == a * b
    ensures !signedArith ==> 0x1_0000_0000 * Unsigned(hi) + Unsigned(lo) == Unsigned(a) * Unsigned(b)
  {
    if a == 0 || b == 0 {
      return 0, 0;
    }
    var negative, x, y := false, a, b;
    if signedArith {
      if x < 0 {
        negative := !negative;
        x := Negate(x);
      }
      if y < 0 {
        negative := !negative;
        y := Negate(y);
      }
    }
    var h, l := UnsignedProduct(x, Unsigned(y));
    if signedArith { SignedProduct(a, b); }
    if negative {
      h, l := NegateWide(h, l);
    }
    hi, lo := Signed(h), Signed(l);
  }

  /** The product of the magnitudes, positive and within 62 bits, gives the product by its sign. */
  lemma SignedProduct(a: Int32, b: Int32)
    requires a != 0 && b != 0
    ensures 0 < Abs(a) * Abs(b) <= 0x8000_0000 * 0x8000_0000
    ensures a * b == if (a < 0) == (b < 0) then Abs(a) * Abs(b) else -(Abs(a) * Abs(b))
  {
    var x, y := Abs(a), Abs(b);
    ProdMonotone(1, x, y);
    ProdMonotone(x, 0x8000_0000, y);
  }
}
