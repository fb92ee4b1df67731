/**
 The bitwise operators that the code applies to 32-bit words, as arithmetic on the integers
 0..2^32-1. Each function is followed by a lemma that it is the bitwise operator.
 */
module WordBits {

  lemma QuotientRemainder(n: int, d: int, q: int, r: int)
    requires 0 < d && n == d * q + r && 0 <= r < d
    ensures n / d == q && n % d == r
  {
    var delta := n / d - q;
    assert d * delta == r - n % d;
    assert delta >= 1 ==> d * delta >= d;
    assert delta <= -1 ==> d * delta <= -d;
  }

  // ---- Splitting a word at a bit position ----

  lemma Split23(x: bv32)
    ensures x as int == 0x80_0000 * ((x >> 23) as int) + ((x & 0x7fffff) as int)
  {
  }

  lemma Low23(x: bv32)
    ensures (x & 0x7fffff) as int < 0x80_0000
  {
    assert (x & 0x7fffff) as int == ((x & 0x7fffff) as bv23) as int;
  }

  lemma SplitLow23(x: bv32)
    ensures (x & 0x7fffff) as int == 0x10_0000 * (((x & 0x7fffff) >> 20) as int) + ((x & 0xfffff) as int)
  {
  }

  lemma SplitHigh12(x: bv32)
    ensures (x >> 20) as int == 8 * ((x >> 23) as int) + (((x & 0x7fffff) >> 20) as int)
  {
  }

  lemma Split20(x: bv32)
    ensures x as int == 0x10_0000 * ((x >> 20) as int) + ((x & 0xfffff) as int)
  {
    Split23(x);
    SplitLow23(x);
    SplitHigh12(x);
  }

  lemma Low20(x: bv32)
    ensures (x & 0xfffff) as int < 0x10_0000
  {
    assert (x & 0xfffff) as int == ((x & 0xfffff) as bv20) as int;
  }

  lemma Split9(x: bv32)
    ensures (x & 0xfffff) as int == 0x200 * (((x & 0xfffff) >> 9) as int) + ((x & 0x1ff) as int)
  {
  }

  lemma Low9(x: bv32)
    ensures (x & 0x1ff) as int < 0x200
  {
    assert (x & 0x1ff) as int == ((x & 0x1ff) as bv9) as int;
  }

  lemma Split31(x: bv32)
    ensures x as int == ((x & 0x80000000) as int) + ((x & 0x7fffffff) as int)
    ensures (x & 0x80000000) as int == if x & 0x80000000 == 0 then 0 else 0x8000_0000
  {
  }

  lemma Low31(x: bv32)
    ensures (x & 0x7fffffff) as int < 0x8000_0000
  {
    assert (x & 0x7fffffff) as int == ((x & 0x7fffffff) as bv31) as int;
  }

  // ---- The operators ----

  /** x >> 20 */
  function ShiftRight20(x: int): (r: int)
    ensures 0 <= x < 0x1_0000_0000 ==> 0 <= r < 0x1_0000_0000
  {
    x / 0x10_0000
  }

  lemma ShiftRight20IsBitwise(x: bv32)
    ensures (x >> 20) as int == ShiftRight20(x as int)
  {
    Split20(x);
    Low20(x);
    QuotientRemainder(x as int, 0x10_0000, (x >> 20) as int, (x & 0xfffff) as int);
  }

  /** x & 0xff800000 */
  function AndTop9(x: int): (r: int)
    ensures 0 <= x < 0x1_0000_0000 ==> 0 <= r < 0x1_0000_0000
  {
    x - x % 0x80_0000
  }

  lemma AndTop9IsBitwise(x: bv32)
    ensures (x & 0xff800000) as int == AndTop9(x as int)
  {
    Split23(x);
    Low23(x);
    QuotientRemainder(x as int, 0x80_0000, (x >> 23) as int, (x & 0x7fffff) as int);
    assert x as int == ((x & 0xff800000) as int) + ((x & 0x7fffff) as int);
  }

  /** x & 0x80000000 */
  function AndSignBit(x: int): (r: int)
    ensures 0 <= x < 0x1_0000_0000 ==> 0 <= r < 0x1_0000_0000
  {
    if x < 0x8000_0000 then 0 else 0x8000_0000
  }

  lemma AndSignBitIsBitwise(x: bv32)
    ensures (x & 0x80000000) as int == AndSignBit(x as int)
  {
    Split31(x);
    Low31(x);
  }

  /** x ^ 0x80000000 */
  function XorSignBit(x: int): (r: int)
    ensures 0 <= x < 0x1_0000_0000 ==> 0 <= r < 0x1_0000_0000
  {
    if x < 0x8000_0000 then x + 0x8000_0000 else x - 0x8000_0000
  }

  lemma XorParts(x: bv32)
    ensures (x ^ 0x80000000) as int == (if x & 0x80000000 == 0 then 0x8000_0000 else 0) + ((x & 0x7fffffff) as int)
  {
  }

  lemma XorSignBitIsBitwise(x: bv32)
    ensures (x ^ 0x80000000) as int == XorSignBit(x as int)
  {
    Split31(x);
    Low31(x);
    XorParts(x);
    if x & 0x80000000 == 0 {
      assert x as int == (x & 0x7fffffff) as int;
    } else {
      assert x as int == 0x8000_0000 + (x & 0x7fffffff) as int;
    }
  }

  /** 0x80000000 | x */
  function OrSignBit(x: int): (r: int)
    ensures 0 <= x < 0x1_0000_0000 ==> 0 <= r < 0x1_0000_0000
  {
    if x < 0x8000_0000 then x + 0x8000_0000 else x
  }

  lemma OrParts(x: bv32)
    ensures (0x80000000 | x) as int == 0x8000_0000 + ((x & 0x7fffffff) as int)
  {
  }

  lemma OrSignBitIsBitwise(x: bv32)
    ensures (0x80000000 | x) as int == OrSignBit(x as int)
  {
    Split31(x);
    Low31(x);
    OrParts(x);
    if x & 0x80000000 == 0 {
      assert x as int == (x & 0x7fffffff) as int;
    } else {
      assert x as int == 0x8000_0000 + (x & 0x7fffffff) as int;
    }
  }

  /** x & 0x800fffff */
  function AndSignAndFraction(x: int): (r: int)
    ensures 0 <= x < 0x1_0000_0000 ==> 0 <= r < 0x1_0000_0000
  {
    AndSignBit(x) + x % 0x10_0000
  }

  lemma AndSignAndFractionIsBitwise(x: bv32)
    ensures (x & 0x800fffff) as int == AndSignAndFraction(x as int)
  {
    AndSignBitIsBitwise(x);
    Split20(x);
    Low20(x);
    QuotientRemainder(x as int, 0x10_0000, (x >> 20) as int, (x & 0xfffff) as int);
    assert (x & 0x800fffff) as int == ((x & 0x80000000) as int) + ((x & 0xfffff) as int);
  }

  /** x | 0x3ff00000, for an x whose bits 20..30 are clear */
  function OrExponentOfOne(x: int): int { x + 0x3ff0_0000 }

  lemma OrExponentOfOneIsBitwise(x: bv32)
    ensures ((x & 0x800fffff) | 0x3ff00000) as int == OrExponentOfOne((x & 0x800fffff) as int)
  {
  }

  /** x << 23 */
  function ShiftLeft23(x: int): (r: int)
    ensures 0 <= x < 0x1_0000_0000 ==> 0 <= r < 0x1_0000_0000
  {
    x % 0x200 * 0x80_0000
  }

  lemma ShiftedParts(x: bv32)
    ensures (x << 23) as int == 0x80_0000 * ((x & 0x1ff) as int)
  {
  }

  lemma ShiftLeft23Of(n: int, q: int, r: int)
    requires n == 0x200 * q + r && 0 <= r < 0x200
    ensures ShiftLeft23(n) == 0x80_0000 * r
  {
    QuotientRemainder(n, 0x200, q, r);
  }

  lemma Split9Whole(x: bv32)
    ensures x as int == 0x200 * (0x800 * ((x >> 20) as int) + ((x & 0xfffff) >> 9) as int) + ((x & 0x1ff) as int)
  {
    Split20(x);
    Split9(x);
  }

  lemma ShiftLeft23IsBitwise(x: bv32)
    ensures (x << 23) as int == ShiftLeft23(x as int)
  {
    Split9Whole(x);
    Low9(x);
    ShiftedParts(x);
    ShiftLeft23Of(x as int, 0x800 * ((x >> 20) as int) + ((x & 0xfffff) >> 9) as int, (x & 0x1ff) as int);
  }
}
