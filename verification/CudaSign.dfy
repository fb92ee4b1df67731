/** cuda_math::tanhf, erff and erf: the sign of the argument is put back with word operations. */
module CudaSign {
  import opened WordBits
  import opened Ieee754
  import opened Series
  import CudaErf

  /** A rounding that treats both signs alike, as round-to-nearest does. */
  ghost predicate OddRounding(rnd: real -> real) {
    forall v: real, w: real :: v == -w ==> rnd(v) == -rnd(w)
  }

  /** An odd, monotone rounding; only three small powers of two have to be exact. */
  ghost predicate SymmetricRounding(rnd: real -> real) {
    && OddRounding(rnd)
    && (forall v: real, w: real :: v <= w ==> rnd(v) <= rnd(w))
    && rnd(0.5) == 0.5 && rnd(1.0) == 1.0 && rnd(2.0) == 2.0
  }

  /** An encoder of float results, of which only this is used: non-negative values get a clear sign bit. */
  ghost predicate Encoder(enc: real -> u32) {
    forall v: real :: v >= 0.0 ==> enc(v) < 0x8000_0000
  }

  function Abs(v: real): real { if v < 0.0 then -v else v }

  /** r4.u32 | r2.u32 with r4 = r3 & 0x80000000 */
  function CopySign(sign: u32, b: u32): u32 {
    if AndSignBit(sign) == 0 then b else OrSignBit(b)
  }

  lemma SignMaskIsOneBit(s: bv32)
    ensures s & 0x80000000 == 0 || s & 0x80000000 == 0x80000000
  {
  }

  lemma OrZero(b: bv32)
    ensures 0 | b == b
  {
  }

  lemma OrEither(m: bv32, b: bv32)
    requires m == 0 || m == 0x80000000
    ensures (m | b) == if m == 0 then b else 0x80000000 | b
  {
    if m == 0 {
      OrZero(b);
    }
  }

  lemma OrWithMask(sign: bv32, b: bv32)
    ensures ((sign & 0x80000000) | b) == if sign & 0x80000000 == 0 then b else 0x80000000 | b
  {
    SignMaskIsOneBit(sign);
    OrEither(sign & 0x80000000, b);
  }

  lemma MaskIsZero(sign: bv32)
    ensures sign & 0x80000000 == 0 <==> AndSignBit(sign as int) == 0
  {
    AndSignBitIsBitwise(sign);
    Split31(sign);
  }

  /** CopySign is that expression on words. */
  lemma CopySignIsBitwise(sign: bv32, b: bv32)
    ensures CopySign(sign as int, b as int) == ((sign & 0x80000000) | b) as int
  {
    OrWithMask(sign, b);
    MaskIsZero(sign);
    OrSignBitIsBitwise(b);
  }

  /** With a clear sign bit in b, the copy is b with the sign bit of its first operand in front. */
  lemma CopySignPutsSign(sign: u32, b: u32)
    requires b < 0x8000_0000
    ensures CopySign(sign, b) == b + if sign < 0x8000_0000 then 0 else 0x8000_0000
  {
  }

  /** A reading of encodings in which flipping the sign bit negates the value; Value32 is one. */
  ghost predicate SignMagnitude(val: u32 -> real) {
    forall b: u32 {:trigger XorSignBit(b)} :: val(XorSignBit(b)) == -val(b)
  }

  lemma Value32IsSignMagnitude()
    ensures SignMagnitude(Value32)
  {
    forall b: u32
      ensures Value32(XorSignBit(b)) == -Value32(b)
    {
    }
  }

  /** For a magnitude with a clear sign bit, CopySign carries a flip of its first argument to its result. */
  lemma CopySignFlips(sign: u32, b: u32)
    ensures b < 0x8000_0000 ==> CopySign(XorSignBit(sign), b) == XorSignBit(CopySign(sign, b))
    ensures b >= 0x8000_0000 ==> CopySign(XorSignBit(sign), b) == CopySign(sign, b) == b
  {
  }

  // ---- tanhf ----

  /** Two roundings, one after the product and one after the sum. */
  function RoundedSum(x: real, y: real, c: real, rnd: real -> real): real {
    rnd(rnd(MulAdd(x, y, 0.0)) + c)
  }

  function TanhfCoefficient(n: nat): real {
    match n
    case 0 => 0.0
    case 1 => -0.33332768082618713
    case 2 => 0.13315297663211823
    case 3 => -0.05230396240949631
    case _ => 0.01573968306183815
  }

  /** f23 for i = 0, and f21, f19, f17 for i = 1..3. */
  function TanhfPolynomial(f14: real, i: nat, rnd: real -> real): real
    decreases 4 - i, f14
  {
    if i >= 4 then TanhfCoefficient(i)
    else RoundedSum(TanhfPolynomial(f14, i + 1, rnd), f14, TanhfCoefficient(i), rnd)
  }

  function TanhfSmall(f1: real, rnd: real -> real): real {
    RoundedSum(TanhfPolynomial(rnd(MulAdd(f1, f1, 0.0)), 0, rnd), f1, f1, rnd)
  }

  lemma MulAddSigns(x: real, y: real, c: real)
    ensures MulAdd(x, -y, -c) == -MulAdd(x, y, c)
    ensures MulAdd(-x, -y, c) == MulAdd(x, y, c)
  {
  }

  lemma RoundedSumIsOdd(x: real, y: real, c: real, rnd: real -> real)
    requires OddRounding(rnd)
    ensures RoundedSum(x, -y, -c, rnd) == -RoundedSum(x, y, c, rnd)
  {
    MulAddSigns(x, y, 0.0);
    var p := rnd(MulAdd(x, y, 0.0));
    assert rnd(-MulAdd(x, y, 0.0)) == -p;
    assert -p + -c == -(p + c);
    assert rnd(-(p + c)) == -rnd(p + c);
  }

  /** f13; f8 is zero for no exp2f and no rounding in use, and the quotient is then irrelevant. */
  function TanhfLarge(f2: real, rnd: real -> real, exp2: real -> real): real {
    var f6 := rnd(f2 * 2.88539);
    var f7 := exp2(f6);
    var f8 := rnd(f7 + 1.0);
    var f10 := if f8 == 0.0 then 0.0 else rnd(1.0 / f8);
    var f12 := rnd(rnd(f10 * -2.0) + 1.0);
    if f2 >= 9.010913848876953 then 1.0 else f12
  }

  function Tanhf(x: u32, val: u32 -> real, rnd: real -> real, exp2: real -> real, enc: real -> u32): real {
    var f2 := Abs(val(x));
    if f2 < 0.6 then TanhfSmall(val(x), rnd)
    else val(CopySign(x, enc(TanhfLarge(f2, rnd, exp2))))
  }

  lemma TanhfSmallIsOdd(f1: real, rnd: real -> real)
    requires OddRounding(rnd)
    ensures TanhfSmall(-f1, rnd) == -TanhfSmall(f1, rnd)
  {
    MulAddSigns(f1, f1, 0.0);
    RoundedSumIsOdd(TanhfPolynomial(rnd(MulAdd(f1, f1, 0.0)), 0, rnd), f1, f1, rnd);
  }

  /** The magnitude is never negative: 1 - 2/(exp2(f6) + 1) with exp2(f6) >= 1 survives every rounding. */
  lemma TanhfLargeIsNonNegative(f2: real, rnd: real -> real, exp2: real -> real)
    requires SymmetricRounding(rnd) && f2 >= 0.0
    requires forall v: real :: v >= 0.0 ==> exp2(v) >= 1.0
    ensures TanhfLarge(f2, rnd, exp2) >= 0.0
  {
    assert rnd(-0.0) == -rnd(0.0);
    assert rnd(0.0) == 0.0;
    var f6 := rnd(f2 * 2.88539);
    assert f6 >= rnd(0.0);
    var f8 := rnd(exp2(f6) + 1.0);
    assert f8 >= rnd(2.0);
    assert 1.0 / f8 <= 0.5;
    var f10 := rnd(1.0 / f8);
    assert f10 <= rnd(0.5);
    assert f10 * -2.0 >= -1.0;
    assert rnd(f10 * -2.0) >= rnd(-1.0) == -1.0;
    assert rnd(rnd(f10 * -2.0) + 1.0) >= rnd(0.0);
  }

  lemma TanhfIsSmall(x: u32, val: u32 -> real, rnd: real -> real, exp2: real -> real, enc: real -> u32, f1: real)
    requires f1 == val(x) && Abs(f1) < 0.6
    ensures Tanhf(x, val, rnd, exp2, enc) == TanhfSmall(f1, rnd)
  {
  }

  lemma TanhfSmallBranch(x: u32, val: u32 -> real, rnd: real -> real, exp2: real -> real, enc: real -> u32)
    requires SignMagnitude(val) && OddRounding(rnd) && Abs(val(x)) < 0.6
    ensures Tanhf(XorSignBit(x), val, rnd, exp2, enc) == -Tanhf(x, val, rnd, exp2, enc)
  {
    var f1 := val(x);
    TanhfIsSmall(x, val, rnd, exp2, enc, f1);
    TanhfIsSmall(XorSignBit(x), val, rnd, exp2, enc, -f1);
    TanhfSmallIsOdd(f1, rnd);
  }

  lemma TanhfLargeBranch(x: u32, val: u32 -> real, rnd: real -> real, exp2: real -> real, enc: real -> u32, b: u32)
    requires SignMagnitude(val) && Abs(val(x)) >= 0.6
    requires b == enc(TanhfLarge(Abs(val(x)), rnd, exp2))
    ensures Tanhf(XorSignBit(x), val, rnd, exp2, enc) == val(CopySign(XorSignBit(x), b))
    ensures Tanhf(x, val, rnd, exp2, enc) == val(CopySign(x, b))
  {
    assert Abs(val(XorSignBit(x))) == Abs(val(x));
  }

  lemma ClearSign(v: real, enc: real -> u32)
    requires Encoder(enc) && v >= 0.0
    ensures enc(v) < 0x8000_0000
  {
  }

  /** tanhf is odd, across both branches, for every encoding and every symmetric rounding. */
  lemma TanhfIsOdd(x: u32, val: u32 -> real, rnd: real -> real, exp2: real -> real, enc: real -> u32)
    requires SignMagnitude(val) && SymmetricRounding(rnd) && Encoder(enc)
    requires forall v: real :: v >= 0.0 ==> exp2(v) >= 1.0
    ensures Tanhf(XorSignBit(x), val, rnd, exp2, enc) == -Tanhf(x, val, rnd, exp2, enc)
  {
    var f2 := Abs(val(x));
    if f2 < 0.6 {
      TanhfSmallBranch(x, val, rnd, exp2, enc);
    } else {
      var b := enc(TanhfLarge(f2, rnd, exp2));
      TanhfLargeIsNonNegative(f2, rnd, exp2);
      ClearSign(TanhfLarge(f2, rnd, exp2), enc);
      TanhfLargeBranch(x, val, rnd, exp2, enc, b);
      SignCopies(x, val, b);
    }
  }

  // ---- erff ----

  function ErffCoefficient(p2: bool, n: nat): real {
    match n
    case 0 => if p2 then 0.6290600299835205 else 0.12837915122509003
    case 1 => if p2 then 0.9129176735877991 else -0.37612664699554443
    case 2 => if p2 then 0.15950430929660797 else 0.11284004896879196
    case 3 => if p2 then -0.04024658352136612 else -0.026868773624300957
    case 4 => if p2 then 0.00839653518050909 else 0.005213488824665546
    case 5 => if p2 then -0.0013275252422317863 else -0.0008213091641664505
    case _ => if p2 then 0.00011219871521461755 else 0.00008483494457323104
  }

  /** f20 for i = 0, and f18, f16, f14, f12, f10, f8 for i = 1..6: one rounding after each fused step. */
  function ErffPolynomial(p2: bool, f7: real, i: nat, rnd: real -> real): real
    decreases 6 - i, f7
  {
    if i >= 6 then ErffCoefficient(p2, i)
    else rnd(MulAdd(ErffPolynomial(p2, f7, i + 1, rnd), f7, ErffCoefficient(p2, i)))
  }

  /** f26 of both branches: the multiplier f22 is -|x| or x. */
  function ErffSum(f1: real, rnd: real -> real): real {
    var f5 := Abs(f1);
    var p2 := f5 >= 1.002959966659546;
    var f6 := rnd(MulAdd(f1, f1, 0.0));
    var f20 := ErffPolynomial(p2, if p2 then f5 else f6, 0, rnd);
    var f22 := if p2 then -f5 else f1;
    rnd(MulAdd(f20, f22, f22))
  }

  /** The bits of f25 = 1 - exp2f(f26). */
  function ErffMagnitude(f1: real, rnd: real -> real, exp2: real -> real, enc: real -> u32): u32 {
    enc(rnd(1.0 - exp2(ErffSum(f1, rnd))))
  }

  function Erff(x: u32, val: u32 -> real, rnd: real -> real, exp2: real -> real, enc: real -> u32): real {
    var f1 := val(x);
    if Abs(f1) < 1.002959966659546 then ErffSum(f1, rnd)
    else val(CopySign(x, ErffMagnitude(f1, rnd, exp2, enc)))
  }

  lemma ErffSmallIsOdd(f1: real, rnd: real -> real)
    requires OddRounding(rnd) && Abs(f1) < 1.002959966659546
    ensures ErffSum(-f1, rnd) == -ErffSum(f1, rnd)
  {
    MulAddSigns(f1, f1, 0.0);
    MulAddSigns(ErffPolynomial(false, rnd(MulAdd(f1, f1, 0.0)), 0, rnd), f1, f1);
  }

  lemma ErffLargeIsEven(f1: real, rnd: real -> real)
    requires Abs(f1) >= 1.002959966659546
    ensures ErffSum(-f1, rnd) == ErffSum(f1, rnd)
  {
  }

  /** What the two results are, given the bits b of the magnitude. */
  lemma SignCopies(x: u32, val: u32 -> real, b: u32)
    requires SignMagnitude(val)
    ensures val(CopySign(XorSignBit(x), b)) == -val(CopySign(x, b)) <==> b < 0x8000_0000 || val(b) == 0.0
  {
    CopySignFlips(x, b);
  }

  lemma ErffSmallBranch(x: u32, val: u32 -> real, rnd: real -> real, exp2: real -> real, enc: real -> u32)
    requires SignMagnitude(val) && OddRounding(rnd) && Abs(val(x)) < 1.002959966659546
    ensures Erff(XorSignBit(x), val, rnd, exp2, enc) == -Erff(x, val, rnd, exp2, enc)
  {
    ErffSmallIsOdd(val(x), rnd);
  }

  lemma ErffLargeBranch(x: u32, val: u32 -> real, rnd: real -> real, exp2: real -> real, enc: real -> u32, b: u32)
    requires SignMagnitude(val) && Abs(val(x)) >= 1.002959966659546
    requires b == ErffMagnitude(val(x), rnd, exp2, enc)
    ensures Erff(XorSignBit(x), val, rnd, exp2, enc) == val(CopySign(XorSignBit(x), b))
    ensures Erff(x, val, rnd, exp2, enc) == val(CopySign(x, b))
  {
    ErffLargeIsEven(val(x), rnd);
  }

  /**
   erff is odd at x exactly when x is in the polynomial branch, or the magnitude before the sign copy has
   a clear sign bit (or is a zero).
   */
  lemma ErffIsOddIff(x: u32, val: u32 -> real, rnd: real -> real, exp2: real -> real, enc: real -> u32, b: u32)
    requires SignMagnitude(val) && OddRounding(rnd)
    requires b == ErffMagnitude(val(x), rnd, exp2, enc)
    ensures Erff(XorSignBit(x), val, rnd, exp2, enc) == -Erff(x, val, rnd, exp2, enc) <==>
            Abs(val(x)) < 1.002959966659546 || b < 0x8000_0000 || val(b) == 0.0
  {
    if Abs(val(x)) < 1.002959966659546 {
      ErffSmallBranch(x, val, rnd, exp2, enc);
    } else {
      ErffLargeBranch(x, val, rnd, exp2, enc, b);
      SignCopies(x, val, b);
    }
  }

  function Exact(v: real): real { v }

  // ---- erff in rounded arithmetic ----

  function Dyadic(k: int): real { k as real / 4096.0 }

  /** The multiples of 2^-12 up to 1 are not rounded. */
  ghost predicate FixesDyadics(rnd: real -> real) {
    forall k: int {:trigger Dyadic(k)} :: -4096 <= k <= 4096 ==> rnd(Dyadic(k)) == Dyadic(k)
  }

  /** A lower bound of h*t on lo <= t <= hi, given that of h. */
  function Least(a: real, lo: real, hi: real): real { if a >= 0.0 then MulAdd(a, lo, 0.0) else MulAdd(a, hi, 0.0) }

  lemma LeastIsBelow(h: real, a: real, t: real, lo: real, hi: real)
    requires h >= a && 0.0 <= lo <= t <= hi
    ensures MulAdd(h, t, 0.0) >= Least(a, lo, hi)
  {
    assert h * t >= a * t;
    if a >= 0.0 {
      assert a * t >= a * lo;
    } else {
      assert a * t >= a * hi;
    }
  }

  /** One rounded step: a bound goes in, and a multiple of 2^-12 comes out. */
  lemma StepAbove(h: real, a: real, t: real, lo: real, hi: real, c: real, k: int, rnd: real -> real)
    requires SymmetricRounding(rnd) && FixesDyadics(rnd)
    requires h >= a && 0.0 <= lo <= t <= hi && -4096 <= k <= 4096
    requires Least(a, lo, hi) + c >= Dyadic(k)
    ensures rnd(MulAdd(h, t, c)) >= Dyadic(k)
  {
    LeastIsBelow(h, a, t, lo, hi);
    assert rnd(Dyadic(k)) == Dyadic(k);
  }

  /** Lower bounds of f20, f18, f16, f14, f12 and f10 on lo <= t <= hi, in units of 2^-12; f8 is a constant. */
  datatype Piece = Piece(lo: real, hi: real, bounds: seq<int>)

  function Bound(p: Piece, i: nat): real
    requires |p.bounds| == 6
  {
    if i < 6 then Dyadic(p.bounds[i]) else ErffCoefficient(true, 6)
  }

  /** Bound i follows from bound i + 1. */
  predicate Carries(p: Piece, i: nat)
    requires |p.bounds| == 6
  {
    i < 6 && -4096 <= p.bounds[i] <= 4096 && Least(Bound(p, i + 1), p.lo, p.hi) + ErffCoefficient(true, i) >= Bound(p, i)
  }

  predicate IsPiece(p: Piece) {
    && |p.bounds| == 6 && 0.0 <= p.lo
    && Carries(p, 0) && Carries(p, 1) && Carries(p, 2) && Carries(p, 3) && Carries(p, 4) && Carries(p, 5)
  }

  lemma PieceCarries(p: Piece, i: nat)
    requires IsPiece(p) && i < 6
    ensures Carries(p, i)
  {
  }

  lemma {:induction false} ErffPiece(t: real, rnd: real -> real, p: Piece, i: nat)
    requires SymmetricRounding(rnd) && FixesDyadics(rnd)
    requires p.lo <= t <= p.hi && IsPiece(p) && i <= 6
    ensures ErffPolynomial(true, t, i, rnd) >= Bound(p, i)
    decreases 6 - i
  {
    if i < 6 {
      ErffPiece(t, rnd, p, i + 1);
      PieceCarries(p, i);
      StepAbove(ErffPolynomial(true, t, i + 1, rnd), Bound(p, i + 1), t, p.lo, p.hi, ErffCoefficient(true, i), p.bounds[i], rnd);
    }
  }

  lemma Piece0() returns (p: Piece)
    ensures IsPiece(p) && p.lo == 0.0 && p.hi == 1.0 && Bound(p, 0) >= 0.0
  {
    p := Piece(0.0, 1.0, [2048, 2048, 400, -200, 20, -6]);
  }

  lemma Piece1() returns (p: Piece)
    ensures IsPiece(p) && p.lo == 1.0 && p.hi == 7.0 && Bound(p, 0) >= 0.0
  {
    p := Piece(1.0, 7.0, [1750, -118, -551, -172, -1, -5]);
  }

  lemma Piece2() returns (p: Piece)
    ensures IsPiece(p) && p.lo == 7.0 && p.hi == 9.0 && Bound(p, 0) >= 0.0
  {
    p := Piece(7.0, 9.0, [2048, 220, -391, -116, 7, -3]);
  }

  lemma Piece3() returns (p: Piece)
    ensures IsPiece(p) && p.lo == 9.0 && p.hi == 12.0 && Bound(p, 0) >= 0.0
  {
    p := Piece(9.0, 12.0, [2048, 775, -247, -75, 10, -2]);
  }

  /** From 12 on no bound is negative, and the upper end does not matter. */
  lemma Piece4(t: real) returns (p: Piece)
    requires t >= 12.0
    ensures IsPiece(p) && p.lo == 12.0 && p.hi == t && Bound(p, 0) >= 0.0
  {
    p := Piece(12.0, t, [0, 0, 0, 0, 32, 0]);
  }

  /** f20 of the second branch is not negative, piece by piece. */
  lemma ErffFactorIsPositive(t: real, rnd: real -> real)
    requires SymmetricRounding(rnd) && FixesDyadics(rnd) && t >= 0.0
    ensures ErffPolynomial(true, t, 0, rnd) >= 0.0
  {
    var p;
    if t <= 1.0 {
      p := Piece0();
    } else if t <= 7.0 {
      p := Piece1();
    } else if t <= 9.0 {
      p := Piece2();
    } else if t <= 12.0 {
      p := Piece3();
    } else {
      p := Piece4(t);
    }
    ErffPiece(t, rnd, p, 0);
  }

  /** The magnitude is then never negative, so erff is odd: for every encoding and every such rounding. */
  lemma ErffIsOdd(x: u32, val: u32 -> real, rnd: real -> real, exp2: real -> real, enc: real -> u32)
    requires SignMagnitude(val) && SymmetricRounding(rnd) && FixesDyadics(rnd) && Encoder(enc)
    requires forall v: real :: v <= 0.0 ==> exp2(v) <= 1.0
    ensures Erff(XorSignBit(x), val, rnd, exp2, enc) == -Erff(x, val, rnd, exp2, enc)
  {
    var f1 := val(x);
    if Abs(f1) < 1.002959966659546 {
      ErffSmallBranch(x, val, rnd, exp2, enc);
    } else {
      var b := ErffMagnitude(f1, rnd, exp2, enc);
      ErffMagnitudeClear(f1, rnd, exp2, enc);
      ErffLargeBranch(x, val, rnd, exp2, enc, b);
      SignCopies(x, val, b);
    }
  }

  lemma RoundsBelowZero(v: real, rnd: real -> real)
    requires SymmetricRounding(rnd)
    ensures v <= 0.0 ==> rnd(v) <= 0.0
    ensures v >= 0.0 ==> rnd(v) >= 0.0
  {
    assert rnd(0.0) == -rnd(-0.0);
  }

  lemma NotPositive(f: real, t: real)
    requires f >= -1.0 && t >= 0.0
    ensures MulAdd(f, -t, -t) <= 0.0
  {
    assert (f + 1.0) * t >= 0.0;
  }

  lemma ErffSumNotPositive(f1: real, rnd: real -> real)
    requires SymmetricRounding(rnd) && FixesDyadics(rnd) && Abs(f1) >= 1.002959966659546
    ensures ErffSum(f1, rnd) <= 0.0
  {
    var f5 := Abs(f1);
    var f20 := ErffPolynomial(true, f5, 0, rnd);
    ErffFactorIsPositive(f5, rnd);
    NotPositive(f20, f5);
    RoundsBelowZero(MulAdd(f20, -f5, -f5), rnd);
  }

  lemma ErffMagnitudeClear(f1: real, rnd: real -> real, exp2: real -> real, enc: real -> u32)
    requires SymmetricRounding(rnd) && FixesDyadics(rnd) && Encoder(enc) && Abs(f1) >= 1.002959966659546
    requires forall v: real :: v <= 0.0 ==> exp2(v) <= 1.0
    ensures ErffMagnitude(f1, rnd, exp2, enc) < 0x8000_0000
  {
    ErffSumNotPositive(f1, rnd);
    var f25 := 1.0 - exp2(ErffSum(f1, rnd));
    RoundsBelowZero(f25, rnd);
    ClearSign(rnd(f25), enc);
  }

  lemma ExactIsSymmetric()
    ensures SymmetricRounding(Exact) && FixesDyadics(Exact)
  {
  }

  /** Exact arithmetic is one such rounding. */
  lemma ErffExactIsOdd(x: u32, val: u32 -> real, exp2: real -> real, enc: real -> u32)
    requires SignMagnitude(val) && Encoder(enc)
    requires forall v: real :: v <= 0.0 ==> exp2(v) <= 1.0
    ensures Erff(XorSignBit(x), val, Exact, exp2, enc) == -Erff(x, val, Exact, exp2, enc)
  {
    ExactIsSymmetric();
    ErffIsOdd(x, val, Exact, exp2, enc);
  }

  // ---- erf ----

  /**
   The last lines of erf: the sign bit of x over the high word of the magnitude fd86, a function of |x|
   (CudaErf.Magnitude).
   */
  function Erf(x: Double, magnitude: real -> Double): Double {
    var u2 := magnitude(Abs(Value64(x)));
    Double(CopySign(x.hi, u2.hi), u2.lo)
  }

  /**
   Whatever the chain computes from |x|, the results for x and -x agree on the 63 bits below the sign,
   and differ in the sign bit exactly when the magnitude has a clear sign bit.
   */
  lemma ErfAgreesUpToSign(x: Double, magnitude: real -> Double)
    ensures var a, b := Erf(x, magnitude), Erf(Double(XorSignBit(x.hi), x.lo), magnitude);
            && a.lo == b.lo && (a.hi == b.hi || a.hi == XorSignBit(b.hi))
            && (a.hi == XorSignBit(b.hi) <==> magnitude(Abs(Value64(x))).hi < 0x8000_0000)
  {
    assert Value64(Double(XorSignBit(x.hi), x.lo)) == -Value64(x);
    CopySignFlips(x.hi, magnitude(Abs(Value64(x))).hi);
  }

  /**
   The result has the sign bit of x in front of the magnitude's other 63 bits, and so the magnitude's value
   with the sign of x.
   */
  lemma ErfCarriesSign(x: Double, magnitude: real -> Double)
    requires magnitude(Abs(Value64(x))).hi < 0x8000_0000
    ensures var u, r := magnitude(Abs(Value64(x))), Erf(x, magnitude);
            && r.lo == u.lo && r.hi == u.hi + (if x.hi < 0x8000_0000 then 0 else 0x8000_0000)
            && Value64(r) == if x.hi < 0x8000_0000 then Value64(u) else -Value64(u)
  {
    CopySignPutsSign(x.hi, magnitude(Abs(Value64(x))).hi);
  }

  /** An encoder of double results, of which only this is used: non-negative values get a clear sign bit. */
  ghost predicate Encoder64(enc: real -> Double) {
    forall v: real :: v >= 0.0 ==> enc(v).hi < 0x8000_0000
  }

  /** fd86 as a double; delta gives the error committed when fd50 is formed. */
  function EncodedMagnitude(delta: real -> real, float: real -> real, enc: real -> Double): real -> Double {
    a => enc(CudaErf.ErfMagnitude(a, delta(a), float))
  }

  /** The error stays below a tenth of fd50, and below 1/1000: double rounding is far within both. */
  ghost predicate SmallErrors(delta: real -> real) {
    forall a: real :: 0.0 <= a < CudaErf.CUT ==>
      Within(delta(a), 0.001) && Within(delta(a), CudaErf.Exponent(a) / 10.0)
  }

  lemma EncodedMagnitudeClear(a: real, delta: real -> real, float: real -> real, enc: real -> Double)
    requires SmallErrors(delta) && CudaErf.FloatRounding(float) && Encoder64(enc) && a >= 0.0
    ensures EncodedMagnitude(delta, float, enc)(a).hi < 0x8000_0000
  {
    CudaErf.MagnitudeBetween(a, delta(a), float, CudaErf.ErfMagnitude(a, delta(a), float));
  }

  lemma ErfFlips(x: Double, magnitude: real -> Double)
    requires magnitude(Abs(Value64(x))).hi < 0x8000_0000
    ensures Erf(Double(XorSignBit(x.hi), x.lo), magnitude) ==
              Double(XorSignBit(Erf(x, magnitude).hi), Erf(x, magnitude).lo)
  {
    assert Value64(Double(XorSignBit(x.hi), x.lo)) == -Value64(x);
    CopySignFlips(x.hi, magnitude(Abs(Value64(x))).hi);
  }

  /** The magnitude that erf computes is never negative, so erf is odd: -x gives the same double but for the sign bit. */
  lemma ErfIsOdd(x: Double, delta: real -> real, float: real -> real, enc: real -> Double)
    requires SmallErrors(delta) && CudaErf.FloatRounding(float) && Encoder64(enc)
    ensures var magnitude := EncodedMagnitude(delta, float, enc);
            Erf(Double(XorSignBit(x.hi), x.lo), magnitude) ==
              Double(XorSignBit(Erf(x, magnitude).hi), Erf(x, magnitude).lo)
  {
    EncodedMagnitudeClear(Abs(Value64(x)), delta, float, enc);
    ErfFlips(x, EncodedMagnitude(delta, float, enc));
  }

  /** From the cut-off on, erf is 1 with the sign of x. */
  lemma {:induction false} ErfFromCut(x: Double, delta: real -> real, float: real -> real, enc: real -> Double)
    requires Encoder64(enc) && Value64(enc(1.0)) == 1.0 && Abs(Value64(x)) >= 5.9215871957945065
    ensures Value64(Erf(x, EncodedMagnitude(delta, float, enc))) == if x.hi < 0x8000_0000 then 1.0 else -1.0
  {
    var a := Abs(Value64(x));
    var fd86 := CudaErf.ErfMagnitude(a, delta(a), float);
    CudaErf.MagnitudeFromCut(a, delta(a), float, fd86);
    assert enc(fd86).hi < 0x8000_0000;
    ErfCarriesSign(x, EncodedMagnitude(delta, float, enc));
  }
}
