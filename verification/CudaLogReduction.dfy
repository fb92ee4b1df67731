/** cuda_math::log, the integer part: x = m * 2^k from the two halves of the encoding. */
module CudaLogReduction {
  import opened WordBits
  import opened Ieee754

  // ---- Subnormals: x * 2^54 ----

  /** Doubles the significand, and lowers the exponent, until the leading bit is bit 52. */
  function Normalize(f: nat, e: int): (r: (nat, int))
    requires 1 <= f < 0x20_0000_0000_0000
    ensures 0x10_0000_0000_0000 <= r.0 < 0x20_0000_0000_0000 && r.1 <= e
    ensures Scaled(f as real, e) == Scaled(r.0 as real, r.1)
    decreases 0x20_0000_0000_0000 - f
  {
    if f >= 0x10_0000_0000_0000 then (f, e)
    else
      DoubleSignificand(f as real, e);
      Normalize(2 * f, e - 1)
  }

  lemma DoubleSignificand(f: real, e: int)
    ensures Scaled(2.0 * f, e - 1) == Scaled(f, e)
  {
    ScaledShift(f, 1, e - 1);
    assert Scaled(f, 1) == 2.0 * f;
  }

  /** 53 bits cannot be doubled more than 52 times. */
  lemma {:induction false} NormalizeExponent(f: nat, e: int, i: nat)
    requires 1 <= f < 0x20_0000_0000_0000
    requires i <= 52 && Scaled(f as real, i) >= 4503599627370496.0
    ensures Normalize(f, e).1 >= e - i
    decreases i
  {
    if f < 0x10_0000_0000_0000 {
      assert i > 0;
      DoubleSignificand(f as real, i);
      NormalizeExponent(2 * f, e - 1, i - 1);
    }
  }

  lemma SubnormalExponent(f: nat)
    requires 1 <= f < 0x10_0000_0000_0000
    ensures -1072 <= Normalize(f, -1020).1 <= -1020
  {
    Scaled53(1.0);
    ScaledNext(1.0, 52);
    ScaledMonotone(1.0, f as real, 52);
    NormalizeExponent(f, -1020, 52);
  }

  /** The encoding of f * 2^-1074 * 2^54; the product is exact. */
  function SubnormalTimes2To54(f: nat): (y: Double)
    requires 1 <= f < 0x10_0000_0000_0000
    ensures 0x30_0000 <= y.hi < 0x380_0000
  {
    SubnormalExponent(f);
    var r := Normalize(f, -1020);
    Encode64(r.1 + 1075, r.0 - 0x10_0000_0000_0000)
  }

  lemma SubnormalProduct(f: nat)
    requires 1 <= f < 0x10_0000_0000_0000
    ensures Value64(SubnormalTimes2To54(f)) == Scaled(f as real, -1020)
  {
    SubnormalExponent(f);
    var r := Normalize(f, -1020);
    EncodedValue64(r.1 + 1075, r.0 - 0x10_0000_0000_0000);
    assert 4503599627370496.0 + (r.0 - 0x10_0000_0000_0000) as real == r.0 as real;
  }

  lemma SubnormalValue(f: nat)
    requires 1 <= f < 0x10_0000_0000_0000
    ensures Scaled(Value64(Encode64(0, f)), 54) == Scaled(f as real, -1020)
  {
    EncodedValue64(0, f);
    ScaledShift(f as real, -1074, 54);
  }

  lemma SubnormalScaled(f: nat)
    requires 1 <= f < 0x10_0000_0000_0000
    ensures Value64(SubnormalTimes2To54(f)) == Scaled(Value64(Encode64(0, f)), 54)
  {
    SubnormalProduct(f);
    SubnormalValue(f);
  }

  predicate IsZero64(d: Double) { d.lo == 0 && (d.hi == 0 || d.hi == 0x8000_0000) }

  /**
   Multiplication by 2^54 as log uses it. Of a negative product (or a negative NaN) only the sign bit
   matters, and only that is promised.
   */
  method TimesTwoTo54(x: Double) returns (y: Double)
    requires x.hi < 0x10_0000 || x.hi >= 0x8000_0000
    ensures PositiveFinite64(x) ==>
              0x30_0000 <= y.hi < 0x380_0000 && Value64(y) == Scaled(Value64(x), 54)
    ensures IsZero64(x) ==> y == x
    ensures x.hi >= 0x8000_0000 ==> y.hi >= 0x8000_0000
  {
    if IsZero64(x) {
      y := x;
    } else if x.hi >= 0x8000_0000 {
      assert Double(0x8000_0000, 0).hi >= 0x8000_0000;
      y :| y.hi >= 0x8000_0000;
    } else {
      DecodeEncode64(x);
      SubnormalScaled(Fraction64(x));
      y := SubnormalTimes2To54(Fraction64(x));
    }
  }

  // ---- The reduction ----

  /**
   finite is false exactly for zeros, negatives, infinities and NaNs. Otherwise x = m * 2^k exactly, and
   the high word of m puts it in [0.7071067, 1.4142142].
   */
  method Reduce(x: Double) returns (finite: bool, fd57: Double, r27: int)
    ensures finite <==> PositiveFinite64(x)
    ensures finite ==> Value64(x) == Scaled(Value64(fd57), r27) && -1074 <= r27 <= 1024
    ensures finite ==> 0x3FE6_A09F <= fd57.hi <= 0x3FF6_A09E
    ensures finite ==> 0.7071067 <= Value64(fd57) <= 1.4142142
  {
    var fd56 := x;
    var r24 := Signed(fd56.hi);
    var r25 := fd56.lo;
    var p1 := r24 > 1048575;
    var r26 := Wrap(-1023);
    if !p1 {
      fd56 := TimesTwoTo54(fd56);
      r24 := Signed(fd56.hi);
      r25 := fd56.lo;
      r26 := Wrap(-1077);
    }
    var r13 := r24 - 1;
    var p2 := Wrap(r13) < 2146435071;
    r27 := 0;
    fd57 := Double(0, 0);
    finite := p2;
    if p2 {
      NormalWord(r24);
      r27, fd57 := SplitNormal(fd56, r24, r25, r26, if p1 then -1023 else -1077);
      if !p1 {
        ScaledShift(Value64(x), 54, -54);
        ScaledShift(Value64(fd57), r27 + 54, -54);
      }
    }
  }

  /** The branch for 1 <= r24 < 0x7ff00000; r26 is the word of the (negative) bias. */
  method SplitNormal(fd56: Double, r24: u32, r25: u32, r26: u32, ghost bias: int) returns (r27: int, fd57: Double)
    requires fd56 == Double(r24, r25) && 0x10_0000 <= r24 < 0x7ff0_0000
    requires r26 == Wrap(bias) && -1077 <= bias <= -1023
    ensures Value64(fd56) == Scaled(Value64(fd57), r27 - bias - 1023)
    ensures bias + ShiftRight20(r24) <= r27 <= bias + ShiftRight20(r24) + 1
    ensures 0x3FE6_A09F <= fd57.hi <= 0x3FF6_A09E
    ensures 0.7071067 <= Value64(fd57) <= 1.4142142
  {
    NormalWord(r24);
    var r15 := ShiftRight20(r24);
    r27 := Signed(Wrap(r26 + r15));
    BiasedSum(bias, r15);
    var r16 := AndSignAndFraction(r24);
    var r17 := OrExponentOfOne(r16);
    fd57 := Double(r17, r25);
    var p4 := r17 < 1073127583;
    if !p4 {
      var r18 := fd57.lo;
      var r19 := fd57.hi;
      var r20 := r19 - 1048576;
      fd57 := Double(r20, r18);
      r27 := r27 + 1;
    }
    ReducedSignificand(fd56, fd57, r15, if p4 then 1023 else 1022);
  }

  lemma NormalWord(w: int)
    requires 0x10_0000 <= w < 0x7ff0_0000
    ensures 1 <= ShiftRight20(w) <= 2046
    ensures w == ShiftRight20(w) * 0x10_0000 + w % 0x10_0000 && AndSignAndFraction(w) == w % 0x10_0000
  {
  }

  lemma BiasedSum(b: int, e: nat)
    requires -1077 <= b < 0 && e <= 2046
    ensures Signed(Wrap(Wrap(b) + e)) == b + e
  {
    var s := b + e;
    QuotientRemainder(b, 0x1_0000_0000, -1, b + 0x1_0000_0000);
    QuotientRemainder(s + 0x1_0000_0000, 0x1_0000_0000, if s < 0 then 0 else 1, if s < 0 then s + 0x1_0000_0000 else s);
  }

  /** Replacing the exponent field e of y by b divides its value by 2^(e-b). */
  lemma ReducedSignificand(y: Double, m: Double, e: nat, b: nat)
    requires 1 <= e <= 2046 && 1022 <= b <= 1023 && y.hi == e * 0x10_0000 + y.hi % 0x10_0000
    requires m == Double(b * 0x10_0000 + y.hi % 0x10_0000, y.lo)
    requires b == if y.hi % 0x10_0000 < 0x6A09F then 1023 else 1022
    ensures Value64(y) == Scaled(Value64(m), e - b)
    ensures 0x3FE6_A09F <= m.hi <= 0x3FF6_A09E
    ensures 0.7071067 <= Value64(m) <= 1.4142142
  {
    var f := Fraction64(y);
    var top := y.hi % 0x10_0000;
    QuotientRemainder(f, 0x1_0000_0000, top, y.lo);
    assert y == Encode64(e, f) && m == Encode64(b, f);
    EncodedValue64(e, f);
    EncodedValue64(b, f);
    ScaledShift(4503599627370496.0 + f as real, b - 1075, e - b);
    SignificandRange(f, b);
  }

  lemma SignificandRange(f: nat, b: nat)
    requires f < 0x10_0000_0000_0000
    requires if b == 1023 then f < 0x6A09F * 0x1_0000_0000 else b == 1022 && f >= 0x6A09F * 0x1_0000_0000
    ensures 0.7071067 <= Scaled(4503599627370496.0 + f as real, b - 1075) <= 1.4142142
  {
    var v := 4503599627370496.0 + f as real;
    Scaled53(Scaled(v, -53));
    ScaledShift(v, -53, 53);
    ScaledNext(v, -53);
  }

  // ---- Conversion of k to double ----

  /** The doubles with high word 0x43300000 are 2^52 + lo. */
  lemma MagicValue(lo: u32)
    ensures Value64(Double(1127219200, lo)) == 4503599627370496.0 + lo as real
  {
    assert Double(1127219200, lo) == Encode64(1075, lo);
    EncodedValue64(1075, lo);
  }

  /** One subtraction of such doubles turns a signed word into its double. */
  lemma MagicConversion(w: u32)
    ensures Value64(Double(1127219200, XorSignBit(w))) - Value64(Double(1127219200, 0x8000_0000)) == Signed(w) as real
  {
    MagicValue(XorSignBit(w));
    MagicValue(0x8000_0000);
  }
}
