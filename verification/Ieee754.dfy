/** Words, and the values that section 3.4 of IEEE 754-2019 gives to binary32 and binary64 encodings. */
module Ieee754 {
  import opened WordBits

  type u32 = x: int | 0 <= x < 0x1_0000_0000

  /** An integer result kept to 32 bits. */
  function Wrap(x: int): u32 { x % 0x1_0000_0000 }

  /** The same 32 bits read as a two's complement integer. */
  function Signed(x: u32): int { if x < 0x8000_0000 then x else x - 0x1_0000_0000 }

  // ---- Powers of two ----

  /** f * 2^e, by doubling and halving. */
  function Scaled(f: real, e: int): real
    decreases if e < 0 then -e else e
  {
    if e == 0 then f else if e > 0 then 2.0 * Scaled(f, e - 1) else Scaled(f, e + 1) / 2.0
  }

  function Pow2(e: int): real { Scaled(1.0, e) }

  lemma ScaledNext(f: real, e: int)
    ensures Scaled(f, e + 1) == 2.0 * Scaled(f, e)
  {
  }

  lemma {:induction false} ScaledShift(f: real, e: int, k: int)
    ensures Scaled(f, e + k) == Scaled(Scaled(f, e), k)
    decreases if k < 0 then -k else k
  {
    if k > 0 {
      ScaledShift(f, e, k - 1);
      ScaledNext(f, e + k - 1);
    } else if k < 0 {
      ScaledShift(f, e, k + 1);
      ScaledNext(f, e + k);
    }
  }

  lemma {:induction false} ScaledMonotone(f: real, g: real, e: int)
    requires f <= g
    ensures Scaled(f, e) <= Scaled(g, e)
    decreases if e < 0 then -e else e
  {
    if e > 0 {
      ScaledMonotone(f, g, e - 1);
    } else if e < 0 {
      ScaledMonotone(f, g, e + 1);
    }
  }

  lemma Scaled53(f: real)
    ensures Scaled(f, 53) == 9007199254740992.0 * f
  {
    Scaled12(f);
    Scaled12(Scaled(f, 12));
    Scaled12(Scaled(f, 24));
    Scaled12(Scaled(f, 36));
    ScaledShift(f, 12, 12);
    ScaledShift(f, 24, 12);
    ScaledShift(f, 36, 12);
    ScaledShift(f, 48, 5);
    var h := Scaled(f, 48);
    assert Scaled(h, 5) == 32.0 * h;
  }

  lemma Scaled12(f: real)
    ensures Scaled(f, 12) == 4096.0 * f
  {
    var g := Scaled(f, 6);
    assert g == 64.0 * f;
    ScaledShift(f, 6, 6);
    assert Scaled(g, 6) == 64.0 * g;
  }

  // ---- binary32 ----

  /** The exact value of a finite encoding (exponent field below 255) without its sign bit. */
  function Magnitude32(h: nat): real {
    var e, f := h / 0x80_0000, (h % 0x80_0000) as real;
    if e == 0 then Scaled(f, -149) else Scaled(8388608.0 + f, e - 150)
  }

  function Value32(b: u32): real {
    if b < 0x8000_0000 then Magnitude32(b) else -Magnitude32(b - 0x8000_0000)
  }

  predicate PositiveNormal32(b: u32) {
    0x0080_0000 <= b < 0x7f80_0000
  }

  lemma NormalValue32(b: u32, e: nat, f: nat)
    requires 1 <= e <= 254 && f < 0x80_0000 && b == e * 0x80_0000 + f
    ensures Value32(b) == Scaled(8388608.0 + f as real, e - 150)
  {
    QuotientRemainder(b, 0x80_0000, e, f);
  }

  // ---- binary64, as the two halves of the union in cuda_math.h ----

  datatype Double = Double(hi: u32, lo: u32)

  /** The 52-bit fraction field. */
  function Fraction64(d: Double): nat { d.hi % 0x10_0000 * 0x1_0000_0000 + d.lo }

  function Magnitude64(h: nat, lo: u32): real {
    var e, f := h / 0x10_0000, (h % 0x10_0000 * 0x1_0000_0000 + lo) as real;
    if e == 0 then Scaled(f, -1074) else Scaled(4503599627370496.0 + f, e - 1075)
  }

  function Value64(d: Double): real {
    if d.hi < 0x8000_0000 then Magnitude64(d.hi, d.lo) else -Magnitude64(d.hi - 0x8000_0000, d.lo)
  }

  predicate PositiveFinite64(d: Double) {
    d.hi < 0x7ff0_0000 && (d.hi > 0 || d.lo > 0)
  }

  /** The encoding with exponent field e and fraction field f. */
  function Encode64(e: nat, f: nat): (d: Double)
    requires e <= 2046 && f < 0x10_0000_0000_0000
    ensures e * 0x10_0000 <= d.hi < (e + 1) * 0x10_0000
  {
    Double(e * 0x10_0000 + f / 0x1_0000_0000, f % 0x1_0000_0000)
  }

  lemma EncodedValue64(e: nat, f: nat)
    requires e <= 2046 && f < 0x10_0000_0000_0000
    ensures Fraction64(Encode64(e, f)) == f
    ensures Value64(Encode64(e, f)) ==
            if e == 0 then Scaled(f as real, -1074) else Scaled(4503599627370496.0 + f as real, e - 1075)
  {
    QuotientRemainder(Encode64(e, f).hi, 0x10_0000, e, f / 0x1_0000_0000);
  }

  lemma DecodeEncode64(d: Double)
    requires d.hi < 0x7ff0_0000
    ensures d == Encode64(d.hi / 0x10_0000, Fraction64(d))
  {
    QuotientRemainder(Fraction64(d), 0x1_0000_0000, d.hi % 0x10_0000, d.lo);
  }
}
