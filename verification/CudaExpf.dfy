/** cuda_math::expf: 2^n assembled from the low bits of a float that holds an integer. */
module CudaExpf {
  import opened WordBits
  import opened Ieee754
  import opened Series

  // ---- Rounding to an integer: the floats in [2^23, 2^24) are the integers there ----

  /** Nearest integer, ties to even. */
  function NearestEven(x: real): (n: int)
    ensures Within(n as real - x, 0.5)
  {
    var f := x.Floor;
    var rest := x - f as real;
    if rest < 0.5 || (rest == 0.5 && f % 2 == 0) then f else f + 1
  }

  lemma NearestEvenBetween(x: real, lo: int, hi: int)
    requires lo as real <= x <= hi as real
    ensures lo <= NearestEven(x) <= hi
  {
  }

  /** The encoding of an integer-valued float in [2^23, 2^24). */
  function IntegerFloat(n: int): u32
    requires 0x80_0000 <= n < 0x100_0000
  {
    0x4b00_0000 + (n - 0x80_0000)
  }

  lemma IntegerFloatValue(n: int)
    requires 0x80_0000 <= n < 0x100_0000
    ensures Value32(IntegerFloat(n)) == n as real
  {
    NormalValue32(IntegerFloat(n), 150, n - 0x80_0000);
  }

  /** Shifted left by 23, the encoding of 12582913 + j becomes the normal float 2^(j-126). */
  lemma ShiftedEncoding(j: int)
    requires 0 <= j <= 252
    ensures PositiveNormal32(ShiftLeft23(IntegerFloat(12582913 + j)))
    ensures Value32(ShiftLeft23(IntegerFloat(12582913 + j))) == Pow2(j - 126)
  {
    QuotientRemainder(IntegerFloat(12582913 + j), 0x200, 0x25_a000, 1 + j);
    NormalValue32((1 + j) * 0x80_0000, 1 + j, 0);
    Scaled53(1.0);
    var h := 8388608.0;
    assert Scaled(1.0, 11) == 2048.0;
    ScaledShift(1.0, 11, 12);
    Scaled12(2048.0);
    ScaledShift(1.0, 23, j - 149);
  }

  // ---- expf ----

  /** exp2f, of which only the law exp2(a + n) = exp2(a) * 2^n at integers n is used. */
  ghost predicate Exp2Law(exp2: real -> real) {
    forall a: real, n: int :: exp2(a + n as real) == Scaled(exp2(a), n)
  }

  function Clamp01(x: real): real { if x < 0.0 then 0.0 else if x > 1.0 then 1.0 else x }

  /** f9, the scaled argument rounded to a float. */
  function Magic(x: real): (f9: int)
    ensures 12582913 <= f9 <= 12583165
  {
    var f7 := Clamp01(MulAdd(x, 0.00572498003, 0.5));
    NearestEvenBetween(MulAdd(f7, 252.0, 12582913.0), 12582913, 12583165);
    NearestEven(MulAdd(f7, 252.0, 12582913.0))
  }

  function Remainder(x: real): real {
    var f10 := Magic(x) as real + -12583039.0;
    var f12 := MulAdd(x, 1.44269502, -f10);
    MulAdd(x, 0.00000001925963033500011, f12)
  }

  function Expf(x: real, exp2: real -> real): real {
    MulAdd(exp2(Remainder(x)), Value32(ShiftLeft23(IntegerFloat(Magic(x)))), 0.0)
  }

  lemma {:induction false} TimesPow2(f: real, n: int)
    ensures MulAdd(f, Pow2(n), 0.0) == Scaled(f, n)
    decreases if n < 0 then -n else n
  {
    if n > 0 {
      TimesPow2(f, n - 1);
      TimesDouble(f, Pow2(n - 1), Pow2(n));
    } else if n < 0 {
      TimesPow2(f, n + 1);
      TimesDouble(f, Pow2(n), Pow2(n + 1));
    }
  }

  lemma TimesDouble(f: real, p: real, q: real)
    requires q == 2.0 * p
    ensures MulAdd(f, q, 0.0) == 2.0 * MulAdd(f, p, 0.0)
  {
  }

  /** The split of the exponent loses nothing, for every x: inside the clamp and outside it. */
  lemma ExpfIsExp2(x: real, exp2: real -> real)
    requires Exp2Law(exp2)
    ensures Expf(x, exp2) == exp2(MulAdd(x, 1.44269502 + 0.00000001925963033500011, 0.0))
  {
    var j := Magic(x) - 12582913;
    ShiftedEncoding(j);
    TimesPow2(exp2(Remainder(x)), j - 126);
    assert exp2(Remainder(x) + (j - 126) as real) == Scaled(exp2(Remainder(x)), j - 126);
    Distribute(x, 1.44269502, 0.00000001925963033500011, (j - 126) as real);
  }

  lemma Distribute(x: real, c: real, d: real, n: real)
    ensures MulAdd(x, d, MulAdd(x, c, -n)) + n == MulAdd(x, c + d, 0.0)
  {
    assert x * (c + d) == x * c + x * d;
  }

  /** Where the clamp is inactive, exp2f is called on at most half a unit, up to 7e-6. */
  lemma RemainderIsSmall(x: real)
    requires 0.0 <= MulAdd(x, 0.00572498003, 0.5) <= 1.0
    ensures Within(Remainder(x), 0.500007)
  {
    var scaled := MulAdd(MulAdd(x, 0.00572498003, 0.5), 252.0, 12582913.0);
    assert Within(Magic(x) as real - scaled, 0.5);
    assert scaled == x * 1.44269496756 + 126.0 + 12582913.0;
    assert Within(x, 87.4);
  }
}
