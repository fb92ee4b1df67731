/** cuda_math::logf: range reduction on the encoding, then a degree-10 polynomial. */
module CudaLogf {
  import opened WordBits
  import opened Ieee754
  import opened Series

  // ---- The polynomial against the series of ln(1 + t) ----

  /** Coefficients of ln(1 + t) = t - t^2/2 + t^3/3 - ... */
  function Ln1p(n: nat): real {
    if n == 0 then 0.0 else if n % 2 == 1 then 1.0 / n as real else -1.0 / n as real
  }

  /** t - t^2/2 + t^3/3 - ... up to the term in t^order. */
  function Ln1pSum(t: real, order: nat): real { Sum(Ln1p, t, order + 1) }

  /** Coefficients of the factor of t^2. */
  function Coefficient(n: nat): real {
    match n
    case 0 => -0.5
    case 1 => 0.33333182334899902344
    case 2 => -0.24999669194221496582
    case 3 => 0.20012299716472625732
    case 4 => -0.16684235632419586182
    case 5 => 0.13980610668659210205
    case 6 => -0.12148627638816833496
    case 7 => 0.14084610342979431152
    case _ => -0.130188569
  }

  /** The factor of t^2 in the polynomial. */
  function LogfTail(t: real): real { Horner(Coefficient, t, 0, 9) }

  function LogfPolynomial(t: real): real { MulAdd(t, MulAdd(t, LogfTail(t), 0.0), t) }

  lemma Ln1pTailWithin(t: real, n: nat)
    requires Within(t, 1.0 / 3.0)
    ensures Within(Horner(Ln1p, t, 11, n), 0.1363637)
  {
    forall j: nat | j >= 11
      ensures Within(Ln1p(j), 1.0 / 11.0)
    {
      assert 1.0 / j as real <= 1.0 / 11.0;
    }
    HornerWithin(Ln1p, t, 11, n, 1.0 / 11.0, 1.0 / 3.0, 0.1363637);
  }

  /** Bounds of the distance between a coefficient and that of ln(1 + t) two places on. */
  function CoefficientGap(i: nat): real
    requires i <= 8
  {
    match i
    case 0 => 0.0 case 1 => 0.0000016 case 2 => 0.0000034 case 3 => 0.0001230 case 4 => 0.0001757
    case 5 => 0.0030511 case 6 => 0.0035138 case 7 => 0.0297350 case 8 => 0.0301886
  }

  /** Bounds of the distance between the two Horner schemes from index i on. */
  function SchemeGap(i: nat): real
    requires i <= 9
  {
    match i
    case 0 => 0.0000502 case 1 => 0.0001505 case 2 => 0.0004465 case 3 => 0.0013292 case 4 => 0.0036184
    case 5 => 0.0103279 case 6 => 0.0218303 case 7 => 0.0549495 case 8 => 0.0756432 case 9 => 0.1363637
  }

  lemma GapTables(i: nat)
    requires i <= 8
    ensures Within(Coefficient(i) - Ln1p(i + 2), CoefficientGap(i))
    ensures CoefficientGap(i) + SchemeGap(i + 1) / 3.0 <= SchemeGap(i)
  {
    assert Ln1p(2) == -0.5 && Ln1p(3) == 1.0 / 3.0 && Ln1p(4) == -0.25 && Ln1p(5) == 0.2;
    assert Ln1p(6) == -1.0 / 6.0 && Ln1p(7) == 1.0 / 7.0 && Ln1p(8) == -0.125 && Ln1p(9) == 1.0 / 9.0;
    assert Ln1p(10) == -0.1;
  }

  /** Both forms are Horner schemes; from the ninth coefficient inwards their distance shrinks by |t| a step. */
  lemma {:induction false} SchemesClose(t: real, i: nat, n: nat)
    requires Within(t, 1.0 / 3.0) && i <= 9 && n >= 11
    ensures Within(Horner(Coefficient, t, i, 9) - Horner(Ln1p, t, i + 2, n), SchemeGap(i))
    decreases 9 - i
  {
    if i == 9 {
      Ln1pTailWithin(t, n);
    } else {
      SchemesClose(t, i + 1, n);
      GapTables(i);
      HornerAt(Coefficient, t, i, 9);
      HornerAt(Ln1p, t, i + 2, n);
      SchemesStep(t, Coefficient(i), Ln1p(i + 2), Horner(Coefficient, t, i + 1, 9), Horner(Ln1p, t, i + 3, n),
        CoefficientGap(i), 1.0 / 3.0, SchemeGap(i + 1), SchemeGap(i));
    }
  }

  lemma TailClose(t: real, n: nat)
    requires Within(t, 1.0 / 3.0) && n >= 11
    ensures Within(LogfTail(t) - Horner(Ln1p, t, 2, n), 0.0000502)
  {
    SchemesClose(t, 0, n);
  }

  /** On |t| <= 1/3 the polynomial is within 6e-6 of every partial sum of ln(1 + t) of order 10 or more. */
  lemma PolynomialApproximatesLn1p(t: real, order: nat)
    requires Within(t, 1.0 / 3.0) && order >= 10
    ensures Within(LogfPolynomial(t) - Ln1pSum(t, order), 0.000006)
  {
    var n := order + 1;
    SumIsHorner(Ln1p, t, n);
    HornerAt(Ln1p, t, 0, n);
    HornerAt(Ln1p, t, 1, n);
    TailClose(t, n);
    SquareClose(t, LogfTail(t), Horner(Ln1p, t, 2, n), 0.0000502);
  }

  lemma SquareClose(t: real, a: real, h: real, b: real)
    requires Within(t, 1.0 / 3.0) && Within(a - h, b)
    ensures Within(MulAdd(t, MulAdd(t, a, 0.0), t) - MulAdd(t, MulAdd(t, h, 1.0), 0.0), b / 9.0)
  {
    ProductWithin(t, a - h, 1.0 / 3.0, b);
    ProductWithin(t, t * (a - h), 1.0 / 3.0, b / 3.0);
    SquareFactor(t, a, h);
  }

  lemma SquareFactor(t: real, a: real, h: real)
    ensures t * (t * (a - h)) == MulAdd(t, MulAdd(t, a, 0.0), t) - MulAdd(t, MulAdd(t, h, 1.0), 0.0)
  {
    assert t * (a - h) == t * a - t * h;
    assert t * (t * a - t * h) == t * (t * a) - t * (t * h);
    assert t * (t * h + 1.0) == t + t * (t * h);
  }

  // ---- Range reduction ----

  /**
   The integer part of logf. For every pattern the reduced bits lie in [0x3f2aaaab, 0x3faaaaab), the
   encodings from 0.6666667 up to just below 1.3333334; for a positive normal x = m * 2^k exactly.
   */
  method Reduce(x: u32) returns (r5: u32, r4: u32, k: int)
    ensures 0x3f2a_aaab <= r4 < 0x3faa_aaab
    ensures Signed(r5) == k * 0x80_0000
    ensures PositiveNormal32(x) ==> Value32(x) == Scaled(Value32(r4), k)
    ensures Within(Value32(r4) - 1.0, 1.0 / 3.0)
  {
    r4 := Wrap(x - 0x3f2a_aaab);
    r5 := AndTop9(r4);
    ReducedBits(x, r4, r5);
    r4 := Wrap(Signed(x) - Signed(r5));
    k := Signed(r5) / 0x80_0000;
    ReducedValue(r4);
    if PositiveNormal32(x) {
      ExponentShift(x, r4, k);
    }
  }

  lemma ReducedBits(x: u32, w: u32, r5: u32)
    requires w == Wrap(x - 0x3f2a_aaab) && r5 == AndTop9(w)
    ensures Wrap(Signed(x) - Signed(r5)) == 0x3f2a_aaab + w % 0x80_0000
    ensures Signed(r5) % 0x80_0000 == 0
    ensures x < 0x7f80_0000 ==> x == 0x3f2a_aaab + w % 0x80_0000 + Signed(r5)
  {
    var low, q := w % 0x80_0000, w / 0x80_0000;
    assert r5 == q * 0x80_0000;
    assert Signed(r5) == (if q < 256 then q else q - 512) * 0x80_0000;
    WrapIs(x - 0x3f2a_aaab, w, if x < 0x3f2a_aaab then 1 else 0);
    var borrow := if x < 0x3f2a_aaab then 1 else 0;
    var j := borrow + (if x < 0x8000_0000 then 0 else 1) - (if r5 < 0x8000_0000 then 0 else 1);
    WrapIs(Signed(x) - Signed(r5), 0x3f2a_aaab + low, j);
  }

  lemma WrapIs(y: int, x: u32, j: int)
    requires x == y + j * 0x1_0000_0000 || x == Wrap(y)
    requires 0 <= y + j * 0x1_0000_0000 < 0x1_0000_0000
    ensures Wrap(y) == x == y + j * 0x1_0000_0000
  {
    QuotientRemainder(y, 0x1_0000_0000, -j, y + j * 0x1_0000_0000);
  }

  lemma ReducedValue(b: u32)
    requires 0x3f2a_aaab <= b < 0x3faa_aaab
    ensures Within(Value32(b) - 1.0, 1.0 / 3.0)
  {
    var e := if b < 0x3f80_0000 then 126 else 127;
    var f := b - e * 0x80_0000;
    NormalValue32(b, e, f);
    var h := 8388608.0 + f as real;
    TwoTo24(h);
    ScaledNext(h, -24);
  }

  lemma TwoTo24(h: real)
    ensures 16777216.0 * Scaled(h, -24) == h
  {
    var g := Scaled(h, -24);
    Scaled12(g);
    Scaled12(Scaled(g, 12));
    ScaledShift(g, 12, 12);
    ScaledShift(h, -24, 24);
  }

  lemma ExponentShift(x: u32, m: u32, k: int)
    requires PositiveNormal32(x) && PositiveNormal32(m) && x == m + k * 0x80_0000
    ensures Value32(x) == Scaled(Value32(m), k)
  {
    var e, f := m / 0x80_0000, m % 0x80_0000;
    NormalValue32(m, e, f);
    NormalValue32(x, e + k, f);
    ScaledShift(8388608.0 + f as real, e - 150, k);
  }

  /** Lines 19 to 27 of cuda_math.cpp. */
  method EvaluateTail(r6: real) returns (r7: real)
    ensures r7 == LogfTail(r6)
  {
    r7 := 0.130188569;
    r7 := HornerStart(r6, -1.0 * r7, Coefficient, 8);
    r7 := HornerStep(r6, r7, 0.14084610342979431152, Coefficient, 7, 9);
    r7 := HornerStep(r6, r7, -0.12148627638816833496, Coefficient, 6, 9);
    r7 := HornerStep(r6, r7, 0.13980610668659210205, Coefficient, 5, 9);
    r7 := HornerStep(r6, r7, -0.16684235632419586182, Coefficient, 4, 9);
    r7 := HornerStep(r6, r7, 0.20012299716472625732, Coefficient, 3, 9);
    r7 := HornerStep(r6, r7, -0.24999669194221496582, Coefficient, 2, 9);
    r7 := HornerStep(r6, r7, 0.33333182334899902344, Coefficient, 1, 9);
    r7 := HornerStep(r6, r7, -0.5, Coefficient, 0, 9);
    HornerValue(Coefficient, r6, 0, 9, r7);
  }

  /**
   logf on a positive normal x, with its float operations taken over the reals: x = (1+t) * 2^k and the
   result is within 6e-6 of k*ln2 plus every partial sum of ln(1+t) of order 10 or more.
   */
  method Logf(x: u32) returns (y: real, k: int, t: real)
    requires PositiveNormal32(x)
    ensures Value32(x) == Scaled(1.0 + t, k) && Within(t, 1.0 / 3.0)
    ensures forall order: nat :: order >= 10 ==>
              Within(y - (k as real * 0.69314718246459960938 + Ln1pSum(t, order)), 0.000006)
  {
    var r5, m;
    r5, m, k := Reduce(x);
    var r4 := Value32(m);
    var r6 := r4 - 1.0;
    t := r6;
    r4 := 0.0;
    var r7 := EvaluateTail(r6);
    r7 := MulAdd(r6, r7, 0.0);
    r7 := MulAdd(r6, r7, r6);
    assert r7 == LogfPolynomial(r6);
    r4 := Signed(r5) as real * 0.00000011920928955078125 + r4;
    assert r4 == k as real;
    r4 := r4 * 0.69314718246459960938 + r7;
    y := r4;
    forall order: nat | order >= 10
      ensures Within(y - (k as real * 0.69314718246459960938 + Ln1pSum(t, order)), 0.000006)
    {
      PolynomialApproximatesLn1p(t, order);
    }
  }
}
