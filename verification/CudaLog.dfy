/** cuda_math::log on a positive finite double, with its double operations taken over the reals. */
module CudaLog {
  import opened WordBits
  import opened Ieee754
  import opened Series
  import CudaLogReduction

  // ---- The series of ln m in u = 2(m-1)/(m+1) ----

  function OddReciprocal(n: nat): real { 1.0 / (2 * n + 1) as real }

  /** The sum of u^(2n+1) / ((2n+1) * 4^n) for n = 0..order. */
  function LogSeries(u: real, order: nat): real {
    MulAdd(u, Sum(OddReciprocal, u * u / 4.0, order + 1), 0.0)
  }

  // ---- The polynomial ----

  /** Its coefficients, in u^2. */
  function Coefficient(n: nat): real {
    match n
    case 0 => 0.08333333333333331
    case 1 => 0.012500000000004514
    case 2 => 0.0022321428567665586
    case 3 => 0.00043402779293201976
    case 4 => 0.00008877807196497797
    case 5 => 0.000018784407018835667
    case 6 => 0.000004036488625710656
    case _ => 0.0000010263276909458365
  }

  function Polynomial(w: real): real { Horner(Coefficient, w, 0, 8) }

  lemma SeriesTailWithin(z: real, n: nat)
    requires Within(z, 0.0294374)
    ensures Within(Horner(OddReciprocal, z, 9, n), 0.0542285)
  {
    forall j: nat | j >= 9
      ensures Within(OddReciprocal(j), 1.0 / 19.0)
    {
      assert 1.0 / (2 * j + 1) as real <= 1.0 / 19.0;
    }
    HornerWithin(OddReciprocal, z, 9, n, 1.0 / 19.0, 0.0294374, 0.0542285);
  }

  /** 4^(i+1) */
  function Quad(i: nat): real
    requires i <= 8
  {
    match i
    case 0 => 4.0 case 1 => 16.0 case 2 => 64.0 case 3 => 256.0 case 4 => 1024.0
    case 5 => 4096.0 case 6 => 16384.0 case 7 => 65536.0 case 8 => 262144.0
  }

  /** Bounds of the distance between 4^(i+1) times coefficient i and coefficient i+1 of the series. */
  function CoefficientGap(i: nat): real
    requires i < 8
  {
    match i
    case 0 => 0.0000000000000000934 case 1 => 0.00000000000007223 case 2 => 0.000000000024084
    case 3 => 0.0000000038795 case 4 => 0.00000034522 case 5 => 0.000017855
    case 6 => 0.00053284 case 7 => 0.0084379
  }

  /** Bounds of the distance between the two Horner schemes from index i on. */
  function SchemeGap(i: nat): real
    requires i <= 8
  {
    match i
    case 0 => 0.00000000000131507 case 1 => 0.00000000004467 case 2 => 0.00000000151498
    case 3 => 0.000000050646 case 4 => 0.00000158866 case 5 => 0.00004224
    case 6 => 0.00082823 case 7 => 0.0100343 case 8 => 0.0542285
  }

  lemma GapTables(i: nat)
    requires i < 8
    ensures Near(Quad(i), Coefficient(i), OddReciprocal(i + 1), CoefficientGap(i))
    ensures CoefficientGap(i) + 0.0294374 * SchemeGap(i + 1) <= SchemeGap(i)
    ensures Quad(i + 1) == 4.0 * Quad(i)
  {
    assert OddReciprocal(1) == 1.0 / 3.0 && OddReciprocal(2) == 1.0 / 5.0;
    assert OddReciprocal(3) == 1.0 / 7.0 && OddReciprocal(4) == 1.0 / 9.0;
    assert OddReciprocal(5) == 1.0 / 11.0 && OddReciprocal(6) == 1.0 / 13.0;
    assert OddReciprocal(7) == 1.0 / 15.0 && OddReciprocal(8) == 1.0 / 17.0;
  }

  /** |scale*a - h| <= b */
  predicate Near(scale: real, a: real, h: real, b: real) { Within(scale * a - h, b) }

  /** With w = 4z the two Horner schemes run in step; a and h are their inner values. */
  lemma SchemeStep(z: real, scale: real, scale4: real, c: real, a: real, f: real, h: real, d: real, b: real, r: real)
    requires Within(z, 0.0294374) && scale4 == 4.0 * scale
    requires Near(scale4, a, h, b) && Near(scale, c, f, d) && d + 0.0294374 * b <= r
    ensures Near(scale, MulAdd(4.0 * z, a, c), MulAdd(z, h, f), r)
  {
    StepWithin(scale * c - f, z, scale4 * a - h, d, 0.0294374, b, r);
    assert scale * ((4.0 * z) * a) == z * (scale4 * a);
    assert scale * ((4.0 * z) * a + c) == scale * ((4.0 * z) * a) + scale * c;
    assert z * (scale4 * a - h) == z * (scale4 * a) - z * h;
  }

  lemma {:induction false} SchemesClose(z: real, w: real, i: nat, n: nat)
    requires Within(z, 0.0294374) && w == 4.0 * z && i <= 8 && n >= 9
    ensures Near(Quad(i), Horner(Coefficient, w, i, 8), Horner(OddReciprocal, z, i + 1, n), SchemeGap(i))
    decreases 8 - i
  {
    if i == 8 {
      SeriesTailWithin(z, n);
    } else {
      SchemesClose(z, w, i + 1, n);
      GapTables(i);
      HornerAt(Coefficient, w, i, 8);
      HornerAt(OddReciprocal, z, i + 1, n);
      SchemeStep(z, Quad(i), Quad(i + 1), Coefficient(i), Horner(Coefficient, w, i + 1, 8), OddReciprocal(i + 1),
        Horner(OddReciprocal, z, i + 2, n), CoefficientGap(i), SchemeGap(i + 1), SchemeGap(i));
    }
  }

  function Square(u: real): real { MulAdd(u, u, 0.0) }

  /** w * p(w) */
  function Inner(w: real): real { MulAdd(w, Polynomial(w), 0.0) }

  /** u + u^3 * p(u^2) */
  function LogPolynomial(u: real): real { MulAdd(u, Inner(Square(u)), u) }

  /** On the reduced range it is within 1.4e-14 of every partial sum of the series of order 8 or more. */
  lemma PolynomialApproximatesSeries(u: real, order: nat)
    requires Within(u, 0.3431462) && order >= 8
    ensures Within(LogPolynomial(u) - LogSeries(u, order), 0.000000000000014)
  {
    var n, z := order + 1, u * u / 4.0;
    ProductWithin(u, u, 0.3431462, 0.3431462);
    SumIsHorner(OddReciprocal, z, n);
    HornerAt(OddReciprocal, z, 0, n);
    SchemesClose(z, Square(u), 0, n);
    SchemesToSeries(u, z, Polynomial(Square(u)), Horner(OddReciprocal, z, 1, n), SchemeGap(0));
  }

  lemma SchemesToSeries(u: real, z: real, p: real, h: real, b: real)
    requires Within(u, 0.3431462) && Within(z, 0.0294374) && Near(4.0, p, h, b)
    ensures Within(MulAdd(u, MulAdd(4.0 * z, p, 0.0), u) - MulAdd(u, MulAdd(z, h, 1.0), 0.0), 0.0101014 * b)
  {
    ProductWithin(z, 4.0 * p - h, 0.0294374, b);
    ProductWithin(u, z * (4.0 * p - h), 0.3431462, 0.0294374 * b);
    SchemeFactor(u, z, p, h);
  }

  lemma SchemeFactor(u: real, z: real, p: real, h: real)
    ensures u * (z * (4.0 * p - h)) == MulAdd(u, MulAdd(4.0 * z, p, 0.0), u) - MulAdd(u, MulAdd(z, h, 1.0), 0.0)
  {
    assert z * (4.0 * p - h) == (4.0 * z) * p - z * h;
    assert u * ((4.0 * z) * p - z * h) == u * ((4.0 * z) * p) - u * (z * h);
    assert u * (z * h + 1.0) == u * (z * h) + u;
  }

  // ---- The division ----

  /** Two steps of the reciprocal iteration cube the residual of any first estimate y0 of 1/d. */
  lemma ReciprocalResidual(d: real, y0: real, e: real, y: real)
    requires e == MulAdd(-d, y0, 1.0) && y == MulAdd(MulAdd(e, e, e), y0, y0)
    ensures d * y == 1.0 - e * (e * e)
  {
    var s := e * e + e;
    assert d * y0 == 1.0 - e;
    assert d * (s * y0 + y0) == s * (d * y0) + d * y0;
    assert s * (1.0 - e) == s - s * e;
    assert s * e == (e * e) * e + e * e;
  }

  /** With residual c of y, head plus correction is the quotient 2q/d up to the factor 1 - c^2. */
  lemma HeadPlusCorrection(q: real, d: real, y: real, c: real, head: real, correction: real)
    requires d == q + 2.0 && d * y == 1.0 - c
    requires head == MulAdd(q, y, MulAdd(q, y, 0.0))
    requires correction == MulAdd(y, MulAdd(-head, q, (q - head) + (q - head)), 0.0)
    ensures d * head == 2.0 * q * (1.0 - c)
    ensures d * (head + correction) == 2.0 * q * (1.0 - c * c)
  {
    var p := q * y;
    assert head == 2.0 * p;
    assert d * p == q * (d * y);
    assert -head * q + 2.0 * (q - head) == 2.0 * q - head * d;
    assert head * d == 2.0 * q * (1.0 - c);
    assert 2.0 * q - head * d == 2.0 * q * c;
    assert correction == y * (2.0 * q * c);
    assert d * correction == (d * y) * (2.0 * q * c);
    assert (1.0 - c) * (2.0 * q * c) == 2.0 * q * (c - c * c);
  }

  /** c stands for the cube of the residual, and c2 for its square. */
  lemma QuotientError(q: real, d: real, u: real, c: real, c2: real, head: real, correction: real)
    requires d > 0.0 && u == 2.0 * q / d && Within(u, 0.3431462)
    requires Within(c, 0.000000000000001) && Within(c2, 0.000000000000000000000000000001)
    requires d * head == 2.0 * q * (1.0 - c) && d * (head + correction) == 2.0 * q * (1.0 - c2)
    ensures Within(head - u, 0.00000000000000035)
    ensures Within(head + correction - u, 0.0000000000000000001)
  {
    Cancel(d, u, q, head, c);
    Cancel(d, u, q, head + correction, c2);
    SmallFactor(u, c, 0.000000000000001, head - u);
    SmallFactor(u, c2, 0.000000000000000000000000000001, head + correction - u);
  }

  lemma SmallFactor(u: real, c: real, b: real, error: real)
    requires Within(u, 0.3431462) && Within(c, b) && error == -(u * c)
    ensures Within(error, 0.3431462 * b)
  {
    ProductWithin(u, c, 0.3431462, b);
  }

  lemma ResidualPowers(e: real)
    requires Within(e, 0.00001)
    ensures Within(e * (e * e), 0.000000000000001)
    ensures Within((e * (e * e)) * (e * (e * e)), 0.000000000000000000000000000001)
  {
    var c := e * (e * e);
    ProductWithin(e, e, 0.00001, 0.00001);
    ProductWithin(e, e * e, 0.00001, 0.0000000001);
    ProductWithin(c, c, 0.000000000000001, 0.000000000000001);
  }

  lemma Cancel(d: real, u: real, q: real, h: real, c: real)
    requires d > 0.0 && u == 2.0 * q / d && d * h == 2.0 * q * (1.0 - c)
    ensures h - u == -(u * c)
  {
    assert 2.0 * q == d * u;
    assert d * h == d * (u * (1.0 - c));
    assert h == u * (1.0 - c);
  }

  // ---- From the rounded head back to the exact quotient ----

  lemma CoefficientsWithin()
    ensures forall j: nat :: Within(Coefficient(j), 0.0834)
  {
  }

  lemma SquaresClose(u: real, v: real)
    requires Within(u, 0.3431462) && Within(v - u, 0.00000000000000035)
    ensures Within(Square(v) - Square(u), 0.000000000000000241) && Within(Square(u), 0.118) && Within(Square(v), 0.118)
  {
    ProductWithin(u, u, 0.3431462, 0.3431462);
    ProductWithin(v, v, 0.3431463, 0.3431463);
    ProductsClose(v, v, u, u, 0.00000000000000035, 0.00000000000000035, 0.3431463, 0.3431462);
  }

  lemma PolynomialsClose(w: real, z: real)
    requires Within(w, 0.118) && Within(z, 0.118) && Within(w - z, 0.000000000000000241)
    ensures Within(Polynomial(w) - Polynomial(z), 0.000000000000000029)
    ensures Within(Polynomial(w), 0.1) && Within(Polynomial(z), 0.1)
  {
    CoefficientsWithin();
    HornerLipschitz(Coefficient, w, z, 0, 8, 0.0834, 0.118, 0.1, 0.000000000000000241, 0.000000000000000029);
    HornerWithin(Coefficient, w, 0, 8, 0.0834, 0.118, 0.1);
    HornerWithin(Coefficient, z, 0, 8, 0.0834, 0.118, 0.1);
  }

  lemma InnersClose(w: real, z: real, p: real, r: real)
    requires Within(w, 0.118) && Within(z, 0.118) && Within(w - z, 0.000000000000000241)
    requires Within(p - r, 0.000000000000000029) && Within(p, 0.1) && Within(r, 0.1)
    ensures Within(MulAdd(w, p, 0.0) - MulAdd(z, r, 0.0), 0.00000000000000003) && Within(MulAdd(z, r, 0.0), 0.0118)
  {
    ProductsClose(w, p, z, r, 0.000000000000000241, 0.000000000000000029, 0.1, 0.118);
    ProductWithin(z, r, 0.118, 0.1);
  }

  /** v and u are the head and the quotient, i and j their inner values. */
  lemma SumsClose(v: real, u: real, i: real, j: real, correction: real)
    requires Within(u, 0.3431462) && Within(v - u, 0.00000000000000035)
    requires Within(v + correction - u, 0.0000000000000000001)
    requires Within(i - j, 0.00000000000000003) && Within(j, 0.0118)
    ensures Within(v + MulAdd(i, v, correction) - MulAdd(u, j, u), 0.00000000000000002)
  {
    ProductsClose(i, v, j, u, 0.00000000000000003, 0.00000000000000035, 0.3431463, 0.0118);
  }

  lemma QuotientWithin(n: real, d: real, b: real)
    requires d > 0.0 && -(b * d) <= n <= b * d
    ensures Within(n / d, b)
  {
    assert d * (n / d) == n;
  }

  /** u = 2(m-1)/(m+1) */
  function Quotient(m: real): real
    requires m > 0.0
  {
    2.0 * (m + -1.0) / (m + 1.0)
  }

  lemma QuotientRange(m: real)
    requires 0.7071067 <= m <= 1.4142142
    ensures Within(Quotient(m), 0.3431462)
  {
    QuotientWithin(2.0 * (m + -1.0), m + 1.0, 0.3431462);
  }

  // ---- log ----

  /** y is within b of the series of ln m summed up to any order of 8 or more. */
  ghost predicate ApproximatesLn(y: real, m: real, b: real)
    requires m > 0.0
  {
    forall order: nat :: order >= 8 ==> Within(y - LogSeries(Quotient(m), order), b)
  }

  /** Whatever error delta is committed when k*ln2 + head is formed, the later steps subtract it again. */
  lemma RoundingCancels(k: real, hi: real, lo: real, head: real, tail: real, delta: real)
    ensures var fd49 := MulAdd(k, hi, head) + delta;
            var fd52 := MulAdd(-k, hi, fd49) - head;
            fd49 + MulAdd(k, lo, tail - fd52) == MulAdd(k, hi + lo, head + tail)
  {
    assert -k * hi == -(k * hi);
    assert k * (hi + lo) == k * hi + k * lo;
  }

  /**
   log on every double. A positive finite x is m * 2^k with m in [0.7071067, 1.4142142], and the result
   is k*ln2 + y where y is within 1.5e-14 of ln m. rho is the relative error of the first reciprocal
   and delta the error committed when fd49 is formed.
   */
  method Log(x: Double, rho: real, delta: real) returns (finite: bool, fd58: real, k: int, m: real, y: real)
    requires Within(rho, 0.00001)
    ensures finite <==> PositiveFinite64(x)
    ensures finite ==> Value64(x) == Scaled(m, k) && 0.7071067 <= m <= 1.4142142
    ensures finite ==> fd58 == k as real * (0.6931471805599453 + 0.000000000000000023190468138462996) + y
    ensures finite ==> ApproximatesLn(y, m, 0.000000000000015)
  {
    var fd57;
    finite, fd57, k := CudaLogReduction.Reduce(x);
    m, fd58, y := Value64(fd57), 0.0, 0.0;
    if finite {
      var fd12 := m + 1.0;
      var fd14 := (1.0 - rho) / fd12;
      var fd15 := -fd12;
      var fd16 := MulAdd(fd15, fd14, 1.0);
      var fd17 := MulAdd(fd16, fd16, fd16);
      var fd18 := MulAdd(fd17, fd14, fd14);
      var fd19 := m + -1.0;
      var fd20 := MulAdd(fd19, fd18, 0.0);
      var fd21 := MulAdd(fd19, fd18, fd20);
      var fd22 := MulAdd(fd21, fd21, 0.0);
      var fd37 := EvaluatePolynomial(fd22);
      var fd38 := fd19 - fd21;
      var fd39 := fd38 + fd38;
      var fd40 := -fd21;
      var fd41 := MulAdd(fd40, fd19, fd39);
      var fd42 := MulAdd(fd18, fd41, 0.0);
      var fd43 := MulAdd(fd22, fd37, 0.0);
      var fd44 := MulAdd(fd43, fd21, fd42);
      var r21 := XorSignBit(Wrap(k));
      var fd47 := Value64(Double(1127219200, r21)) - Value64(Double(1127219200, 0x8000_0000));
      ConversionOfExponent(k);
      var fd48 := 0.6931471805599453;
      var fd49 := MulAdd(fd47, fd48, fd21) + delta;
      var fd50 := -fd47;
      var fd51 := MulAdd(fd50, fd48, fd49);
      var fd52 := fd51 - fd21;
      var fd53 := fd44 - fd52;
      var fd54 := 0.000000000000000023190468138462996;
      var fd55 := MulAdd(fd47, fd54, fd53);
      fd58 := fd49 + fd55;
      y := fd21 + fd44;
      RoundingCancels(k as real, fd48, fd54, fd21, fd44, delta);
      SignificandPart(m, rho, fd14, fd16, fd18, fd21, fd42);
    }
  }

  /** Lines 132 to 146 of cuda_math.cpp. */
  method EvaluatePolynomial(fd22: real) returns (fd37: real)
    ensures fd37 == Polynomial(fd22)
  {
    var fd23 := 0.000004036488625710656;
    var fd24 := HornerStart(fd22, 0.0000010263276909458365, Coefficient, 7);
    var fd25 := HornerStep(fd22, fd24, fd23, Coefficient, 6, 8);
    var fd26 := 0.000018784407018835667;
    var fd27 := HornerStep(fd22, fd25, fd26, Coefficient, 5, 8);
    var fd28 := 0.00008877807196497797;
    var fd29 := HornerStep(fd22, fd27, fd28, Coefficient, 4, 8);
    var fd30 := 0.00043402779293201976;
    var fd31 := HornerStep(fd22, fd29, fd30, Coefficient, 3, 8);
    var fd32 := 0.0022321428567665586;
    var fd33 := HornerStep(fd22, fd31, fd32, Coefficient, 2, 8);
    var fd34 := 0.012500000000004514;
    var fd35 := HornerStep(fd22, fd33, fd34, Coefficient, 1, 8);
    var fd36 := 0.08333333333333331;
    fd37 := HornerStep(fd22, fd35, fd36, Coefficient, 0, 8);
    HornerValue(Coefficient, fd22, 0, 8, fd37);
  }

  lemma ConversionOfExponent(k: int)
    requires -1074 <= k <= 1024
    ensures Value64(Double(1127219200, XorSignBit(Wrap(k)))) - Value64(Double(1127219200, 0x8000_0000)) == k as real
  {
    CudaLogReduction.MagicConversion(Wrap(k));
    QuotientRemainder(k, 0x1_0000_0000, if k < 0 then -1 else 0, if k < 0 then k + 0x1_0000_0000 else k);
  }

  /** The refined quotient: its head is within 3.5e-16 of 2(m-1)/(m+1), head plus correction within 1e-19. */
  lemma RefinedQuotient(m: real, rho: real, fd14: real, fd16: real, fd18: real, fd21: real, fd42: real)
    requires 0.7071067 <= m <= 1.4142142 && Within(rho, 0.00001)
    requires fd14 == (1.0 - rho) / (m + 1.0) && fd16 == MulAdd(-(m + 1.0), fd14, 1.0)
    requires fd18 == MulAdd(MulAdd(fd16, fd16, fd16), fd14, fd14)
    requires fd21 == MulAdd(m + -1.0, fd18, MulAdd(m + -1.0, fd18, 0.0))
    requires fd42 == MulAdd(fd18, MulAdd(-fd21, m + -1.0, (m + -1.0 - fd21) + (m + -1.0 - fd21)), 0.0)
    ensures Within(fd21 - Quotient(m), 0.00000000000000035)
    ensures Within(fd21 + fd42 - Quotient(m), 0.0000000000000000001)
  {
    ResidualOf(m + 1.0, rho, fd14);
    var c := RefinedReciprocal(m + 1.0, fd14, fd16, fd18);
    HeadAndCorrection(m, c, fd18, fd21, fd42);
  }

  lemma RefinedReciprocal(d: real, y0: real, e: real, y: real) returns (c: real)
    requires e == MulAdd(-d, y0, 1.0) && y == MulAdd(MulAdd(e, e, e), y0, y0) && Within(e, 0.00001)
    ensures Within(c, 0.000000000000001) && Within(c * c, 0.000000000000000000000000000001) && d * y == 1.0 - c
  {
    c := e * (e * e);
    ResidualPowers(e);
    ReciprocalResidual(d, y0, e, y);
  }

  lemma HeadAndCorrection(m: real, c: real, y: real, head: real, correction: real)
    requires 0.7071067 <= m <= 1.4142142 && (m + 1.0) * y == 1.0 - c
    requires Within(c, 0.000000000000001) && Within(c * c, 0.000000000000000000000000000001)
    requires head == MulAdd(m + -1.0, y, MulAdd(m + -1.0, y, 0.0))
    requires correction == MulAdd(y, MulAdd(-head, m + -1.0, (m + -1.0 - head) + (m + -1.0 - head)), 0.0)
    ensures Within(head - Quotient(m), 0.00000000000000035)
    ensures Within(head + correction - Quotient(m), 0.0000000000000000001)
  {
    HeadPlusCorrection(m + -1.0, m + 1.0, y, c, head, correction);
    QuotientRange(m);
    QuotientError(m + -1.0, m + 1.0, Quotient(m), c, c * c, head, correction);
  }

  lemma ResidualOf(d: real, rho: real, y0: real)
    requires d > 0.0 && y0 == (1.0 - rho) / d
    ensures MulAdd(-d, y0, 1.0) == rho
  {
    assert d * y0 == 1.0 - rho;
  }

  /** What does not depend on k. */
  lemma SignificandPart(m: real, rho: real, fd14: real, fd16: real, fd18: real, fd21: real, fd42: real)
    requires 0.7071067 <= m <= 1.4142142 && Within(rho, 0.00001)
    requires fd14 == (1.0 - rho) / (m + 1.0) && fd16 == MulAdd(-(m + 1.0), fd14, 1.0)
    requires fd18 == MulAdd(MulAdd(fd16, fd16, fd16), fd14, fd14)
    requires fd21 == MulAdd(m + -1.0, fd18, MulAdd(m + -1.0, fd18, 0.0))
    requires fd42 == MulAdd(fd18, MulAdd(-fd21, m + -1.0, (m + -1.0 - fd21) + (m + -1.0 - fd21)), 0.0)
    ensures ApproximatesLn(fd21 + MulAdd(Inner(Square(fd21)), fd21, fd42), m, 0.000000000000015)
  {
    RefinedQuotient(m, rho, fd14, fd16, fd18, fd21, fd42);
    QuotientRange(m);
    HeadApproximatesLn(m, Quotient(m), fd21, fd42);
  }

  lemma HeadApproximatesLn(m: real, u: real, fd21: real, fd42: real)
    requires m > 0.0 && u == Quotient(m) && Within(u, 0.3431462)
    requires Within(fd21 - u, 0.00000000000000035) && Within(fd21 + fd42 - u, 0.0000000000000000001)
    ensures ApproximatesLn(fd21 + MulAdd(Inner(Square(fd21)), fd21, fd42), m, 0.000000000000015)
  {
    var w, z := Square(fd21), Square(u);
    SquaresClose(u, fd21);
    PolynomialsClose(w, z);
    InnersClose(w, z, Polynomial(w), Polynomial(z));
    SumsClose(fd21, u, Inner(w), Inner(z), fd42);
    forall order: nat | order >= 8
      ensures Within(fd21 + MulAdd(Inner(w), fd21, fd42) - LogSeries(u, order), 0.000000000000015)
    {
      PolynomialApproximatesSeries(u, order);
    }
  }
}
