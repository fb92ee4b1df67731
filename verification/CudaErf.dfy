/**
 cuda_math::erf up to its sign copy: fd86 as a function of fd2 = |x|. It is 1 - 2^n * (1 + g), where n and g
 come from a split of the exponent p = fd2 + fd2*P(fd2) as for an exponential.
 */
module CudaErf {
  import opened Ieee754
  import opened Series
  import opened ErfPolynomial
  import opened ExpSeries

  // ---- The polynomials ----

  /** The factor of r^2, lines 280 to 288. */
  function ExpCoefficient(n: nat): real {
    match n
    case 0 => 0.5000000000000006 case 1 => 0.16666666666666607
    case 2 => 0.041666666666573884 case 3 => 0.008333333333377164
    case 4 => 0.0013888888932264757 case 5 => 0.00019841269746984988
    case 6 => 0.000024801504596442702 case 7 => 0.0000027557381798574225
    case 8 => 0.0000002762626470761021
    case _ => 0.00000002506210197447926
  }

  // ---- The factor of r^2 against the series of exp ----

  lemma ExpTailWithin(r: real, n: nat)
    requires Within(r, 0.35)
    ensures Within(Horner(InvFactorial, r, 12, n), 0.000000003231)
  {
    forall j: nat | j >= 12
      ensures Within(InvFactorial(j), 0.0000000021)
    {
      InvFactorialsFall(j);
    }
    HornerWithin(InvFactorial, r, 12, n, 0.0000000021, 0.35, 0.000000003231);
  }

  /** Bounds of the distance between a coefficient and that of exp two places on. */
  function CoefficientGap(i: nat): real
    requires i < 10
  {
    match i
    case 0 => 0.0000000000000006000 case 1 => 0.0000000000000005967
    case 2 => 0.00000000000009279 case 3 => 0.00000000000004384
    case 4 => 0.000000000004338 case 5 => 0.0000000000009429
    case 6 => 0.00000000008271 case 7 => 0.000000000006258
    case 8 => 0.0000000006895 case 9 => 0.000000000009994
  }

  /** Bounds of the distance between the two Horner schemes from index i on. */
  function SchemeGap(i: nat): real
    requires i <= 10
  {
    match i
    case 0 => 0.00000000000048546 case 1 => 0.0000000000013853 case 2 => 0.0000000000039561
    case 3 => 0.000000000011038 case 4 => 0.000000000031410 case 5 => 0.000000000077348
    case 6 => 0.00000000021830 case 7 => 0.00000000038738 case 8 => 0.0000000010889
    case 9 => 0.0000000011409 case 10 => 0.000000003231
  }

  /** f is close to the coefficients, two places on. */
  predicate Gap(f: nat -> real, i: nat)
    requires i < 10
  {
    Within(ExpCoefficient(i) - f(i + 2), CoefficientGap(i))
  }

  lemma InvFactorialGaps(i: nat)
    requires i < 10
    ensures Gap(InvFactorial, i)
  {
    InvFactorials();
  }

  lemma AllGaps()
    ensures forall j: nat :: j < 10 ==> Gap(InvFactorial, j)
    ensures InvFactorial(0) == 1.0 && InvFactorial(1) == 1.0
  {
    forall j: nat | j < 10 ensures Gap(InvFactorial, j) {
      InvFactorialGaps(j);
    }
    InvFactorialNext(1);
  }

  lemma SchemeGapTable(i: nat)
    requires i < 10
    ensures CoefficientGap(i) + 0.35 * SchemeGap(i + 1) <= SchemeGap(i)
  {
  }

  /** f will be InvFactorial. */
  lemma {:induction false} SchemesClose(f: nat -> real, r: real, i: nat, n: nat)
    requires Within(r, 0.35) && i <= 10 && n >= 13
    requires Within(Horner(f, r, 12, n), SchemeGap(10))
    requires forall j: nat :: j < 10 ==> Gap(f, j)
    ensures Within(Horner(ExpCoefficient, r, i, 10) - Horner(f, r, i + 2, n), SchemeGap(i))
    decreases 10 - i
  {
    if i < 10 {
      SchemesClose(f, r, i + 1, n);
      SchemeGapTable(i);
      assert Gap(f, i);
      HornerAt(ExpCoefficient, r, i, 10);
      HornerAt(f, r, i + 2, n);
      SchemesStep(r, ExpCoefficient(i), f(i + 2), Horner(ExpCoefficient, r, i + 1, 10), Horner(f, r, i + 3, n),
        CoefficientGap(i), 0.35, SchemeGap(i + 1), SchemeGap(i));
    }
  }

  /** r + r^2 * Q(r) */
  function Expm1(r: real): real { r + MulAdd(r, MulAdd(r, Horner(ExpCoefficient, r, 0, 10), 0.0), 0.0) }

  /** On |r| <= 0.35 it is within 6e-14 of every partial sum of exp(r) - 1 of order 12 or more. */
  lemma Expm1Approximates(r: real, order: nat)
    requires Within(r, 0.35) && order >= 12
    ensures Within(Expm1(r) - (ExpSum(r, order) - 1.0), 0.00000000000006)
  {
    ExpTailWithin(r, order + 1);
    AllGaps();
    SumsClose(InvFactorial, r, order + 1);
  }

  lemma SumsClose(f: nat -> real, r: real, n: nat)
    requires Within(r, 0.35) && n >= 13 && f(0) == 1.0 && f(1) == 1.0
    requires Within(Horner(f, r, 12, n), SchemeGap(10))
    requires forall j: nat :: j < 10 ==> Gap(f, j)
    ensures Within(Expm1(r) - (Sum(f, r, n) - 1.0), 0.00000000000006)
  {
    SumIsHorner(f, r, n);
    HornerAt(f, r, 0, n);
    HornerAt(f, r, 1, n);
    SchemesClose(f, r, 0, n);
    SquareClose(r, Horner(ExpCoefficient, r, 0, 10), Horner(f, r, 2, n), 0.00000000000048546);
    OneMore(r, Horner(f, r, 1, n));
  }

  lemma OneMore(r: real, h: real)
    ensures MulAdd(r, h, 1.0) - 1.0 == MulAdd(r, h, 0.0)
  {
  }

  lemma SquareClose(r: real, a: real, h: real, b: real)
    requires Within(r, 0.35) && Within(a - h, b)
    ensures Within(r + MulAdd(r, MulAdd(r, a, 0.0), 0.0) - MulAdd(r, MulAdd(r, h, 1.0), 0.0), 0.1225 * b)
  {
    ProductWithin(r, a - h, 0.35, b);
    ProductWithin(r, r * (a - h), 0.35, 0.35 * b);
    SquareFactor(r, a, h);
  }

  lemma SquareFactor(r: real, a: real, h: real)
    ensures r * (r * (a - h)) == r + MulAdd(r, MulAdd(r, a, 0.0), 0.0) - MulAdd(r, MulAdd(r, h, 1.0), 0.0)
  {
    assert r * (a - h) == r * a - r * h;
    assert r * (r * a - r * h) == r * (r * a) - r * (r * h);
    assert r * (r * h + 1.0) == r * (r * h) + r;
  }

  // ---- The exponent and its split ----

  /** fd2 + fd2*P(fd2) */
  function Exponent(fd2: real): real { MulAdd(Horner(ErfCoefficient, fd2, 0, 24), fd2, fd2) }

  lemma ExponentBetween(fd2: real)
    requires 0.0 <= fd2 <= 6.0
    ensures fd2 <= Exponent(fd2) <= 38.22
  {
    ErfPolynomialBetween(fd2);
    NonNegativeProduct(Horner(ErfCoefficient, fd2, 0, 24), fd2, 5.37, 6.0);
  }

  /** round(): the nearest integer, halves away from zero. */
  function Round(x: real): (n: int)
    ensures Within(n as real - x, 0.5)
  {
    if x >= 0.0 then (x + 0.5).Floor else -(-x + 0.5).Floor
  }

  /** A rounding to float: within 1e-7 relatively and 1e-6 absolutely, both wide of binary32. */
  ghost predicate FloatRounding(float: real -> real) {
    forall v: real {:trigger float(v)} :: Within(float(v) - v, FloatError(v))
  }

  function FloatError(v: real): real { (if v < 0.0 then -v else v) * 0.0000001 + 0.000001 }

  /** f2 */
  function FloatProduct(fd50: real, float: real -> real): real { float(float(fd50) * -1.44269502) }

  lemma FloatProductClose(fd50: real, float: real -> real)
    requires FloatRounding(float) && -0.001 <= fd50 <= 38.23
    ensures Within(FloatProduct(fd50, float) - fd50 * -1.44269502, 0.0001)
  {
    var f1 := float(fd50);
    assert Within(f1 - fd50, FloatError(fd50));
    assert Within(float(f1 * -1.44269502) - f1 * -1.44269502, FloatError(f1 * -1.44269502));
  }

  /** f3, the n of 2^n */
  function Exponent2(fd50: real, float: real -> real): int { Round(FloatProduct(fd50, float)) }

  /** fd58 */
  function Remainder(fd50: real, n: int): real { MulAdd(-(n as real), 0.6931471805599453, -fd50) }

  /** What rounding to n leaves of the exponent is small, whatever the two float roundings do. */
  lemma RemainderWithin(fd50: real, float: real -> real)
    requires FloatRounding(float) && -0.001 <= fd50 <= 38.23
    ensures Within(Remainder(fd50, Exponent2(fd50, float)), 0.35)
    ensures fd50 >= 0.0 ==> Exponent2(fd50, float) <= 0
  {
    FloatProductClose(fd50, float);
    RemainderOf(fd50, FloatProduct(fd50, float), Exponent2(fd50, float));
  }

  lemma RemainderOf(fd50: real, f2: real, n: int)
    requires -0.001 <= fd50 <= 38.23 && Within(f2 - fd50 * -1.44269502, 0.0001) && Within(n as real - f2, 0.5)
    ensures Within(Remainder(fd50, n), 0.35)
    ensures fd50 >= 0.0 ==> n <= 0
  {
  }

  // ---- fd86 ----

  const CUT := 5.9215871957945065

  /** 1 - 2^n * (1 + g), or 1 from the cut-off on. */
  function ErfMagnitude(fd2: real, delta: real, float: real -> real): real {
    var fd50 := Exponent(fd2) + delta;
    var n := Exponent2(fd50, float);
    var g := Expm1(Remainder(fd50, n)) + delta;
    if fd2 >= CUT then 1.0 else 1.0 - MulAdd(1.0 + g, Pow2(n), 0.0)
  }

  /** fd86 is that magnitude. Only where Unfold is mentioned does the definition come into play. */
  ghost predicate IsMagnitude(fd2: real, delta: real, float: real -> real, fd86: real) {
    forall i: nat {:trigger Unfold(i)} :: i == 0 ==> fd86 == ErfMagnitude(fd2, delta, float)
  }

  /** The code computes it; delta is the error committed when fd50 is formed. */
  method Magnitude(fd2: real, delta: real, float: real -> real, exp2: real -> real) returns (fd86: real)
    requires forall k: int :: exp2(k as real) == Pow2(k)
    ensures IsMagnitude(fd2, delta, float, fd86)
    ensures fd2 >= 5.9215871957945065 ==> fd86 == 1.0
  {
    var f3, fd58, fd54 := SplitExponent(fd2, delta, float);
    var fd81 := exp2(f3 as real);
    var fd85 := Combine(fd58, fd54, fd81);
    fd86 := if fd2 >= CUT then 1.0 else fd85;
    assert fd86 == ErfMagnitude(fd2, delta, float);
  }

  /** Lines 246 to 279 of cuda_math.cpp. */
  method SplitExponent(fd2: real, delta: real, float: real -> real) returns (f3: int, fd58: real, fd54: real)
    ensures var fd50 := Exponent(fd2) + delta; f3 == Exponent2(fd50, float) && fd58 == Remainder(fd50, f3)
    ensures fd54 == delta
  {
    var fd49 := EvaluateErf(fd2);
    var fd50 := MulAdd(fd49, fd2, fd2) + delta;
    var fd51 := fd2 - fd50;
    var fd52 := MulAdd(fd49, fd2, fd51);
    Compensated(fd49, fd2, delta, fd50, fd51);
    var fd53 := -fd50;
    fd54 := -fd52;
    var f1 := float(fd50);
    var f2 := float(f1 * -1.44269502);
    f3 := Round(f2);
    var fd55 := f3 as real;
    var fd56 := -fd55;
    fd58 := MulAdd(fd56, 0.6931471805599453, fd53);
  }

  /** Lines 280 to 291 and 295 to 297 of cuda_math.cpp. */
  method Combine(fd58: real, fd54: real, fd81: real) returns (fd85: real)
    ensures fd85 == 1.0 - MulAdd(1.0 + (Expm1(fd58) + fd54), fd81, 0.0)
  {
    var fd77 := EvaluateExp(fd58);
    var fd78 := MulAdd(fd58, fd77, 0.0);
    var fd79 := MulAdd(fd78, fd58, fd54);
    var fd80 := fd58 + fd79;
    Expm1Plus(fd58, fd54);
    var fd83 := 1.0 - fd81;
    var fd84 := -fd80;
    fd85 := MulAdd(fd84, fd81, fd83);
    Complement(fd80, fd81);
  }

  /** fd52 is minus the error committed in fd50. */
  lemma Compensated(fd49: real, fd2: real, delta: real, fd50: real, fd51: real)
    requires fd50 == MulAdd(fd49, fd2, fd2) + delta && fd51 == fd2 - fd50
    ensures MulAdd(fd49, fd2, fd51) == -delta
  {
  }

  lemma Expm1Plus(r: real, delta: real)
    ensures var q := Horner(ExpCoefficient, r, 0, 10);
            r + MulAdd(MulAdd(r, q, 0.0), r, delta) == Expm1(r) + delta
  {
  }

  lemma Complement(g: real, p: real)
    ensures MulAdd(-g, p, 1.0 - p) == 1.0 - MulAdd(1.0 + g, p, 0.0)
  {
  }

  /** g is within 6e-14 of exp(r) - 1 + delta. */
  ghost predicate ApproximatesExpm1(g: real, r: real, delta: real) {
    forall order: nat :: order >= 12 ==> Within(g - (ExpSum(r, order) - 1.0 + delta), 0.00000000000006)
  }

  lemma GApproximates(r: real, delta: real)
    requires Within(r, 0.35)
    ensures ApproximatesExpm1(Expm1(r) + delta, r, delta)
  {
    forall order: nat | order >= 12
      ensures Within(Expm1(r) + delta - (ExpSum(r, order) - 1.0 + delta), 0.00000000000006)
    {
      Expm1Approximates(r, order);
    }
  }

  ghost predicate IsSplit(fd2: real, delta: real, magnitude: real, n: int, r: real, g: real) {
    && magnitude == 1.0 - MulAdd(1.0 + g, Pow2(n), 0.0)
    && (r + delta) + n as real * 0.6931471805599453 == -Exponent(fd2)
    && Within(r, 0.35)
    && ApproximatesExpm1(g, r, delta)
  }

  /**
   Below the cut-off the magnitude is 1 - 2^n * (1 + g). r + delta is the exact remainder of the exponent,
   whatever delta is, and g is close to exp(r) - 1 + delta: to first order delta cancels.
   */
  lemma {:induction false} MagnitudeApproximates(fd2: real, delta: real, float: real -> real, fd86: real)
    requires IsMagnitude(fd2, delta, float, fd86)
    requires 0.0 <= fd2 < CUT && Within(delta, 0.001) && FloatRounding(float)
    ensures exists n: int, r: real, g: real :: IsSplit(fd2, delta, fd86, n, r, g)
  {
    assert Unfold(0);
    ExponentBetween(fd2);
    var fd50 := Exponent(fd2) + delta;
    RemainderWithin(fd50, float);
    var n := Exponent2(fd50, float);
    var r := Remainder(fd50, n);
    GApproximates(r, delta);
    assert IsSplit(fd2, delta, fd86, n, r, Expm1(r) + delta);
  }

  // ---- The magnitude is between 0 and 1 ----

  lemma {:induction false} Pow2Below(n: int)
    requires n <= 0
    ensures 0.0 < Pow2(n) <= 1.0 && (n < 0 ==> Pow2(n) <= 0.5)
    decreases -n
  {
    if n < 0 {
      Pow2Below(n + 1);
    }
  }

  /** |Expm1(r) - r| <= 0.27 * |r| */
  lemma Expm1Near(r: real)
    requires Within(r, 0.35)
    ensures Within(Expm1(r) - r, 0.27 * Size(r))
  {
    ExpCoefficientsWithin();
    HornerWithin(ExpCoefficient, r, 0, 10, 0.500001, 0.35, 0.77);
    SquareNear(r, Horner(ExpCoefficient, r, 0, 10));
  }

  lemma ExpCoefficientsWithin()
    ensures forall j: nat :: Within(ExpCoefficient(j), 0.500001)
  {
  }

  lemma SquareNear(r: real, q: real)
    requires Within(r, 0.35) && Within(q, 0.77)
    ensures Within(MulAdd(r, MulAdd(r, q, 0.0), 0.0), 0.27 * Size(r))
  {
    ProductWithin(r, q, 0.35, 0.77);
    ProductWithin(r, r * q, Size(r), 0.2695);
  }

  lemma ComplementBetween(g: real, p: real)
    requires -1.0 <= g && 0.0 < p <= 1.0 && (g <= 0.0 || (g <= 0.5 && p <= 0.5))
    ensures 0.0 <= 1.0 - MulAdd(1.0 + g, p, 0.0) <= 1.0
  {
    if g <= 0.0 {
      NonNegativeProduct(1.0 + g, p, 1.0, 1.0);
    } else {
      NonNegativeProduct(1.0 + g, p, 1.5, 0.5);
    }
  }

  function Size(r: real): real { if r < 0.0 then -r else r }

  lemma GAtZero(e: real, delta: real, m: real, r: real)
    requires 0.0 <= e && Within(delta, e / 10.0)
    requires r == -(e + delta) && Within(m - r, 0.27 * Size(r))
    ensures m + delta <= 0.0
  {
  }

  lemma GInRange(delta: real, m: real, r: real)
    requires Within(delta, 0.001) && Within(r, 0.35) && Within(m - r, 0.27 * Size(r))
    ensures -1.0 <= m + delta <= 0.5
  {
  }

  lemma GAndP(e: real, delta: real, n: int, r: real, m: real, p: real)
    requires 0.0 <= e && Within(delta, 0.001) && Within(delta, e / 10.0) && n <= 0
    requires n == 0 ==> r == -(e + delta)
    requires Within(r, 0.35) && Within(m - r, 0.27 * Size(r)) && (n < 0 ==> p <= 0.5)
    ensures -1.0 <= m + delta && (m + delta <= 0.0 || (m + delta <= 0.5 && p <= 0.5))
  {
    GInRange(delta, m, r);
    if n == 0 {
      GAtZero(e, delta, m, r);
    }
  }

  lemma RemainderAtZero(fd50: real)
    ensures Remainder(fd50, 0) == -fd50
  {
  }

  lemma Factors(e: real, delta: real, n: int, r: real)
    requires 0.0 <= e && Within(delta, 0.001) && Within(delta, e / 10.0) && n <= 0
    requires n == 0 ==> r == -(e + delta)
    requires Within(r, 0.35)
    ensures 0.0 <= 1.0 - MulAdd(1.0 + (Expm1(r) + delta), Pow2(n), 0.0) <= 1.0
  {
    Expm1Near(r);
    Pow2Below(n);
    GAndP(e, delta, n, r, Expm1(r), Pow2(n));
    ComplementBetween(Expm1(r) + delta, Pow2(n));
  }

  /** n = 0 leaves r = -fd50, and g is then not positive; a smaller n leaves a factor of at most 1/2. */
  lemma {:induction false} MagnitudeBetween(fd2: real, delta: real, float: real -> real, fd86: real)
    requires IsMagnitude(fd2, delta, float, fd86)
    requires fd2 >= 0.0 && FloatRounding(float)
    requires fd2 < CUT ==> Within(delta, 0.001) && Within(delta, Exponent(fd2) / 10.0)
    ensures 0.0 <= fd86 <= 1.0
  {
    assert Unfold(0);
    if fd2 < CUT {
      ExponentBetween(fd2);
      var fd50 := Exponent(fd2) + delta;
      var n := Exponent2(fd50, float);
      RemainderWithin(fd50, float);
      RemainderAtZero(fd50);
      Factors(Exponent(fd2), delta, n, Remainder(fd50, n));
    }
  }

  // ---- Around the cut-off, and at 1 ----

  lemma MagnitudeFromCut(fd2: real, delta: real, float: real -> real, fd86: real)
    requires IsMagnitude(fd2, delta, float, fd86) && fd2 >= 5.9215871957945065
    ensures fd86 == 1.0
  {
    assert Unfold(0);
  }

  lemma {:induction false} Pow2Monotone(n: int, k: int)
    requires n <= k
    ensures 0.0 < Pow2(n) <= Pow2(k)
    decreases k - n
  {
    if n < k {
      Pow2Monotone(n + 1, k);
      ScaledNext(1.0, n);
    } else {
      Pow2Positive(n);
    }
  }

  lemma {:induction false} Pow2Positive(n: int)
    ensures Pow2(n) > 0.0
    decreases if n < 0 then -n else n
  {
    if n > 0 {
      Pow2Positive(n - 1);
    } else if n < 0 {
      Pow2Positive(n + 1);
    }
  }

  lemma AboveProduct(p: real, x: real)
    requires -0.39 + 23.0 / 24.0 * x <= p && 5.9 <= x <= 6.0
    ensures MulAdd(p, x, x) >= 36.95
  {
    NonNegativeProduct(p - 5.264, x, p - 5.264, 6.0);
    assert (p - 5.264) * x == p * x - 5.264 * x;
  }

  lemma ExponentNearCut(fd2: real)
    requires 5.9 <= fd2 <= 6.0
    ensures 36.95 <= Exponent(fd2) <= 38.22
  {
    ExponentBetween(fd2);
    ErfPolynomialBetweenLines(fd2);
    AboveProduct(Horner(ErfCoefficient, fd2, 0, 24), fd2);
  }

  lemma FarRemainder(fd50: real, f2: real, n: int)
    requires 36.949 <= fd50 && Within(f2 - fd50 * -1.44269502, 0.0001) && Within(n as real - f2, 0.5)
    ensures n <= -53
  {
  }

  lemma NearOne(r: real, delta: real, n: int)
    requires Within(r, 0.35) && Within(delta, 0.001) && n <= -53
    ensures 1.0 - Pow2(-52) <= 1.0 - MulAdd(1.0 + (Expm1(r) + delta), Pow2(n), 0.0) <= 1.0
  {
    Expm1Near(r);
    Pow2Monotone(n, -53);
    ScaledNext(1.0, -53);
    SmallProduct(Expm1(r) + delta, Pow2(n), Pow2(-53));
  }

  lemma SmallProduct(g: real, p: real, b: real)
    requires -1.0 <= g <= 1.0 && 0.0 < p <= b
    ensures 0.0 <= MulAdd(1.0 + g, p, 0.0) <= 2.0 * b
  {
    NonNegativeProduct(1.0 + g, p, 2.0, b);
  }

  lemma FarSplit(fd50: real, delta: real, float: real -> real)
    requires 36.949 <= fd50 <= 38.23 && FloatRounding(float) && Within(delta, 0.001)
    ensures var n := Exponent2(fd50, float);
            1.0 - Pow2(-52) <= 1.0 - MulAdd(1.0 + (Expm1(Remainder(fd50, n)) + delta), Pow2(n), 0.0) <= 1.0
  {
    var n := Exponent2(fd50, float);
    RemainderWithin(fd50, float);
    FloatProductClose(fd50, float);
    FarRemainder(fd50, FloatProduct(fd50, float), n);
    NearOne(Remainder(fd50, n), delta, n);
  }

  /** Just below the cut-off the magnitude has come within 2^-52 of the 1 that follows. */
  lemma {:induction false} MagnitudeMeetsOne(fd2: real, delta: real, float: real -> real, fd86: real)
    requires IsMagnitude(fd2, delta, float, fd86) && FloatRounding(float) && Within(delta, 0.001)
    requires 5.9 <= fd2 < 5.9215871957945065
    ensures 1.0 - Pow2(-52) <= fd86 <= 1.0
  {
    assert Unfold(0);
    ExponentNearCut(fd2);
    FarSplit(Exponent(fd2) + delta, delta, float);
  }

  lemma From16AtOne()
    ensures Horner(ErfCoefficient, 1.0, 16, 24) == 0.000000026228110450875428883779
  {
  }

  lemma From8AtOne()
    ensures Horner(ErfCoefficient, 1.0, 8, 24) == 0.000039630680782327698963883779
  {
    From16AtOne();
  }

  lemma ExponentAtOne()
    ensures Exponent(1.0) == 1.849605509933248229628963883779
  {
    From8AtOne();
  }

  lemma SplitAtOne(fd50: real, f2: real, n: int)
    requires fd50 == 1.849605509933248229628963883779
    requires Within(f2 - fd50 * -1.44269502, 0.0001) && Within(n as real - f2, 0.5)
    ensures n == -3 && Remainder(fd50, n) == 0.229836031746587670371036116221
  {
  }

  lemma Expm1AtOne()
    ensures Within(Expm1(0.229836031746587670371036116221) - 0.258393656402281, 0.00000000000001)
  {
  }

  lemma EighthAtOne(g: real)
    requires Within(g - 0.258393656402281, 0.00000000000001)
    ensures Within(1.0 - MulAdd(1.0 + g, Pow2(-3), 0.0) - 0.842700792949715, 0.0000000000001)
  {
    assert Pow2(-3) == 0.125;
  }

  /** At 1, with fd50 exact, the magnitude is erf(1) = 0.842700792949714869... */
  lemma {:induction false} MagnitudeAtOne(float: real -> real, fd86: real)
    requires IsMagnitude(1.0, 0.0, float, fd86) && FloatRounding(float)
    ensures Within(fd86 - 0.842700792949715, 0.0000000000001)
  {
    assert Unfold(0);
    ExponentAtOne();
    var fd50 := Exponent(1.0) + 0.0;
    FloatProductClose(fd50, float);
    SplitAtOne(fd50, FloatProduct(fd50, float), Exponent2(fd50, float));
    Expm1AtOne();
    EighthAtOne(Expm1(0.229836031746587670371036116221));
  }

  /** Lines 246 to 249 of cuda_math.cpp. */
  method EvaluateErfInnermost(fd2: real) returns (fd11: real)
    ensures IsHorner(ErfCoefficient, fd2, 19, 24, fd11)
  {
    fd11 := HornerStart(fd2, -0.000000000000003642577040697121, ErfCoefficient, 23);
    fd11 := HornerStep(fd2, fd11, 0.0000000000001636624707883456, ErfCoefficient, 22, 24);
    fd11 := HornerStep(fd2, fd11, -0.0000000000034079297100747907, ErfCoefficient, 21, 24);
    fd11 := HornerStep(fd2, fd11, 0.000000000043555974045566826, ErfCoefficient, 20, 24);
    fd11 := HornerStep(fd2, fd11, -0.0000000003806599039253438, ErfCoefficient, 19, 24);
  }

  /** Lines 246 to 252. */
  method EvaluateErfInner(fd2: real) returns (fd17: real)
    ensures IsHorner(ErfCoefficient, fd2, 16, 24, fd17)
  {
    fd17 := EvaluateErfInnermost(fd2);
    fd17 := HornerStep(fd2, fd17, 0.000000002389211325400646, ErfCoefficient, 18, 24);
    fd17 := HornerStep(fd2, fd17, -0.000000010909760903049583, ErfCoefficient, 17, 24);
    fd17 := HornerStep(fd2, fd17, 0.00000003508901186822047, ErfCoefficient, 16, 24);
  }

  /** Lines 246 to 260. */
  method EvaluateErfMiddle(fd2: real) returns (fd33: real)
    ensures IsHorner(ErfCoefficient, fd2, 8, 24, fd33)
  {
    fd33 := EvaluateErfInner(fd2);
    fd33 := HornerStep(fd2, fd33, -0.0000000672032708005184, ErfCoefficient, 15, 24);
    fd33 := HornerStep(fd2, fd33, -0.000000008299332548682465, ErfCoefficient, 14, 24);
    fd33 := HornerStep(fd2, fd33, 0.0000005643145203798444, ErfCoefficient, 13, 24);
    fd33 := HornerStep(fd2, fd33, -0.0000020278249778025215, ErfCoefficient, 12, 24);
    fd33 := HornerStep(fd2, fd33, 0.0000031218939658311085, ErfCoefficient, 11, 24);
    fd33 := HornerStep(fd2, fd33, 0.000003180046170354655, ErfCoefficient, 10, 24);
    fd33 := HornerStep(fd2, fd33, -0.000029583306728241582, ErfCoefficient, 9, 24);
    fd33 := HornerStep(fd2, fd33, 0.00006442483232470452, ErfCoefficient, 8, 24);
  }

  /** Lines 246 to 268. */
  method EvaluateErf(fd2: real) returns (fd49: real)
    ensures fd49 == Horner(ErfCoefficient, fd2, 0, 24)
  {
    fd49 := EvaluateErfMiddle(fd2);
    fd49 := HornerStep(fd2, fd49, 0.00002590260570264615, ErfCoefficient, 7, 24);
    fd49 := HornerStep(fd2, fd49, -0.0005901318195328236, ErfCoefficient, 6, 24);
    fd49 := HornerStep(fd2, fd49, 0.001696207528729842, ErfCoefficient, 5, 24);
    fd49 := HornerStep(fd2, fd49, -0.00020919483164788562, ErfCoefficient, 4, 24);
    fd49 := HornerStep(fd2, fd49, -0.019128446995328407, ErfCoefficient, 3, 24);
    fd49 := HornerStep(fd2, fd49, 0.10277260330144233, ErfCoefficient, 2, 24);
    fd49 := HornerStep(fd2, fd49, 0.6366197723675876, ErfCoefficient, 1, 24);
    fd49 := HornerStep(fd2, fd49, 0.1283791670955126, ErfCoefficient, 0, 24);
    HornerValue(ErfCoefficient, fd2, 0, 24, fd49);
  }

  /** Lines 280 to 283. */
  method EvaluateExpInner(fd58: real) returns (fd67: real)
    ensures IsHorner(ExpCoefficient, fd58, 5, 10, fd67)
  {
    fd67 := HornerStart(fd58, 0.00000002506210197447926, ExpCoefficient, 9);
    fd67 := HornerStep(fd58, fd67, 0.0000002762626470761021, ExpCoefficient, 8, 10);
    fd67 := HornerStep(fd58, fd67, 0.0000027557381798574225, ExpCoefficient, 7, 10);
    fd67 := HornerStep(fd58, fd67, 0.000024801504596442702, ExpCoefficient, 6, 10);
    fd67 := HornerStep(fd58, fd67, 0.00019841269746984988, ExpCoefficient, 5, 10);
  }

  /** Lines 280 to 288. */
  method EvaluateExp(fd58: real) returns (fd77: real)
    ensures fd77 == Horner(ExpCoefficient, fd58, 0, 10)
  {
    fd77 := EvaluateExpInner(fd58);
    fd77 := HornerStep(fd58, fd77, 0.0013888888932264757, ExpCoefficient, 4, 10);
    fd77 := HornerStep(fd58, fd77, 0.008333333333377164, ExpCoefficient, 3, 10);
    fd77 := HornerStep(fd58, fd77, 0.041666666666573884, ExpCoefficient, 2, 10);
    fd77 := HornerStep(fd58, fd77, 0.16666666666666607, ExpCoefficient, 1, 10);
    fd77 := HornerStep(fd58, fd77, 0.5000000000000006, ExpCoefficient, 0, 10);
    HornerValue(ExpCoefficient, fd58, 0, 10, fd77);
  }
}
