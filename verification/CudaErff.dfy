/** erff on both sides of its threshold, and erf at 1, against the power series of erf. */
module CudaErff {
  import opened Ieee754
  import opened WordBits
  import opened Series
  import opened Polynomials
  import opened ExpSeries
  import Bernstein
  import CudaErf
  import CudaExpf
  import CudaSign

  // ---- The series ----

  /** (-1)^n * 2/sqrt(pi) / (n! * (2n+1)), the coefficients of erf(x)/x in x*x. */
  function ErfTerm(n: nat): real {
    (if n % 2 == 0 then 1.1283791670955126 else -1.1283791670955126) * Over(InvFactorial(n), 2 * n + 1)
  }

  function ErfSeries(x: real, order: nat): real { MulAdd(x, Sum(ErfTerm, MulAdd(x, x, 0.0), order + 1), 0.0) }

  lemma TermWithin(a: real, n: nat, b: real)
    requires n >= 1 && 0.0 <= a <= b
    ensures Within(1.1283791670955126 * Over(a, 2 * n + 1), b) && Within(-1.1283791670955126 * Over(a, 2 * n + 1), b)
  {
    var d := (2 * n + 1) as real;
    var q := a / d;
    assert q * d == a && q >= 0.0;
    assert q * d >= q * 3.0;
  }

  lemma TermFalls(j: nat)
    requires j >= 14
    ensures Within(ErfTerm(j), Tenth(0.000000000011471, j - 14))
  {
    InvFactorialDivides();
    InvFactorialAt14();
    Falls(InvFactorial, j - 14);
    TermWithin(InvFactorial(j), j, Tenth(0.000000000011471, j - 14));
  }

  lemma ErfSeriesTail(w: real, order: nat)
    requires Within(w, 1.5) && order >= 13
    ensures Within(Sum(ErfTerm, w, order + 1) - Horner(ErfTerm, w, 0, 14), 0.0000000041)
  {
    SumIsHorner(ErfTerm, w, order + 1);
    forall j: nat | j >= 14
      ensures Within(ErfTerm(j), Tenth(0.000000000011471, j - 14))
    {
      TermFalls(j);
    }
    TailFrom14(ErfTerm, w, order + 1);
  }

  ghost predicate SmallAt13(f: nat -> real) {
    forall j: nat {:trigger Unfold(j)} :: j == 13 ==> Within(f(j), 0.0000000000068)
  }

  lemma TermAt13()
    ensures SmallAt13(ErfTerm)
  {
    InvFactorials();
    assert Within(ErfTerm(13), 0.0000000000068);
  }

  lemma LastOf14(f: nat -> real, w: real)
    requires Within(w, 1.5) && SmallAt13(f)
    ensures Within(Horner(f, w, 0, 14) - Horner(f, w, 0, 13), 0.0000000014)
  {
    assert Unfold(13);
    HornerLast(f, w, 13);
    MoreTerms(f, w, 0, 13, 14, 0.0000000000068);
    GrownBy14(0.0000000000068);
    GrownNext(0.0000000000068, 13);
  }

  lemma ErfSeriesTail13(w: real, order: nat)
    requires Within(w, 1.5) && order >= 13
    ensures Within(Sum(ErfTerm, w, order + 1) - Horner(ErfTerm, w, 0, 13), 0.0000000055)
  {
    ErfSeriesTail(w, order);
    TermAt13();
    LastOf14(ErfTerm, w);
  }

  // ---- The difference of the coefficients ----

  /** The polynomial of the first branch with the final addition of x in it. */
  function Coefficient(n: nat): real {
    match n
    case 0 => 1.0 + CudaSign.ErffCoefficient(false, 0)
    case 1 => CudaSign.ErffCoefficient(false, 1)
    case 2 => CudaSign.ErffCoefficient(false, 2)
    case 3 => CudaSign.ErffCoefficient(false, 3)
    case 4 => CudaSign.ErffCoefficient(false, 4)
    case 5 => CudaSign.ErffCoefficient(false, 5)
    case 6 => CudaSign.ErffCoefficient(false, 6)
    case _ => 0.0
  }

  function Difference(n: nat): real { Coefficient(n) - ErfTerm(n) }

  /** The differences up to 1e-17. */
  function Table(n: nat): real {
    match n
    case 0 => -0.00000001587042257 case 1 => -0.00000025796370690 case 2 => 0.00000213225924070
    case 3 => -0.00000260297916970 case 4 => -0.00001048880077664 case 5 => 0.00003352353817863
    case 6 => -0.00003571838524467 case 7 => 0.00001492565035841 case 8 => -0.00000164621143659
    case 9 => 0.00000016365844691 case 10 => -0.00000001480719282 case 11 => 0.00000000122905553
    case 12 => -0.00000000009422759
    case _ => 0.0
  }

  predicate Use(n: nat) { true }

  ghost predicate Near(n: nat) {
    forall j: nat {:trigger Use(j)} :: j == n <= 12 ==> Within(Difference(j) - Table(j), 0.00000000000000001)
  }

  lemma TableFrom0()
    ensures Near(0) && Near(1) && Near(2) && Near(3)
  {
    InvFactorials();
    assert Within(Difference(0) - Table(0), 0.00000000000000001);
    assert Within(Difference(1) - Table(1), 0.00000000000000001);
    assert Within(Difference(2) - Table(2), 0.00000000000000001);
    assert Within(Difference(3) - Table(3), 0.00000000000000001);
  }

  lemma TableFrom4()
    ensures Near(4) && Near(5) && Near(6)
  {
    InvFactorials();
    assert Within(Difference(4) - Table(4), 0.00000000000000001);
    assert Within(Difference(5) - Table(5), 0.00000000000000001);
    assert Within(Difference(6) - Table(6), 0.00000000000000001);
  }

  lemma TableFrom7()
    ensures Near(7) && Near(8)
  {
    InvFactorials();
    assert Within(Difference(7) - Table(7), 0.00000000000000001);
    assert Within(Difference(8) - Table(8), 0.00000000000000001);
  }

  lemma TableFrom9()
    ensures Near(9) && Near(10)
  {
    InvFactorials();
    assert Within(Difference(9) - Table(9), 0.00000000000000001);
    assert Within(Difference(10) - Table(10), 0.00000000000000001);
  }

  lemma TableFrom11()
    ensures Near(11) && Near(12)
  {
    InvFactorials();
    assert Within(Difference(11) - Table(11), 0.00000000000000001);
    assert Within(Difference(12) - Table(12), 0.00000000000000001);
  }

  // ---- The Bernstein coefficients of the table on [0, 1.006] ----

  function Term(j: nat, m: nat, v: real): real
    requires m > 0
  {
    1.006 * j as real / m as real * v
  }

  /** Bernstein.Coefficient(f, 1.006, i, 12, j) in a form that is quickly computed. */
  function Beta(f: nat -> real, i: nat, j: nat): real
    requires i + j <= 12
    decreases j
  {
    if j == 0 then f(i) else Term(j, 12 - i, Beta(f, i + 1, j - 1)) + f(i)
  }

  lemma {:induction false} BetaIsCoefficient(f: nat -> real, i: nat, j: nat)
    requires i + j <= 12
    ensures Beta(f, i, j) == Bernstein.Coefficient(f, 1.006, i, 12, j)
    decreases j
  {
    if j > 0 {
      BetaIsCoefficient(f, i + 1, j - 1);
      TermIsWeighted(j, 12 - i, Beta(f, i + 1, j - 1));
    }
  }

  lemma TermIsWeighted(j: nat, m: nat, v: real)
    requires m > 0
    ensures Term(j, m, v) == Bernstein.Weighted(Bernstein.Part(j, m), 1.006, v)
  {
    var p := Bernstein.Part(j, m);
    assert 1.006 * j as real / m as real == 1.006 * p;
  }

  predicate InRange(v: real) { Within(v, 0.000000038) }

  ghost predicate Good(k: nat) {
    forall j: nat {:trigger Use(j)} :: j == k <= 12 ==> InRange(Beta(Table, 0, j))
  }

  lemma CoefficientsFrom0()
    ensures Good(0) && Good(1) && Good(2) && Good(3)
  {
    assert InRange(Beta(Table, 0, 0)) && InRange(Beta(Table, 0, 1)) && InRange(Beta(Table, 0, 2)) && InRange(Beta(Table, 0, 3));
  }

  lemma CoefficientsFrom4()
    ensures Good(4) && Good(5)
  {
    assert InRange(Beta(Table, 0, 4)) && InRange(Beta(Table, 0, 5));
  }

  lemma CoefficientsFrom6()
    ensures Good(6) && Good(7)
  {
    assert InRange(Beta(Table, 0, 6)) && InRange(Beta(Table, 0, 7));
  }

  lemma CoefficientsFrom8()
    ensures Good(8)
  {
    assert InRange(Beta(Table, 0, 8));
  }

  lemma CoefficientsFrom9()
    ensures Good(9)
  {
    assert InRange(Beta(Table, 0, 9));
  }

  lemma CoefficientsFrom10()
    ensures Good(10)
  {
    assert InRange(Beta(Table, 0, 10));
  }

  lemma CoefficientsFrom11()
    ensures Good(11)
  {
    assert InRange(Beta(Table, 0, 11));
  }

  lemma CoefficientsFrom12()
    ensures Good(12)
  {
    assert InRange(Beta(Table, 0, 12));
  }

  lemma AllGood(k: nat)
    requires k <= 12
    ensures InRange(Bernstein.Coefficient(Table, 1.006, 0, 12, k))
  {
    CoefficientsFrom0(); CoefficientsFrom4(); CoefficientsFrom6(); CoefficientsFrom8(); CoefficientsFrom9();
    CoefficientsFrom10(); CoefficientsFrom11(); CoefficientsFrom12();
    assert Use(k);
    BetaIsCoefficient(Table, 0, k);
  }

  lemma AllNear(k: nat)
    requires k <= 12
    ensures Within(Difference(k) - Table(k), 0.00000000000000001)
  {
    TableFrom0(); TableFrom4(); TableFrom7(); TableFrom9(); TableFrom11();
    assert Use(k);
  }

  lemma TableWithin(w: real)
    requires 0.0 <= w <= 1.006
    ensures Within(Horner(Table, w, 0, 13), 0.000000038)
  {
    var b := 0.000000038;
    forall k: nat | k <= 12
      ensures Bernstein.OnLine(-b, 0.0, k as real) <= Bernstein.Coefficient(Table, 1.006, 0, 12, k) <= Bernstein.OnLine(b, 0.0, k as real)
    {
      AllGood(k);
    }
    var p := Bernstein.HornerBetween(Table, w, 1.006, 12, -b, 0.0, b, 0.0);
  }

  lemma TripledNext(b: real, k: nat)
    ensures Tripled(b, k + 1) == 3.0 * Tripled(b, k)
  {
  }

  lemma TripledBy13(b: real)
    ensures Tripled(b, 13) == 1594323.0 * b
  {
    TripledNext(b, 0); TripledNext(b, 1); TripledNext(b, 2); TripledNext(b, 3); TripledNext(b, 4);
    TripledNext(b, 5); TripledNext(b, 6); TripledNext(b, 7); TripledNext(b, 8); TripledNext(b, 9);
    TripledNext(b, 10); TripledNext(b, 11); TripledNext(b, 12);
  }

  lemma DifferenceWithin(w: real)
    requires 0.0 <= w <= 1.006
    ensures Within(Horner(Difference, w, 0, 13), 0.0000000381)
  {
    TableWithin(w);
    forall j: nat | j < 13
      ensures Within(Difference(j) - Table(j), 0.00000000000000001)
    {
      AllNear(j);
    }
    HornersNear(Difference, Table, w, 0, 13, 0.00000000000000001);
    TripledBy13(0.00000000000000001);
  }

  // ---- erff ----

  lemma PolynomialStep(w: real, i: nat)
    requires i < 6
    ensures CudaSign.ErffPolynomial(false, w, i, CudaSign.Exact) ==
            MulAdd(CudaSign.ErffPolynomial(false, w, i + 1, CudaSign.Exact), w, CudaSign.ErffCoefficient(false, i))
  {
  }

  lemma Swapped(a: real, w: real, c: real)
    ensures MulAdd(a, w, c) == MulAdd(w, a, c)
  {
  }

  lemma {:induction false} PolynomialIsHorner(w: real, i: nat)
    requires 1 <= i <= 6
    ensures CudaSign.ErffPolynomial(false, w, i, CudaSign.Exact) == Horner(Coefficient, w, i, 7)
    decreases 6 - i
  {
    if i == 6 {
      HornerLast(Coefficient, w, 6);
    } else {
      PolynomialIsHorner(w, i + 1);
      PolynomialStep(w, i);
      HornerAt(Coefficient, w, i, 7);
      Swapped(Horner(Coefficient, w, i + 1, 7), w, Coefficient(i));
    }
  }

  lemma EndsAt7()
    ensures EndsAt(Coefficient, 7)
  {
  }

  lemma ErffSumIs(x: real, w: real)
    requires w == MulAdd(x, x, 0.0) && CudaSign.Abs(x) < 1.002959966659546
    ensures CudaSign.ErffSum(x, CudaSign.Exact) == MulAdd(x, Horner(Coefficient, w, 0, 13), 0.0)
  {
    PolynomialIsHorner(w, 1);
    PolynomialStep(w, 0);
    HornerAt(Coefficient, w, 0, 7);
    EndsAt7();
    HornerEnds(Coefficient, w, 0, 7, 13);
    WithX(x, w, Horner(Coefficient, w, 1, 7), CudaSign.ErffCoefficient(false, 0));
  }

  lemma WithX(x: real, w: real, a: real, c: real)
    ensures MulAdd(MulAdd(a, w, c), x, x) == MulAdd(x, MulAdd(w, a, 1.0 + c), 0.0)
  {
    assert x * (w * a + 1.0 + c) == (a * w + c) * x + x;
  }

  lemma ErrorOfSum(x: real, h: real, e: real, s: real)
    requires Within(x, 1.003) && Within(h - e, 0.0000000381) && Within(s - e, 0.0000000055)
    ensures Within(MulAdd(x, h, 0.0) - MulAdd(x, s, 0.0), 0.000000044)
  {
    assert Within(h - s, 0.0000000436);
    ProductWithin(x, h - s, 1.003, 0.0000000436);
    assert x * (h - s) == x * h - x * s;
  }

  lemma RangeOfSquare(x: real, w: real)
    requires CudaSign.Abs(x) < 1.002959966659546 && w == MulAdd(x, x, 0.0)
    ensures 0.0 <= w <= 1.006 && Within(x, 1.003)
  {
    ProductWithin(x, x, 1.00296, 1.00296);
    assert x * x >= 0.0;
  }

  lemma PolynomialNearErf(x: real, w: real, order: nat)
    requires Within(x, 1.003) && w == MulAdd(x, x, 0.0) && 0.0 <= w <= 1.006 && order >= 13
    ensures Within(MulAdd(x, Horner(Coefficient, w, 0, 13), 0.0) - ErfSeries(x, order), 0.000000044)
  {
    DifferenceWithin(w);
    HornerMinus(Coefficient, ErfTerm, Difference, w, 13);
    ErfSeriesTail13(w, order);
    ErrorOfSum(x, Horner(Coefficient, w, 0, 13), Horner(ErfTerm, w, 0, 13), Sum(ErfTerm, w, order + 1));
  }

  /**
   Below the threshold and in exact arithmetic, erff(x) is within 4.5e-8 of the series of erf summed to any
   order of 13 or more.
   */
  lemma {:induction false} ErffSmallIsErf(x: real, order: nat)
    requires CudaSign.Abs(x) < 1.002959966659546 && order >= 13
    ensures Within(CudaSign.ErffSum(x, CudaSign.Exact) - ErfSeries(x, order), 0.000000045)
  {
    var w := MulAdd(x, x, 0.0);
    RangeOfSquare(x, w);
    ErffSumIs(x, w);
    PolynomialNearErf(x, w, order);
  }

  // ---- The second branch ----

  /** The polynomial of the second branch with the final addition in it. */
  function LargeCoefficient(n: nat): real {
    match n
    case 0 => 1.0 + CudaSign.ErffCoefficient(true, 0)
    case _ => CudaSign.ErffCoefficient(true, n)
  }

  lemma LargePolynomialStep(t: real, i: nat)
    requires i < 6
    ensures CudaSign.ErffPolynomial(true, t, i, CudaSign.Exact) ==
            MulAdd(CudaSign.ErffPolynomial(true, t, i + 1, CudaSign.Exact), t, CudaSign.ErffCoefficient(true, i))
  {
  }

  lemma {:induction false} LargePolynomialIsHorner(t: real, i: nat)
    requires 1 <= i <= 6
    ensures CudaSign.ErffPolynomial(true, t, i, CudaSign.Exact) == Horner(LargeCoefficient, t, i, 7)
    decreases 6 - i
  {
    if i == 6 {
      HornerLast(LargeCoefficient, t, 6);
    } else {
      LargePolynomialIsHorner(t, i + 1);
      LargePolynomialStep(t, i);
      HornerAt(LargeCoefficient, t, i, 7);
      Swapped(Horner(LargeCoefficient, t, i + 1, 7), t, LargeCoefficient(i));
    }
  }

  /** The exponent of the second branch, a function of t = |x|. */
  function LargeExponent(t: real): real { MulAdd(-t, Horner(LargeCoefficient, t, 0, 7), 0.0) }

  lemma ErffSumIsExponent(x: real, t: real)
    requires t == CudaSign.Abs(x) >= 1.002959966659546
    ensures CudaSign.ErffSum(x, CudaSign.Exact) == LargeExponent(t)
  {
    LargePolynomialIsHorner(t, 1);
    LargePolynomialStep(t, 0);
    HornerAt(LargeCoefficient, t, 0, 7);
    WithT(t, Horner(LargeCoefficient, t, 1, 7), CudaSign.ErffCoefficient(true, 0));
  }

  lemma WithT(t: real, a: real, c: real)
    ensures MulAdd(MulAdd(a, t, c), -t, -t) == MulAdd(-t, MulAdd(t, a, 1.0 + c), 0.0)
  {
    assert t * (t * a + 1.0 + c) == (a * t + c) * t + t;
  }

  lemma SignedValue(x: u32, val: u32 -> real, b: u32)
    requires CudaSign.SignMagnitude(val) && b < 0x8000_0000
    ensures val(CudaSign.CopySign(x, b)) == if x < 0x8000_0000 then val(b) else -val(b)
  {
    CudaSign.CopySignPutsSign(x, b);
    assert XorSignBit(b) == b + 0x8000_0000;
  }

  /** From the threshold on, erff is 1 - exp2(LargeExponent(|x|)) with the sign of x. */
  lemma {:induction false} ErffLargeValue(x: u32, val: u32 -> real, exp2: real -> real, enc: real -> u32, t: real)
    requires CudaSign.SignMagnitude(val) && CudaSign.Encoder(enc)
    requires t == CudaSign.Abs(val(x)) >= 1.002959966659546
    requires forall v: real :: v <= 0.0 ==> exp2(v) <= 1.0
    ensures var b := enc(1.0 - exp2(LargeExponent(t)));
            && b < 0x8000_0000
            && CudaSign.Erff(x, val, CudaSign.Exact, exp2, enc) == if x < 0x8000_0000 then val(b) else -val(b)
  {
    var f1 := val(x);
    ErffSumIsExponent(f1, t);
    CudaSign.ExactIsSymmetric();
    CudaSign.ErffMagnitudeClear(f1, CudaSign.Exact, exp2, enc);
    SignedValue(x, val, CudaSign.ErffMagnitude(f1, CudaSign.Exact, exp2, enc));
  }

  // ---- The branches meet ----

  /** exp2f up to 1e-9 near 0, and exact at the doublings. */
  ghost predicate IsExp2(exp2: real -> real) {
    && CudaExpf.Exp2Law(exp2)
    && forall a: real {:trigger exp2(a)} ::
         Within(a, 0.5) ==> Within(exp2(a) - ExpSum(MulAdd(a, 0.6931471805599453, 0.0), 13), 0.000000001)
  }

  /** The threshold. */
  const T := 1.002959966659546

  lemma ExponentAtThreshold()
    ensures Within(LargeExponent(T) + 2.679696555298, 0.000000000001)
  {
  }

  lemma PolynomialAtThreshold()
    ensures Within(MulAdd(T, Horner(Coefficient, MulAdd(T, T, 0.0), 0, 7), 0.0) - 0.843925866503, 0.000000000001)
  {
  }

  /** The terms of exp(0.2220174296), from the last on. */
  lemma ExpFrom8()
    ensures Within(Horner(InvFactorial, 0.2220174296, 8, 14) - 0.00002542727062143, 0.0000000000000001)
  {
    InvFactorials();
  }

  lemma ExpFrom4()
    ensures Within(Horner(InvFactorial, 0.2220174296, 4, 14) - 0.04358750579623, 0.00000000000001)
  {
    ExpFrom8();
    InvFactorials();
  }

  lemma ExpFrom0()
    ensures Within(Horner(InvFactorial, 0.2220174296, 0, 14) - 1.248593140154, 0.000000000001)
  {
    ExpFrom4();
    InvFactorials();
  }

  lemma InvFactorialAtMostOne(j: nat)
    ensures 0.0 <= InvFactorial(j) <= 1.0
  {
    if j > 12 {
      InvFactorialsFall(j);
    } else {
      InvFactorials();
    }
  }

  lemma ExpNearThreshold(r: real)
    requires Within(r - 0.2220174296, 0.00000000003)
    ensures Within(ExpSum(r, 13) - 1.248593140154, 0.0000000001)
  {
    forall j: nat
      ensures Within(InvFactorial(j), 1.0)
    {
      InvFactorialAtMostOne(j);
    }
    SumIsHorner(InvFactorial, r, 14);
    HornerLipschitz(InvFactorial, r, 0.2220174296, 0, 14, 1.0, 0.35, 1.54, 0.00000000003, 0.00000000009);
    ExpFrom0();
  }

  lemma Exp2AtThreshold(exp2: real -> real, v: real)
    requires IsExp2(exp2) && Within(v + 2.679696555298, 0.000000000001)
    ensures Within(exp2(v) - 0.15607414251925, 0.0000000002)
  {
    var a := v + 3.0;
    assert v == a + (-3) as real;
    assert exp2(a + (-3) as real) == Scaled(exp2(a), -3);
    assert Scaled(exp2(a), -3) == exp2(a) / 8.0;
    ExpNearThreshold(MulAdd(a, 0.6931471805599453, 0.0));
  }

  lemma PolynomialIsErf(order: nat)
    requires order >= 13
    ensures Within(MulAdd(T, Horner(Coefficient, MulAdd(T, T, 0.0), 0, 7), 0.0) - ErfSeries(T, order), 0.000000044)
  {
    EndsAt7();
    HornerEnds(Coefficient, MulAdd(T, T, 0.0), 0, 7, 13);
    PolynomialNearErf(T, MulAdd(T, T, 0.0), order);
  }

  /**
   Where the second branch begins, it is as close to the series of erf as the first one is up to there:
   the result does not jump at the threshold.
   */
  lemma {:induction false} BranchesMeet(exp2: real -> real, order: nat)
    requires IsExp2(exp2) && order >= 13
    ensures Within(1.0 - exp2(LargeExponent(T)) - ErfSeries(T, order), 0.00000006)
  {
    ExponentAtThreshold();
    PolynomialAtThreshold();
    PolynomialIsErf(order);
    Exp2AtThreshold(exp2, LargeExponent(T));
  }

  // ---- erf at 1 ----

  lemma SeriesFrom10AtOne()
    ensures Within(Horner(ErfTerm, 1.0, 10, 13) - 0.000000013672, 0.000000000001)
  {
    InvFactorials();
  }

  lemma SeriesFrom5AtOne()
    ensures Within(Horner(ErfTerm, 1.0, 5, 13) + 0.0007477087975, 0.000000000002)
  {
    SeriesFrom10AtOne();
    InvFactorials();
  }

  lemma SeriesAtOne()
    ensures Within(Horner(ErfTerm, 1.0, 0, 13) - 0.8427007929497, 0.0000000001)
  {
    SeriesFrom5AtOne();
    InvFactorials();
  }

  /** erf(1), computed with fd50 exact, is within 6e-9 of the same series. */
  lemma {:induction false} ErfAtOneIsErf(float: real -> real, fd86: real, order: nat)
    requires CudaErf.IsMagnitude(1.0, 0.0, float, fd86) && CudaErf.FloatRounding(float) && order >= 13
    ensures Within(fd86 - ErfSeries(1.0, order), 0.000000006)
  {
    CudaErf.MagnitudeAtOne(float, fd86);
    SeriesAtOne();
    ErfSeriesTail13(1.0, order);
  }
}
