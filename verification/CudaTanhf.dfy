/** tanhf below 0.6 against tanh, which is (E-1)/(E+1) for E = exp(2x). */
module CudaTanhf {
  import opened Series
  import opened Polynomials
  import opened ExpSeries
  import opened Ieee754
  import opened WordBits
  import Bernstein
  import CudaSign

  // With y = 2*x and z = y*y, the polynomial of tanhf is y*A(z), and exp(y) is C(z) + y*S(z) up to a small
  // tail. Then t*(E+1) - (E-1) is y*(A*(C+1) - S) + z*(A*S - (C-1)/z), and both brackets nearly vanish.

  /** A: half the coefficients of tanhf, for z instead of z/4. */
  function A(n: nat): real {
    match n
    case 0 => 0.5 case 1 => -0.04166596010327339125
    case 2 => 0.0041610305197536946875 case 3 => -0.000408624706324189921875
    case 4 => 0.00003074156848015263671875
    case _ => 0.0
  }

  /** C + 1 */
  function CPlus1(n: nat): real {
    match n
    case 0 => 2.0 case 1 => 1.0 / 2.0 case 2 => 1.0 / 24.0 case 3 => 1.0 / 720.0
    case 4 => 1.0 / 40320.0 case 5 => 1.0 / 3628800.0 case 6 => 1.0 / 479001600.0
    case _ => 0.0
  }

  function S(n: nat): real {
    match n
    case 0 => 1.0 case 1 => 1.0 / 6.0 case 2 => 1.0 / 120.0 case 3 => 1.0 / 5040.0
    case 4 => 1.0 / 362880.0 case 5 => 1.0 / 39916800.0 case 6 => 1.0 / 6227020800.0
    case _ => 0.0
  }

  /** (C - 1) / z */
  function CMinus1(n: nat): real {
    match n
    case 0 => 1.0 / 2.0 case 1 => 1.0 / 24.0 case 2 => 1.0 / 720.0
    case 3 => 1.0 / 40320.0 case 4 => 1.0 / 3628800.0 case 5 => 1.0 / 479001600.0
    case _ => 0.0
  }

  function Bracket1(n: nat): real { ProductAt(A, 0, 4, CPlus1, n) - S(n) }

  function Bracket2(n: nat): real { ProductAt(A, 0, 4, S, n) - CMinus1(n) }

  /** Their coefficients up to 1e-17. */
  function Table1(n: nat): real {
    match n
    case 0 => 0.00000000000000000 case 1 => 0.00000141312678655 case 2 => -0.00001091901212931
    case 3 => 0.00002321592229049 case 4 => -0.00001767727184931 case 5 => 0.00000320331640584
    case 6 => 0.00000080596575981 case 7 => 0.00000003362176501 case 8 => 0.00000000065852056
    case 9 => 0.00000000000761848 case 10 => 0.00000000000006418
    case _ => 0.0
  }

  function Table2(n: nat): real {
    match n
    case 0 => 0.00000000000000000 case 1 => 0.00000070656339328 case 2 => -0.00000551838634743
    case 3 => 0.00001206880801224 case 4 => -0.00000985205771635 case 5 => 0.00000243960831642
    case 6 => 0.00000018560656642 case 7 => 0.00000000507100884 case 8 => 0.00000000007514683
    case 9 => 0.00000000000070452 case 10 => 0.00000000000000494
    case _ => 0.0
  }

  predicate Use(n: nat) { true }

  ghost predicate Near1(n: nat) {
    forall j: nat {:trigger Use(j)} :: j == n <= 10 ==> Within(Bracket1(j) - Table1(j), 0.00000000000000001)
  }

  ghost predicate Near2(n: nat) {
    forall j: nat {:trigger Use(j)} :: j == n <= 10 ==> Within(Bracket2(j) - Table2(j), 0.00000000000000001)
  }

  lemma Table1From0()
    ensures Near1(0) && Near1(1) && Near1(2)
  {
    assert Within(Bracket1(0) - Table1(0), 0.00000000000000001);
    assert Within(Bracket1(1) - Table1(1), 0.00000000000000001);
    assert Within(Bracket1(2) - Table1(2), 0.00000000000000001);
  }

  lemma Table1From3()
    ensures Near1(3) && Near1(4)
  {
    assert Within(Bracket1(3) - Table1(3), 0.00000000000000001);
    assert Within(Bracket1(4) - Table1(4), 0.00000000000000001);
  }

  lemma Table1From5()
    ensures Near1(5) && Near1(6)
  {
    assert Within(Bracket1(5) - Table1(5), 0.00000000000000001);
    assert Within(Bracket1(6) - Table1(6), 0.00000000000000001);
  }

  lemma Table1From7()
    ensures Near1(7) && Near1(8)
  {
    assert Within(Bracket1(7) - Table1(7), 0.00000000000000001);
    assert Within(Bracket1(8) - Table1(8), 0.00000000000000001);
  }

  lemma Table1From9()
    ensures Near1(9) && Near1(10)
  {
    assert Within(Bracket1(9) - Table1(9), 0.00000000000000001);
    assert Within(Bracket1(10) - Table1(10), 0.00000000000000001);
  }

  lemma Table2From0()
    ensures Near2(0) && Near2(1) && Near2(2)
  {
    assert Within(Bracket2(0) - Table2(0), 0.00000000000000001);
    assert Within(Bracket2(1) - Table2(1), 0.00000000000000001);
    assert Within(Bracket2(2) - Table2(2), 0.00000000000000001);
  }

  lemma Table2From3()
    ensures Near2(3) && Near2(4)
  {
    assert Within(Bracket2(3) - Table2(3), 0.00000000000000001);
    assert Within(Bracket2(4) - Table2(4), 0.00000000000000001);
  }

  lemma Table2From5()
    ensures Near2(5) && Near2(6)
  {
    assert Within(Bracket2(5) - Table2(5), 0.00000000000000001);
    assert Within(Bracket2(6) - Table2(6), 0.00000000000000001);
  }

  lemma Table2From7()
    ensures Near2(7) && Near2(8)
  {
    assert Within(Bracket2(7) - Table2(7), 0.00000000000000001);
    assert Within(Bracket2(8) - Table2(8), 0.00000000000000001);
  }

  lemma Table2From9()
    ensures Near2(9) && Near2(10)
  {
    assert Within(Bracket2(9) - Table2(9), 0.00000000000000001);
    assert Within(Bracket2(10) - Table2(10), 0.00000000000000001);
  }

  // ---- The Bernstein coefficients of the tables on [0, 1.44] ----

  function Term(j: nat, m: nat, v: real): real
    requires m > 0
  {
    1.44 * j as real / m as real * v
  }

  /** Bernstein.Coefficient(f, 1.44, i, 10, j) in a form that is quickly computed. */
  function Beta(f: nat -> real, i: nat, j: nat): real
    requires i + j <= 10
    decreases j
  {
    if j == 0 then f(i) else f(i) + Term(j, 10 - i, Beta(f, i + 1, j - 1))
  }

  lemma {:induction false} BetaIsCoefficient(f: nat -> real, i: nat, j: nat)
    requires i + j <= 10
    ensures Beta(f, i, j) == Bernstein.Coefficient(f, 1.44, i, 10, j)
    decreases j
  {
    if j > 0 {
      BetaIsCoefficient(f, i + 1, j - 1);
      TermIsWeighted(j, 10 - i, Beta(f, i + 1, j - 1));
    }
  }

  lemma TermIsWeighted(j: nat, m: nat, v: real)
    requires m > 0
    ensures Term(j, m, v) == Bernstein.Weighted(Bernstein.Part(j, m), 1.44, v)
  {
    var p := Bernstein.Part(j, m);
    assert 1.44 * j as real / m as real == 1.44 * p;
  }

  predicate InRange1(v: real) { Within(v, 0.00000044) }

  predicate InRange2(v: real) { Within(v, 0.0000002) }

  ghost predicate Good1(k: nat) {
    forall j: nat {:trigger Use(j)} :: j == k <= 10 ==> InRange1(Beta(Table1, 0, j))
  }

  ghost predicate Good2(k: nat) {
    forall j: nat {:trigger Use(j)} :: j == k <= 10 ==> InRange2(Beta(Table2, 0, j))
  }

  lemma Coefficients1From0()
    ensures Good1(0) && Good1(1) && Good1(2) && Good1(3)
  {
    assert InRange1(Beta(Table1, 0, 0)) && InRange1(Beta(Table1, 0, 1)) && InRange1(Beta(Table1, 0, 2)) && InRange1(Beta(Table1, 0, 3));
  }

  lemma Coefficients1From4()
    ensures Good1(4) && Good1(5)
  {
    assert InRange1(Beta(Table1, 0, 4)) && InRange1(Beta(Table1, 0, 5));
  }

  lemma Coefficients1From6()
    ensures Good1(6) && Good1(7)
  {
    assert InRange1(Beta(Table1, 0, 6)) && InRange1(Beta(Table1, 0, 7));
  }

  lemma Coefficients1From8()
    ensures Good1(8)
  {
    assert InRange1(Beta(Table1, 0, 8));
  }

  lemma Coefficients1From9()
    ensures Good1(9)
  {
    assert InRange1(Beta(Table1, 0, 9));
  }

  lemma Coefficients1From10()
    ensures Good1(10)
  {
    assert InRange1(Beta(Table1, 0, 10));
  }

  lemma Coefficients2From0()
    ensures Good2(0) && Good2(1) && Good2(2) && Good2(3)
  {
    assert InRange2(Beta(Table2, 0, 0)) && InRange2(Beta(Table2, 0, 1)) && InRange2(Beta(Table2, 0, 2)) && InRange2(Beta(Table2, 0, 3));
  }

  lemma Coefficients2From4()
    ensures Good2(4) && Good2(5)
  {
    assert InRange2(Beta(Table2, 0, 4)) && InRange2(Beta(Table2, 0, 5));
  }

  lemma Coefficients2From6()
    ensures Good2(6) && Good2(7)
  {
    assert InRange2(Beta(Table2, 0, 6)) && InRange2(Beta(Table2, 0, 7));
  }

  lemma Coefficients2From8()
    ensures Good2(8)
  {
    assert InRange2(Beta(Table2, 0, 8));
  }

  lemma Coefficients2From9()
    ensures Good2(9)
  {
    assert InRange2(Beta(Table2, 0, 9));
  }

  lemma Coefficients2From10()
    ensures Good2(10)
  {
    assert InRange2(Beta(Table2, 0, 10));
  }

  lemma AllGood1(k: nat)
    requires k <= 10
    ensures InRange1(Bernstein.Coefficient(Table1, 1.44, 0, 10, k))
  {
    Coefficients1From0(); Coefficients1From4(); Coefficients1From6();
    Coefficients1From8(); Coefficients1From9(); Coefficients1From10();
    assert Use(k);
    BetaIsCoefficient(Table1, 0, k);
  }

  lemma AllNear1(k: nat)
    requires k <= 10
    ensures Within(Bracket1(k) - Table1(k), 0.00000000000000001)
  {
    Table1From0(); Table1From3(); Table1From5(); Table1From7(); Table1From9();
    assert Use(k);
  }

  lemma Table1Within(z: real)
    requires 0.0 <= z <= 1.44
    ensures Within(Horner(Table1, z, 0, 11), 0.00000044)
  {
    var b := 0.00000044;
    forall k: nat | k <= 10
      ensures Bernstein.OnLine(-b, 0.0, k as real) <= Bernstein.Coefficient(Table1, 1.44, 0, 10, k) <= Bernstein.OnLine(b, 0.0, k as real)
    {
      AllGood1(k);
    }
    var p := Bernstein.HornerBetween(Table1, z, 1.44, 10, -b, 0.0, b, 0.0);
  }

  lemma Bracket1Within(z: real)
    requires 0.0 <= z <= 1.44
    ensures Within(Horner(Bracket1, z, 0, 11), 0.000000441)
  {
    Table1Within(z);
    forall j: nat | j < 11
      ensures Within(Bracket1(j) - Table1(j), 0.00000000000000001)
    {
      AllNear1(j);
    }
    HornersNear(Bracket1, Table1, z, 0, 11, 0.00000000000000001);
    TripledBy11(0.00000000000000001);
  }

  lemma AllGood2(k: nat)
    requires k <= 10
    ensures InRange2(Bernstein.Coefficient(Table2, 1.44, 0, 10, k))
  {
    Coefficients2From0(); Coefficients2From4(); Coefficients2From6();
    Coefficients2From8(); Coefficients2From9(); Coefficients2From10();
    assert Use(k);
    BetaIsCoefficient(Table2, 0, k);
  }

  lemma AllNear2(k: nat)
    requires k <= 10
    ensures Within(Bracket2(k) - Table2(k), 0.00000000000000001)
  {
    Table2From0(); Table2From3(); Table2From5(); Table2From7(); Table2From9();
    assert Use(k);
  }

  lemma Table2Within(z: real)
    requires 0.0 <= z <= 1.44
    ensures Within(Horner(Table2, z, 0, 11), 0.0000002)
  {
    var b := 0.0000002;
    forall k: nat | k <= 10
      ensures Bernstein.OnLine(-b, 0.0, k as real) <= Bernstein.Coefficient(Table2, 1.44, 0, 10, k) <= Bernstein.OnLine(b, 0.0, k as real)
    {
      AllGood2(k);
    }
    var p := Bernstein.HornerBetween(Table2, z, 1.44, 10, -b, 0.0, b, 0.0);
  }

  lemma Bracket2Within(z: real)
    requires 0.0 <= z <= 1.44
    ensures Within(Horner(Bracket2, z, 0, 11), 0.000000201)
  {
    Table2Within(z);
    forall j: nat | j < 11
      ensures Within(Bracket2(j) - Table2(j), 0.00000000000000001)
    {
      AllNear2(j);
    }
    HornersNear(Bracket2, Table2, z, 0, 11, 0.00000000000000001);
    TripledBy11(0.00000000000000001);
  }

  lemma TripledNext(b: real, k: nat)
    ensures Tripled(b, k + 1) == 3.0 * Tripled(b, k)
  {
  }

  lemma TripledBy11(b: real)
    ensures Tripled(b, 11) == 177147.0 * b
  {
    TripledNext(b, 0); TripledNext(b, 1); TripledNext(b, 2); TripledNext(b, 3); TripledNext(b, 4); TripledNext(b, 5);
    TripledNext(b, 6); TripledNext(b, 7); TripledNext(b, 8); TripledNext(b, 9); TripledNext(b, 10);
  }

  // ---- The pieces of tanhf and exp ----

  lemma HalfStep(z: real, w: real, s: real, h: real, c: real, a: real, p: real)
    requires z == 4.0 * w && 4.0 * s * a == p && s * h == c
    ensures s * MulAdd(z, a, h) == MulAdd(p, w, c)
  {
    assert s * (4.0 * w * a) == w * (4.0 * s * a);
    assert s * (4.0 * w * a + h) == s * (4.0 * w * a) + s * h;
  }

  lemma PolynomialStep(w: real, i: nat)
    requires i < 4
    ensures CudaSign.TanhfPolynomial(w, i, CudaSign.Exact) ==
            MulAdd(CudaSign.TanhfPolynomial(w, i + 1, CudaSign.Exact), w, CudaSign.TanhfCoefficient(i))
  {
  }

  lemma SchemeOfA(w: real, z: real)
    requires z == 4.0 * w
    ensures 8.0 * Horner(A, z, 1, 5) == CudaSign.TanhfPolynomial(w, 1, CudaSign.Exact)
  {
    HornerLast(A, z, 4);
    HornerAt(A, z, 3, 5);
    HornerAt(A, z, 2, 5);
    HornerAt(A, z, 1, 5);
    PolynomialStep(w, 3);
    PolynomialStep(w, 2);
    PolynomialStep(w, 1);
    var p := (i: nat) => CudaSign.TanhfPolynomial(w, i, CudaSign.Exact);
    HalfStep(z, w, 128.0, A(3), CudaSign.TanhfCoefficient(3), Horner(A, z, 4, 5), p(4));
    HalfStep(z, w, 32.0, A(2), CudaSign.TanhfCoefficient(2), Horner(A, z, 3, 5), p(3));
    HalfStep(z, w, 8.0, A(1), CudaSign.TanhfCoefficient(1), Horner(A, z, 2, 5), p(2));
  }

  lemma TanhfIsA(x: real, y: real, z: real)
    requires y == 2.0 * x && z == y * y
    ensures CudaSign.TanhfSmall(x, CudaSign.Exact) == MulAdd(y, Horner(A, z, 0, 5), 0.0)
  {
    var w := x * x;
    assert z == 4.0 * w;
    SchemeOfA(w, z);
    HornerAt(A, z, 0, 5);
    PolynomialStep(w, 0);
    FromHalf(x, y, z, w, Horner(A, z, 1, 5), CudaSign.TanhfPolynomial(w, 1, CudaSign.Exact));
  }

  lemma FromHalf(x: real, y: real, z: real, w: real, a: real, p: real)
    requires y == 2.0 * x && z == 4.0 * w && 8.0 * a == p
    ensures MulAdd(MulAdd(p, w, 0.0), x, 0.0) + x == MulAdd(y, MulAdd(z, a, 0.5), 0.0)
  {
    assert z * a == 0.5 * (w * p);
    assert 2.0 * x * (0.5 * (w * p) + 0.5) == x * (w * p) + x;
  }

  function EvenExp(n: nat): real { InvFactorial(2 * n) }

  function OddExp(n: nat): real { InvFactorial(2 * n + 1) }

  lemma EvenTable(n: nat)
    requires 1 <= n <= 6
    ensures EvenExp(n) == CPlus1(n)
  {
    InvFactorials();
  }

  lemma OddTable(n: nat)
    requires n <= 6
    ensures OddExp(n) == S(n)
  {
    InvFactorials();
  }

  lemma EvenScheme(z: real)
    ensures Horner(EvenExp, z, 0, 7) == Horner(CPlus1, z, 0, 7) - 1.0
  {
    forall j: nat | 1 <= j < 7 ensures EvenExp(j) == CPlus1(j) {
      EvenTable(j);
    }
    HornerAgree(EvenExp, CPlus1, z, 1, 7);
    HornerAt(EvenExp, z, 0, 7);
    HornerAt(CPlus1, z, 0, 7);
    assert EvenExp(0) == 1.0;
  }

  lemma OddScheme(z: real)
    ensures Horner(OddExp, z, 0, 7) == Horner(S, z, 0, 7)
  {
    forall j: nat | 0 <= j < 7 ensures OddExp(j) == S(j) {
      OddTable(j);
    }
    HornerAgree(OddExp, S, z, 0, 7);
  }

  lemma ExpInTwo(y: real, z: real)
    requires z == y * y
    ensures Horner(InvFactorial, y, 0, 14) == MulAdd(y, Horner(S, z, 0, 7), Horner(CPlus1, z, 0, 7) - 1.0)
  {
    EvenAndOdd(InvFactorial, EvenExp, OddExp, y, z, 0, 7);
    EvenScheme(z);
    OddScheme(z);
  }

  lemma CMinus1Scheme(z: real)
    ensures Horner(CPlus1, z, 0, 7) - 2.0 == MulAdd(z, Horner(CMinus1, z, 0, 6), 0.0)
  {
    HornerAt(CPlus1, z, 0, 7);
    HornerShifted(CPlus1, CMinus1, z, 0, 6);
  }

  lemma Bracket1Value(z: real)
    ensures Horner(Bracket1, z, 0, 11) == Horner(A, z, 0, 5) * Horner(CPlus1, z, 0, 7) - Horner(S, z, 0, 7)
  {
    HornerProduct(A, 0, 4, CPlus1, 7, z, 11);
    TimesValue(Horner(ProductOf(A, 0, 4, CPlus1), z, 0, 11), Horner(A, z, 0, 5), Horner(CPlus1, z, 0, 7));
    HornerMinus(ProductOf(A, 0, 4, CPlus1), S, Bracket1, z, 11);
    HornerEnds(S, z, 0, 7, 11);
  }

  lemma Bracket2Value(z: real)
    ensures Horner(Bracket2, z, 0, 11) == Horner(A, z, 0, 5) * Horner(S, z, 0, 7) - Horner(CMinus1, z, 0, 6)
  {
    HornerProduct(A, 0, 4, S, 7, z, 11);
    TimesValue(Horner(ProductOf(A, 0, 4, S), z, 0, 11), Horner(A, z, 0, 5), Horner(S, z, 0, 7));
    HornerMinus(ProductOf(A, 0, 4, S), CMinus1, Bracket2, z, 11);
    HornerEnds(CMinus1, z, 0, 6, 11);
  }

  // ---- The error ----

  /** a, c, s, c1 stand for A, C+1, S, (C-1)/z. */
  lemma ErrorInBrackets(y: real, z: real, a: real, c: real, s: real, c1: real, b1: real, b2: real, t: real, e: real)
    requires z == y * y && t == MulAdd(y, a, 0.0) && e == MulAdd(y, s, c - 1.0) && c - 2.0 == MulAdd(z, c1, 0.0)
    requires b1 == a * c - s && b2 == a * s - c1
    ensures t * (e + 1.0) - (e - 1.0) == y * b1 + z * b2
  {
    var ya := y * a;
    assert e + 1.0 == c + y * s;
    assert ya * (c + y * s) == ya * c + ya * (y * s);
    assert ya * c == y * (a * c);
    assert ya * (y * s) == y * y * (a * s);
    assert e - 1.0 == y * s + z * c1;
    assert y * (a * c - s) == y * (a * c) - y * s;
    assert z * (a * s - c1) == z * (a * s) - z * c1;
  }

  /** t solves t*(e+1) = e-1, which makes it (e-1)/(e+1), up to an error of b. */
  predicate IsTanh(t: real, e: real, b: real) { Within(t * (e + 1.0) - (e - 1.0), b) }

  lemma BracketError(y: real, z: real, a: real, c: real, s: real, c1: real, b1: real, b2: real, t: real, e: real)
    requires z == y * y && t == MulAdd(y, a, 0.0) && e == MulAdd(y, s, c - 1.0) && c - 2.0 == MulAdd(z, c1, 0.0)
    requires b1 == a * c - s && b2 == a * s - c1 && Within(b1, 0.000000441) && Within(b2, 0.000000201)
    requires Within(y, 1.2) && 0.0 <= z <= 1.44
    ensures IsTanh(t, e, 0.0000008187)
  {
    ErrorInBrackets(y, z, a, c, s, c1, b1, b2, t, e);
    SumOfProducts(y, z, b1, b2, t * (e + 1.0) - (e - 1.0));
  }

  lemma SumOfProducts(y: real, z: real, b1: real, b2: real, d: real)
    requires d == y * b1 + z * b2 && Within(y, 1.2) && 0.0 <= z <= 1.44
    requires Within(b1, 0.000000441) && Within(b2, 0.000000201)
    ensures Within(d, 0.0000008187)
  {
    ProductWithin(y, b1, 1.2, 0.000000441);
    ProductWithin(z, b2, 1.44, 0.000000201);
  }

  lemma ExactExpError(x: real, y: real, z: real)
    requires Within(x, 0.6) && y == 2.0 * x && z == y * y
    ensures IsTanh(CudaSign.TanhfSmall(x, CudaSign.Exact), Horner(InvFactorial, y, 0, 14), 0.0000008187)
  {
    RangeOfZ(y, z);
    TanhfIsA(x, y, z);
    ExpInTwo(y, z);
    CMinus1Scheme(z);
    Bracket1Value(z);
    Bracket2Value(z);
    Bracket1Within(z);
    Bracket2Within(z);
    BracketError(y, z, Horner(A, z, 0, 5), Horner(CPlus1, z, 0, 7), Horner(S, z, 0, 7), Horner(CMinus1, z, 0, 6),
      Horner(Bracket1, z, 0, 11), Horner(Bracket2, z, 0, 11),
      CudaSign.TanhfSmall(x, CudaSign.Exact), Horner(InvFactorial, y, 0, 14));
  }

  lemma RangeOfZ(y: real, z: real)
    requires Within(y, 1.2) && z == y * y
    ensures 0.0 <= z <= 1.44
  {
    ProductWithin(y, y, 1.2, 1.2);
    assert y * y >= 0.0;
  }

  lemma AWithin(z: real)
    requires 0.0 <= z <= 1.44
    ensures 0.4 <= Horner(A, z, 0, 5) <= 0.6
  {
    HornerLast(A, z, 4);
    HornerAt(A, z, 3, 5);
    StepWithin(A(3), z, A(4), 0.00041, 1.44, 0.000031, 0.0005);
    HornerAt(A, z, 2, 5);
    StepWithin(A(2), z, Horner(A, z, 3, 5), 0.0042, 1.44, 0.0005, 0.005);
    HornerAt(A, z, 1, 5);
    StepWithin(A(1), z, Horner(A, z, 2, 5), 0.0417, 1.44, 0.005, 0.049);
    HornerAt(A, z, 0, 5);
    StepWithin(0.0, z, Horner(A, z, 1, 5), 0.0, 1.44, 0.049, 0.0706);
  }

  lemma TailError(t: real, e: real, f: real, b: real)
    requires Within(t, 1.0) && Within(e - f, 0.0000000041) && IsTanh(t, f, b)
    ensures IsTanh(t, e, b + 0.0000000082)
  {
    var d := e - f;
    ProductWithin(t - 1.0, d, 2.0, 0.0000000041);
    assert (t - 1.0) * d == t * d - d;
    assert t * (e + 1.0) == t * (f + 1.0) + t * d;
  }

  /**
   Below 0.6 and in exact arithmetic, t = tanhf(x) satisfies the equation t*(E+1) = E-1 of tanh up to 9e-7,
   for E = exp(2x) summed to any order of 13 or more; and t has the sign of x.
   */
  lemma {:induction false} TanhfSmallIsTanh(x: real, order: nat)
    requires Within(x, 0.6) && order >= 13
    ensures IsTanh(CudaSign.TanhfSmall(x, CudaSign.Exact), ExpSum(2.0 * x, order), 0.0000009)
    ensures x >= 0.0 ==> CudaSign.TanhfSmall(x, CudaSign.Exact) >= 0.0
    ensures x <= 0.0 ==> CudaSign.TanhfSmall(x, CudaSign.Exact) <= 0.0
  {
    var y := 2.0 * x;
    var z := y * y;
    ExactExpError(x, y, z);
    ExpSumTail(y, order);
    SizeOfT(x, y, z);
    TailError(CudaSign.TanhfSmall(x, CudaSign.Exact), ExpSum(y, order), Horner(InvFactorial, y, 0, 14), 0.0000008187);
    LargerBound(CudaSign.TanhfSmall(x, CudaSign.Exact), ExpSum(y, order));
  }

  lemma LargerBound(t: real, e: real)
    requires IsTanh(t, e, 0.0000008187 + 0.0000000082)
    ensures IsTanh(t, e, 0.0000009)
  {
  }

  lemma SizeOfT(x: real, y: real, z: real)
    requires Within(x, 0.6) && y == 2.0 * x && z == y * y
    ensures Within(CudaSign.TanhfSmall(x, CudaSign.Exact), 1.0)
    ensures x >= 0.0 ==> CudaSign.TanhfSmall(x, CudaSign.Exact) >= 0.0
    ensures x <= 0.0 ==> CudaSign.TanhfSmall(x, CudaSign.Exact) <= 0.0
  {
    RangeOfZ(y, z);
    TanhfIsA(x, y, z);
    AWithin(z);
    SignedProduct(y, Horner(A, z, 0, 5));
  }

  lemma SignedProduct(y: real, a: real)
    requires Within(y, 1.2) && 0.4 <= a <= 0.6
    ensures Within(MulAdd(y, a, 0.0), 1.0)
    ensures (y >= 0.0 ==> MulAdd(y, a, 0.0) >= 0.0) && (y <= 0.0 ==> MulAdd(y, a, 0.0) <= 0.0)
  {
    ProductWithin(y, a, 1.2, 0.6);
    if y >= 0.0 {
      NonNegativeProduct(y, a, 1.2, 0.6);
    } else {
      NonNegativeProduct(-y, a, 1.2, 0.6);
      assert -y * a == -(y * a);
    }
  }

  // ---- tanhf as a whole ----

  /** From 0.6 on the magnitude m satisfies m*(p+1) = p-1 with p = exp2(2.88539*|x|), and it is 1 from 9.01... on. */
  lemma TanhfLargeIsTanh(f2: real, exp2: real -> real)
    requires f2 >= 0.6 && exp2(f2 * 2.88539) >= 1.0
    ensures var m, p := CudaSign.TanhfLarge(f2, CudaSign.Exact, exp2), exp2(f2 * 2.88539);
            if f2 >= 9.010913848876953 then m == 1.0 else m * (p + 1.0) == p - 1.0
  {
    var p := exp2(f2 * 2.88539);
    assert 1.0 / (p + 1.0) * (p + 1.0) == 1.0;
    assert (1.0 / (p + 1.0) * -2.0 + 1.0) * (p + 1.0) == -2.0 * (1.0 / (p + 1.0) * (p + 1.0)) + (p + 1.0);
  }

  /** Which branch applies to which x, and which sign the result has. */
  lemma TanhfValue(x: u32, val: u32 -> real, exp2: real -> real, enc: real -> u32, b: u32)
    requires CudaSign.SignMagnitude(val) && b < 0x8000_0000
    requires b == enc(CudaSign.TanhfLarge(CudaSign.Abs(val(x)), CudaSign.Exact, exp2))
    ensures CudaSign.Tanhf(x, val, CudaSign.Exact, exp2, enc) ==
            if CudaSign.Abs(val(x)) < 0.6 then CudaSign.TanhfSmall(val(x), CudaSign.Exact)
            else if x < 0x8000_0000 then val(b)
            else -val(b)
  {
    CudaSign.CopySignPutsSign(x, b);
    if x >= 0x8000_0000 {
      assert XorSignBit(b) == b + 0x8000_0000;
    }
  }
}
