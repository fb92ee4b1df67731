/** The polynomial P of erf and its bounds on [0, 6], from its 24 Bernstein coefficients there. */
module ErfPolynomial {
  import opened Series
  import opened Bernstein

  /** P, lines 246 to 268 of cuda_math.cpp, from the inside out. */
  function ErfCoefficient(n: nat): real {
    match n
    case 0 => 0.1283791670955126 case 1 => 0.6366197723675876
    case 2 => 0.10277260330144233 case 3 => -0.019128446995328407
    case 4 => -0.00020919483164788562 case 5 => 0.001696207528729842
    case 6 => -0.0005901318195328236 case 7 => 0.00002590260570264615
    case 8 => 0.00006442483232470452 case 9 => -0.000029583306728241582
    case 10 => 0.000003180046170354655 case 11 => 0.0000031218939658311085
    case 12 => -0.0000020278249778025215 case 13 => 0.0000005643145203798444
    case 14 => -0.000000008299332548682465 case 15 => -0.0000000672032708005184
    case 16 => 0.00000003508901186822047 case 17 => -0.000000010909760903049583
    case 18 => 0.000000002389211325400646 case 19 => -0.0000000003806599039253438
    case 20 => 0.000000000043555974045566826 case 21 => -0.0000000000034079297100747907
    case 22 => 0.0000000000001636624707883456
    case _ => -0.000000000000003642577040697121
  }

  // ---- Its Bernstein coefficients ----

  function Term(j: nat, m: nat, v: real): real
    requires m > 0
  {
    (6 * j) as real / m as real * v
  }

  /** Coefficient(ErfCoefficient, 6.0, i, 23, j) in a form that is quickly computed. */
  function Beta(i: nat, j: nat): real
    requires i + j <= 23
    decreases j
  {
    if j == 0 then ErfCoefficient(i)
    else ErfCoefficient(i) + Term(j, 23 - i, Beta(i + 1, j - 1))
  }

  lemma {:induction false} BetaIsCoefficient(i: nat, j: nat)
    requires i + j <= 23
    ensures Beta(i, j) == Coefficient(ErfCoefficient, 6.0, i, 23, j)
    decreases j
  {
    if j > 0 {
      BetaIsCoefficient(i + 1, j - 1);
      TermIsWeighted(j, 23 - i, Beta(i + 1, j - 1));
    }
  }

  lemma TermIsWeighted(j: nat, m: nat, v: real)
    requires m > 0
    ensures Term(j, m, v) == Weighted(Part(j, m), 6.0, v)
  {
    var p := Part(j, m);
    assert (6 * j) as real / m as real == 6.0 * p;
  }

  /** The same computation, started at index 13 with the value v. */
  function BetaFrom(i: nat, j: nat, v: real): real
    requires i <= 13 <= i + j <= 23
    decreases 13 - i, j
  {
    if i == 13 then v
    else ErfCoefficient(i) + Term(j, 23 - i, BetaFrom(i + 1, j - 1, v))
  }

  lemma {:induction false} BetaInTwo(i: nat, j: nat)
    requires i <= 13 <= i + j <= 23
    ensures Beta(i, j) == BetaFrom(i, j, Beta(13, i + j - 13))
    decreases 13 - i
  {
    if i < 13 {
      BetaInTwo(i + 1, j - 1);
    }
  }

  /** Mentions a number for which one of the predicates below is to be used. */
  predicate Use(k: nat) { true }

  predicate UseValue(v: real) { true }

  /** The range of coefficient k: constant bounds, and a line on either side. */
  predicate InRange(v: real, k: nat) {
    0.128 <= v <= 5.37 && -0.39 + 0.25 * k as real <= v <= 0.1284 + 0.23 * k as real
  }

  /** The k-th coefficient is in range. */
  ghost predicate Good(k: nat) {
    forall j: nat {:trigger Use(j)} :: j == k <= 23 ==> InRange(Beta(0, j), j)
  }

  // ---- The coefficients 0 to 13, directly ----

  lemma Direct0To2()
    ensures Good(0) && Good(1) && Good(2)
  {
    assert InRange(Beta(0, 0), 0) && InRange(Beta(0, 1), 1) && InRange(Beta(0, 2), 2);
  }

  lemma Direct3To4()
    ensures Good(3) && Good(4)
  {
    assert InRange(Beta(0, 3), 3) && InRange(Beta(0, 4), 4);
  }

  lemma Direct5To6()
    ensures Good(5) && Good(6)
  {
    assert InRange(Beta(0, 5), 5) && InRange(Beta(0, 6), 6);
  }

  lemma Direct7To8()
    ensures Good(7) && Good(8)
  {
    assert InRange(Beta(0, 7), 7) && InRange(Beta(0, 8), 8);
  }

  lemma Direct9()
    ensures Good(9)
  {
    assert InRange(Beta(0, 9), 9);
  }

  lemma Direct10()
    ensures Good(10)
  {
    assert InRange(Beta(0, 10), 10);
  }

  lemma Direct11()
    ensures Good(11)
  {
    assert InRange(Beta(0, 11), 11);
  }

  lemma Direct12()
    ensures Good(12)
  {
    assert InRange(Beta(0, 12), 12);
  }

  lemma Direct13()
    ensures Good(13)
  {
    assert InRange(Beta(0, 13), 13);
  }

  // ---- The others, in two parts that meet at index 13 ----

  /** Up to 1e-16, the value at index 13 on the way to coefficient k. */
  function Middle(k: nat): real {
    match k
    case 14 => 0.0000005593349208 case 15 => 0.0000005005927046 case 16 => 0.0000004512480932
    case 17 => 0.0000004071324977 case 18 => 0.0000003704727544 case 19 => 0.0000003390436051
    case 20 => 0.0000003123557993 case 21 => 0.0000002892868995 case 22 => 0.0000002692956382
    case _ => 0.0000002517758035
  }

  predicate NearMiddle(v: real, k: nat) { Middle(k) <= v <= Middle(k) + 0.0000000000000001 }

  ghost predicate HighGood(k: nat) {
    forall j: nat {:trigger Use(j)} :: j == k && 13 <= k <= 23 ==> NearMiddle(Beta(13, j - 13), j)
  }

  ghost predicate LowGood(k: nat) {
    forall v: real {:trigger UseValue(v)} :: 13 <= k <= 23 && NearMiddle(v, k) ==> InRange(BetaFrom(0, k, v), k)
  }

  lemma High14To15()
    ensures HighGood(14) && HighGood(15)
  {
    assert NearMiddle(Beta(13, 1), 14) && NearMiddle(Beta(13, 2), 15);
  }

  lemma High16To17()
    ensures HighGood(16) && HighGood(17)
  {
    assert NearMiddle(Beta(13, 3), 16) && NearMiddle(Beta(13, 4), 17);
  }

  lemma High18()
    ensures HighGood(18)
  {
    assert NearMiddle(Beta(13, 5), 18);
  }

  lemma High19()
    ensures HighGood(19)
  {
    assert NearMiddle(Beta(13, 6), 19);
  }

  lemma High20()
    ensures HighGood(20)
  {
    assert NearMiddle(Beta(13, 7), 20);
  }

  lemma High21()
    ensures HighGood(21)
  {
    assert NearMiddle(Beta(13, 8), 21);
  }

  lemma High22()
    ensures HighGood(22)
  {
    assert NearMiddle(Beta(13, 9), 22);
  }

  lemma High23()
    ensures HighGood(23)
  {
    assert NearMiddle(Beta(13, 10), 23);
  }

  lemma Low14()
    ensures LowGood(14)
  {
    forall v: real | NearMiddle(v, 14) ensures InRange(BetaFrom(0, 14, v), 14) {
    }
  }

  lemma Low15()
    ensures LowGood(15)
  {
    forall v: real | NearMiddle(v, 15) ensures InRange(BetaFrom(0, 15, v), 15) {
    }
  }

  lemma Low16()
    ensures LowGood(16)
  {
    forall v: real | NearMiddle(v, 16) ensures InRange(BetaFrom(0, 16, v), 16) {
    }
  }

  lemma Low17()
    ensures LowGood(17)
  {
    forall v: real | NearMiddle(v, 17) ensures InRange(BetaFrom(0, 17, v), 17) {
    }
  }

  lemma Low18()
    ensures LowGood(18)
  {
    forall v: real | NearMiddle(v, 18) ensures InRange(BetaFrom(0, 18, v), 18) {
    }
  }

  lemma Low19()
    ensures LowGood(19)
  {
    forall v: real | NearMiddle(v, 19) ensures InRange(BetaFrom(0, 19, v), 19) {
    }
  }

  lemma Low20()
    ensures LowGood(20)
  {
    forall v: real | NearMiddle(v, 20) ensures InRange(BetaFrom(0, 20, v), 20) {
    }
  }

  lemma Low21()
    ensures LowGood(21)
  {
    forall v: real | NearMiddle(v, 21) ensures InRange(BetaFrom(0, 21, v), 21) {
    }
  }

  lemma Low22()
    ensures LowGood(22)
  {
    forall v: real | NearMiddle(v, 22) ensures InRange(BetaFrom(0, 22, v), 22) {
    }
  }

  lemma Low23()
    ensures LowGood(23)
  {
    forall v: real | NearMiddle(v, 23) ensures InRange(BetaFrom(0, 23, v), 23) {
    }
  }

  lemma Joined(k: nat)
    requires 13 <= k <= 23 && HighGood(k) && LowGood(k)
    ensures Good(k)
  {
    assert Use(k);
    assert UseValue(Beta(13, k - 13));
    BetaInTwo(0, k);
  }

  lemma AllGood(k: nat)
    requires k <= 23
    ensures Good(k)
  {
    if k <= 13 {
      Direct0To2(); Direct3To4(); Direct5To6(); Direct7To8();
      Direct9(); Direct10(); Direct11(); Direct12(); Direct13();
    } else {
      High14To15(); High16To17(); High18(); High19(); High20(); High21(); High22(); High23();
      Low14(); Low15(); Low16(); Low17(); Low18(); Low19(); Low20(); Low21(); Low22(); Low23();
      assert HighGood(k) && LowGood(k);
      Joined(k);
    }
  }

  lemma CoefficientInRange(k: nat)
    requires k <= 23
    ensures InRange(Coefficient(ErfCoefficient, 6.0, 0, 23, k), k)
  {
    AllGood(k);
    assert Use(k);
    BetaIsCoefficient(0, k);
  }

  lemma ErfPolynomialBetween(x: real)
    requires 0.0 <= x <= 6.0
    ensures 0.128 <= Horner(ErfCoefficient, x, 0, 24) <= 5.37
  {
    forall k: nat | k <= 23
      ensures OnLine(0.128, 0.0, k as real) <= Coefficient(ErfCoefficient, 6.0, 0, 23, k) <= OnLine(5.37, 0.0, k as real)
    {
      CoefficientInRange(k);
    }
    var k := HornerBetween(ErfCoefficient, x, 6.0, 23, 0.128, 0.0, 5.37, 0.0);
  }

  lemma ErfPolynomialBetweenLines(x: real)
    requires 0.0 <= x <= 6.0
    ensures -0.39 + 23.0 / 24.0 * x <= Horner(ErfCoefficient, x, 0, 24) <= 0.1284 + 0.8816667 * x
  {
    forall k: nat | k <= 23
      ensures OnLine(-0.39, 0.25, k as real) <= Coefficient(ErfCoefficient, 6.0, 0, 23, k) <= OnLine(0.1284, 0.23, k as real)
    {
      CoefficientInRange(k);
    }
    var k := HornerBetween(ErfCoefficient, x, 6.0, 23, -0.39, 0.25, 0.1284, 0.23);
  }
}
