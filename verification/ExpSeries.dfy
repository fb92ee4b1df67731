/** The power series of exp. */
module ExpSeries {
  import opened Series
  import opened Polynomials

  function Over(a: real, n: nat): real
    requires n > 0
  {
    a / n as real
  }

  /** 1/n! */
  function InvFactorial(n: nat): real {
    if n == 0 then 1.0 else Over(InvFactorial(n - 1), n)
  }

  /** 1 + r + r^2/2! + ... up to the term in r^order. */
  function ExpSum(r: real, order: nat): real { Sum(InvFactorial, r, order + 1) }

  lemma InvFactorials()
    ensures InvFactorial(2) == 1.0 / 2.0 && InvFactorial(3) == 1.0 / 6.0 && InvFactorial(4) == 1.0 / 24.0
    ensures InvFactorial(5) == 1.0 / 120.0 && InvFactorial(6) == 1.0 / 720.0 && InvFactorial(7) == 1.0 / 5040.0
    ensures InvFactorial(8) == 1.0 / 40320.0 && InvFactorial(9) == 1.0 / 362880.0
    ensures InvFactorial(10) == 1.0 / 3628800.0 && InvFactorial(11) == 1.0 / 39916800.0
    ensures InvFactorial(12) == 1.0 / 479001600.0 && InvFactorial(13) == 1.0 / 6227020800.0
    ensures InvFactorial(14) == 1.0 / 87178291200.0
  {
  }

  lemma InvFactorialNext(n: nat)
    requires n >= 1
    ensures InvFactorial(n) == Over(InvFactorial(n - 1), n)
  {
  }

  lemma {:induction false} InvFactorialsFall(n: nat)
    requires n >= 12
    ensures InSmallRange(InvFactorial(n))
    decreases n
  {
    if n == 12 {
      InvFactorials();
    } else {
      InvFactorialsFall(n - 1);
      InvFactorialNext(n);
      Shrinks(InvFactorial(n - 1), n as real, InvFactorial(n));
    }
  }

  predicate InSmallRange(a: real) { 0.0 < a <= 0.0000000021 }

  lemma Shrinks(a: real, d: real, q: real)
    requires InSmallRange(a) && d >= 1.0 && q == a / d
    ensures InSmallRange(q)
  {
    assert 0.0 < a / d <= a;
  }

  lemma TenthOf(a: real, d: real, q: real, b: real)
    requires 0.0 <= a <= b && d >= 10.0 && q == a / d
    ensures 0.0 <= q <= b / 10.0
  {
    assert q * d == a;
  }

  predicate DividesAt(a: nat -> real, j: nat) { j >= 1 ==> a(j) == Over(a(j - 1), j) }

  /** a(j) is a(j-1)/j; to be used only where Unfold is mentioned. */
  ghost predicate Divides(a: nat -> real) {
    forall j: nat {:trigger Unfold(j)} :: DividesAt(a, j)
  }

  ghost predicate SmallAt14(a: nat -> real) {
    forall j: nat {:trigger Unfold(j)} :: j == 14 ==> 0.0 <= a(j) <= 0.000000000011471
  }

  lemma InvFactorialDividesAt(j: nat)
    ensures DividesAt(InvFactorial, j)
  {
    if j >= 1 {
      InvFactorialNext(j);
    }
  }

  lemma InvFactorialDivides()
    ensures Divides(InvFactorial)
  {
    forall j: nat
      ensures DividesAt(InvFactorial, j)
    {
      InvFactorialDividesAt(j);
    }
  }

  lemma InvFactorialAt14()
    ensures SmallAt14(InvFactorial)
  {
    InvFactorials();
    assert 0.0 <= InvFactorial(14) <= 0.000000000011471;
  }

  lemma {:induction false} Falls(a: nat -> real, k: nat)
    requires Divides(a) && SmallAt14(a)
    ensures 0.0 <= a(14 + k) <= Tenth(0.000000000011471, k)
  {
    assert Unfold(14 + k);
    if k > 0 {
      Falls(a, k - 1);
      TenthOf(a(14 + (k - 1)), (14 + k) as real, a(14 + k), Tenth(0.000000000011471, k - 1));
    }
  }

  lemma FallsFrom14(a: nat -> real)
    requires Divides(a) && SmallAt14(a)
    ensures FallsFrom(a, 14, 0.000000000011471)
  {
    forall j: nat | j >= 14
      ensures Within(a(j), Tenth(0.000000000011471, j - 14))
    {
      Falls(a, j - 14);
    }
  }

  /** Beyond its first 14 terms, a series with falling coefficients changes little for |r| <= 1.5. */
  lemma TailFrom14(f: nat -> real, r: real, n: nat)
    requires Within(r, 1.5) && n >= 14 && FallsFrom(f, 14, 0.000000000011471)
    ensures Within(Horner(f, r, 0, n) - Horner(f, r, 0, 14), 0.0000000041)
  {
    FallingTail(f, r, 14, 0.000000000011471, 14, n);
    MoreTerms(f, r, 0, 14, n, 0.0000000000137652);
    GrownBy14(0.0000000000137652);
  }

  lemma SumTail(a: nat -> real, r: real, order: nat)
    requires Within(r, 1.5) && order >= 13 && Divides(a) && SmallAt14(a)
    ensures Within(Sum(a, r, order + 1) - Horner(a, r, 0, 14), 0.0000000041)
  {
    SumIsHorner(a, r, order + 1);
    FallsFrom14(a);
    TailFrom14(a, r, order + 1);
  }

  lemma ExpSumTail(r: real, order: nat)
    requires Within(r, 1.5) && order >= 13
    ensures Within(ExpSum(r, order) - Horner(InvFactorial, r, 0, 14), 0.0000000041)
  {
    InvFactorialDivides();
    InvFactorialAt14();
    SumTail(InvFactorial, r, order);
  }

  lemma GrownNext(b: real, k: nat)
    ensures Grown(b, k + 1) == 1.5 * Grown(b, k)
  {
  }

  lemma GrownBy14(b: real)
    requires b >= 0.0
    ensures Grown(b, 14) <= 292.0 * b
  {
    GrownNext(b, 0); GrownNext(b, 1); GrownNext(b, 2); GrownNext(b, 3); GrownNext(b, 4);
    GrownNext(b, 5); GrownNext(b, 6); GrownNext(b, 7); GrownNext(b, 8); GrownNext(b, 9);
    GrownNext(b, 10); GrownNext(b, 11); GrownNext(b, 12); GrownNext(b, 13);
  }
}
