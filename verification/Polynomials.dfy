/** Algebra of finite power series in Horner form, by their coefficients. */
module Polynomials {
  import opened Series

  lemma AddStep(x: real, a: real, b: real, p: real, q: real)
    ensures MulAdd(x, p + q, a + b) == MulAdd(x, p, a) + MulAdd(x, q, b)
  {
    assert x * (p + q) == x * p + x * q;
  }

  lemma {:induction false} HornerAdd(f: nat -> real, g: nat -> real, h: nat -> real, x: real, i: nat, n: nat)
    requires forall j: nat :: h(j) == f(j) + g(j)
    ensures Horner(h, x, i, n) == Horner(f, x, i, n) + Horner(g, x, i, n)
    decreases n - i
  {
    if i < n {
      HornerAdd(f, g, h, x, i + 1, n);
      AddStep(x, f(i), g(i), Horner(f, x, i + 1, n), Horner(g, x, i + 1, n));
    }
  }

  lemma ScaleStep(x: real, c: real, a: real, p: real, h: real)
    requires h == c * p
    ensures MulAdd(x, h, c * a) == c * MulAdd(x, p, a)
  {
    assert x * (c * p) == c * (x * p);
  }

  lemma {:induction false} HornerScale(c: real, f: nat -> real, h: nat -> real, x: real, i: nat, n: nat)
    requires forall j: nat :: h(j) == c * f(j)
    ensures Horner(h, x, i, n) == c * Horner(f, x, i, n)
    decreases n - i
  {
    if i < n {
      HornerScale(c, f, h, x, i + 1, n);
      ScaleStep(x, c, f(i), Horner(f, x, i + 1, n), Horner(h, x, i + 1, n));
    }
  }

  /** h is f moved up by one place. */
  function Moved(f: nat -> real): nat -> real {
    (n: nat) => if n == 0 then 0.0 else f(n - 1)
  }

  lemma {:induction false} HornerMoved(f: nat -> real, x: real, i: nat, n: nat)
    ensures Horner(Moved(f), x, i + 1, n + 1) == Horner(f, x, i, n)
    decreases n - i
  {
    if i < n {
      HornerMoved(f, x, i + 1, n);
      HornerAt(Moved(f), x, i + 1, n + 1);
      HornerAt(f, x, i, n);
    }
  }

  lemma MovedIsTimesX(f: nat -> real, x: real, n: nat)
    ensures Horner(Moved(f), x, 0, n + 1) == MulAdd(x, Horner(f, x, 0, n), 0.0)
  {
    HornerAt(Moved(f), x, 0, n + 1);
    HornerMoved(f, x, 0, n);
  }

  /** Beyond k all coefficients are zero. */
  ghost predicate EndsAt(f: nat -> real, k: nat) { forall j: nat :: j >= k ==> f(j) == 0.0 }

  lemma {:induction false} HornerOfZeros(f: nat -> real, x: real, i: nat, n: nat)
    requires EndsAt(f, i)
    ensures Horner(f, x, i, n) == 0.0
    decreases n - i
  {
    if i < n {
      HornerOfZeros(f, x, i + 1, n);
      assert f(i) == 0.0;
    }
  }

  lemma {:induction false} HornerEnds(f: nat -> real, x: real, i: nat, k: nat, n: nat)
    requires EndsAt(f, k) && i <= k <= n
    ensures Horner(f, x, i, n) == Horner(f, x, i, k)
    decreases n - i
  {
    if i == k {
      HornerOfZeros(f, x, k, n);
    } else {
      HornerEnds(f, x, i + 1, k, n);
      HornerAt(f, x, i, n);
      HornerAt(f, x, i, k);
    }
  }

  /** Coefficient n of (a(i) + a(i+1)*x + ... + a(m)*x^(m-i)) times f. */
  function ProductAt(a: nat -> real, i: nat, m: nat, f: nat -> real, n: nat): real
    decreases m - i, n
  {
    a(i) * f(n) + if i >= m || n == 0 then 0.0 else ProductAt(a, i + 1, m, f, n - 1)
  }

  function ProductOf(a: nat -> real, i: nat, m: nat, f: nat -> real): nat -> real {
    (n: nat) => ProductAt(a, i, m, f, n)
  }

  lemma {:induction false} ProductEnds(a: nat -> real, i: nat, m: nat, f: nat -> real, k: nat)
    requires EndsAt(f, k) && i <= m
    ensures EndsAt(ProductOf(a, i, m, f), k + (m - i))
    decreases m - i
  {
    if i < m {
      ProductEnds(a, i + 1, m, f, k);
      forall j: nat | j >= k + (m - i)
        ensures ProductOf(a, i, m, f)(j) == 0.0
      {
        assert f(j) == 0.0;
        assert j > 0 ==> ProductOf(a, i + 1, m, f)(j - 1) == 0.0;
      }
    }
  }

  /** r is p * q; to be used only where Unfold is mentioned. */
  ghost predicate IsTimes(r: real, p: real, q: real) {
    forall i: nat {:trigger Unfold(i)} :: i == 0 ==> r == p * q
  }

  lemma TimesValue(r: real, p: real, q: real)
    requires IsTimes(r, p, q)
    ensures r == p * q
  {
    assert Unfold(0);
  }

  lemma ProductStep(x: real, ai: real, s: real, t: real, st: real, top: real, moved: real, total: real, whole: real)
    requires IsTimes(st, s, t) && IsTimes(top, ai, t) && moved == MulAdd(x, st, 0.0)
    requires total == top + moved && whole == MulAdd(x, s, ai)
    ensures IsTimes(total, whole, t)
  {
    TimesValue(st, s, t);
    TimesValue(top, ai, t);
    assert (x * s) * t == x * (s * t);
    assert (x * s + ai) * t == (x * s) * t + ai * t;
  }

  lemma TopIsTimes(c: real, f: nat -> real, top: nat -> real, x: real, k: nat, n: nat)
    requires EndsAt(f, k) && k <= n && forall j: nat :: top(j) == c * f(j)
    ensures IsTimes(Horner(top, x, 0, n), c, Horner(f, x, 0, k))
  {
    HornerScale(c, f, top, x, 0, n);
    HornerEnds(f, x, 0, k, n);
  }

  /** The product of two polynomials; n is any length that holds it. */
  lemma {:induction false} HornerProduct(a: nat -> real, i: nat, m: nat, f: nat -> real, k: nat, x: real, n: nat)
    requires EndsAt(f, k) && i <= m && k + (m - i) <= n
    ensures IsTimes(Horner(ProductOf(a, i, m, f), x, 0, n), Horner(a, x, i, m + 1), Horner(f, x, 0, k))
    decreases m - i
  {
    var top := (j: nat) => a(i) * f(j);
    TopIsTimes(a(i), f, top, x, k, n);
    if i == m {
      OnlyTerm(a, i, f, top, x, n);
    } else {
      HornerProduct(a, i + 1, m, f, k, x, n - 1);
      MovedIsTimesX(ProductOf(a, i + 1, m, f), x, n - 1);
      ProductSum(a, i, m, f, top, x, n);
      HornerAt(a, x, i, m + 1);
      ProductStep(x, a(i), Horner(a, x, i + 1, m + 1), Horner(f, x, 0, k),
        Horner(ProductOf(a, i + 1, m, f), x, 0, n - 1), Horner(top, x, 0, n),
        Horner(Moved(ProductOf(a, i + 1, m, f)), x, 0, n), Horner(ProductOf(a, i, m, f), x, 0, n),
        Horner(a, x, i, m + 1));
    }
  }

  lemma ProductSum(a: nat -> real, i: nat, m: nat, f: nat -> real, top: nat -> real, x: real, n: nat)
    requires i < m && forall j: nat :: top(j) == a(i) * f(j)
    ensures Horner(ProductOf(a, i, m, f), x, 0, n) ==
            Horner(top, x, 0, n) + Horner(Moved(ProductOf(a, i + 1, m, f)), x, 0, n)
  {
    HornerAdd(top, Moved(ProductOf(a, i + 1, m, f)), ProductOf(a, i, m, f), x, 0, n);
  }

  lemma OnlyTerm(a: nat -> real, i: nat, f: nat -> real, top: nat -> real, x: real, n: nat)
    requires forall j: nat :: top(j) == a(i) * f(j)
    ensures Horner(ProductOf(a, i, i, f), x, 0, n) == Horner(top, x, 0, n)
    ensures Horner(a, x, i, i + 1) == a(i)
  {
    HornerLast(a, x, i);
    HornerSame(ProductOf(a, i, i, f), top, x, 0, n);
  }

  /** g is f moved down by one place. */
  lemma {:induction false} HornerShifted(f: nat -> real, g: nat -> real, x: real, i: nat, n: nat)
    requires forall j: nat :: g(j) == f(j + 1)
    ensures Horner(f, x, i + 1, n + 1) == Horner(g, x, i, n)
    decreases n - i
  {
    if i < n {
      HornerShifted(f, g, x, i + 1, n);
      HornerAt(f, x, i + 1, n + 1);
      HornerAt(g, x, i, n);
    }
  }

  lemma {:induction false} HornerAgree(f: nat -> real, g: nat -> real, x: real, i: nat, n: nat)
    requires forall j: nat :: i <= j < n ==> f(j) == g(j)
    ensures Horner(f, x, i, n) == Horner(g, x, i, n)
    decreases n - i
  {
    if i < n {
      HornerAgree(f, g, x, i + 1, n);
      HornerAt(f, x, i, n);
      HornerAt(g, x, i, n);
    }
  }

  lemma HornerMinus(f: nat -> real, g: nat -> real, h: nat -> real, x: real, n: nat)
    requires forall j: nat :: h(j) == f(j) - g(j)
    ensures Horner(h, x, 0, n) == Horner(f, x, 0, n) - Horner(g, x, 0, n)
  {
    var m := (j: nat) => -1.0 * g(j);
    HornerScale(-1.0, g, m, x, 0, n);
    HornerAdd(f, m, h, x, 0, n);
  }

  lemma {:induction false} HornerSame(f: nat -> real, g: nat -> real, x: real, i: nat, n: nat)
    requires forall j: nat :: f(j) == g(j)
    ensures Horner(f, x, i, n) == Horner(g, x, i, n)
    decreases n - i
  {
    if i < n {
      HornerSame(f, g, x, i + 1, n);
      HornerAt(f, x, i, n);
      HornerAt(g, x, i, n);
    }
  }

  /** The terms of even and odd degree apart: a scheme from an even i on. */
  lemma {:induction false} EvenAndOdd(f: nat -> real, even: nat -> real, odd: nat -> real, y: real, z: real, i: nat, m: nat)
    requires i <= m && z == y * y
    requires forall j: nat :: even(j) == f(2 * j) && odd(j) == f(2 * j + 1)
    ensures Horner(f, y, 2 * i, 2 * m) == MulAdd(y, Horner(odd, z, i, m), Horner(even, z, i, m))
    decreases m - i
  {
    if i < m {
      EvenAndOdd(f, even, odd, y, z, i + 1, m);
      HornerAt(f, y, 2 * i, 2 * m);
      HornerAt(f, y, 2 * i + 1, 2 * m);
      HornerAt(even, z, i, m);
      HornerAt(odd, z, i, m);
      EvenOddStep(y, z, f(2 * i), f(2 * i + 1), Horner(even, z, i + 1, m), Horner(odd, z, i + 1, m));
    }
  }

  lemma EvenOddStep(y: real, z: real, a: real, b: real, e: real, o: real)
    requires z == y * y
    ensures MulAdd(y, MulAdd(y, MulAdd(y, o, e), b), a) == MulAdd(y, MulAdd(z, o, b), MulAdd(z, e, a))
  {
    assert y * (y * o + e) == z * o + y * e;
    assert y * (z * o + y * e + b) == y * (z * o + b) + z * e;
  }

  /** b * 3^k */
  function Tripled(b: real, k: nat): real
    decreases k, b
  {
    if k == 0 then b else 3.0 * Tripled(b, k - 1)
  }

  /** Nearby coefficients give nearby values, here up to 3^(n-i) times their distance. */
  lemma {:induction false} HornersNear(f: nat -> real, g: nat -> real, x: real, i: nat, n: nat, gap: real)
    requires Within(x, 1.5) && gap >= 0.0 && i <= n
    requires forall j: nat :: j < n ==> Within(f(j) - g(j), gap)
    ensures Within(Horner(f, x, i, n) - Horner(g, x, i, n), Tripled(gap, n - i)) && Tripled(gap, n - i) >= gap
    decreases n - i
  {
    if i < n {
      HornersNear(f, g, x, i + 1, n, gap);
      HornerAt(f, x, i, n);
      HornerAt(g, x, i, n);
      var b := Tripled(gap, n - i - 1);
      SchemesStep(x, f(i), g(i), Horner(f, x, i + 1, n), Horner(g, x, i + 1, n), gap, 1.5, b, 3.0 * b);
    }
  }

  /** b * 1.5^k */
  function Grown(b: real, k: nat): real
    decreases k, b
  {
    if k == 0 then b else 1.5 * Grown(b, k - 1)
  }

  /** More terms change a value by at most 1.5^(m-i) times their own. */
  lemma {:induction false} MoreTerms(f: nat -> real, x: real, i: nat, m: nat, n: nat, b: real)
    requires i <= m <= n && Within(x, 1.5) && Within(Horner(f, x, m, n), b)
    ensures Within(Horner(f, x, i, n) - Horner(f, x, i, m), Grown(b, m - i))
    decreases m - i
  {
    if i == m {
      HornerNone(f, x, m);
    } else {
      MoreTerms(f, x, i + 1, m, n, b);
      HornerAt(f, x, i, n);
      HornerAt(f, x, i, m);
      var g := Grown(b, m - i - 1);
      SchemesStep(x, f(i), f(i), Horner(f, x, i + 1, n), Horner(f, x, i + 1, m), 0.0, 1.5, g, 1.5 * g);
    }
  }

  lemma HornerNone(f: nat -> real, x: real, m: nat)
    ensures Horner(f, x, m, m) == 0.0
  {
  }

  /** c / 10^k */
  function Tenth(c: real, k: nat): real
    decreases k, c
  {
    if k == 0 then c else Tenth(c, k - 1) / 10.0
  }

  /** From base on, the coefficients are at most c, c/10, c/100, ... */
  ghost predicate FallsFrom(f: nat -> real, base: nat, c: real) {
    forall j: nat :: j >= base ==> Within(f(j), Tenth(c, j - base))
  }

  lemma {:induction false} FallingTail(f: nat -> real, x: real, base: nat, c: real, i: nat, n: nat)
    requires Within(x, 1.5) && FallsFrom(f, base, c) && i >= base && c >= 0.0
    ensures Within(Horner(f, x, i, n), 1.2 * Tenth(c, i - base)) && Tenth(c, i - base) >= 0.0
    decreases n - i
  {
    TenthIsPositive(c, i - base);
    if i < n {
      FallingTail(f, x, base, c, i + 1, n);
      HornerAt(f, x, i, n);
      var b := Tenth(c, i - base);
      assert Tenth(c, i + 1 - base) == b / 10.0;
      SchemesStep(x, f(i), 0.0, Horner(f, x, i + 1, n), 0.0, b, 1.5, 0.12 * b, 1.2 * b);
    }
  }

  lemma {:induction false} TenthIsPositive(c: real, k: nat)
    requires c >= 0.0
    ensures Tenth(c, k) >= 0.0
    decreases k
  {
    if k > 0 {
      TenthIsPositive(c, k - 1);
    }
  }
}
