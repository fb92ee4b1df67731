/** Finite power series over the reals and their Horner form. */
module Series {

  /** |x| <= b */
  predicate Within(x: real, b: real) { -b <= x <= b }

  /** x*y + c, the multiply-add that every polynomial evaluation is made of. */
  function MulAdd(x: real, y: real, c: real): real { x * y + c }

  function Power(x: real, n: nat): real { if n == 0 then 1.0 else MulAdd(x, Power(x, n - 1), 0.0) }

  /** f(0) + f(1)*x + ... + f(n-1)*x^(n-1), term by term. */
  function Sum(f: nat -> real, x: real, n: nat): real {
    if n == 0 then 0.0 else MulAdd(f(n - 1), Power(x, n - 1), Sum(f, x, n - 1))
  }

  /**
   f(i) + x*(f(i+1) + x*(... + x*f(n-1))). x is in the measure so that calls with literal i and n are not
   unrolled all at once.
   */
  function Horner(f: nat -> real, x: real, i: nat, n: nat): real
    decreases n - i, x
  {
    if i >= n then 0.0 else MulAdd(x, Horner(f, x, i + 1, n), f(i))
  }

  lemma HornerAt(f: nat -> real, x: real, i: nat, n: nat)
    requires i < n
    ensures Horner(f, x, i, n) == MulAdd(x, Horner(f, x, i + 1, n), f(i))
  {
  }

  lemma HornerLast(f: nat -> real, x: real, i: nat)
    ensures Horner(f, x, i, i + 1) == f(i)
  {
  }

  predicate Unfold(i: nat) { true }

  /**
   r is the inner value of the scheme at i. The equation can be used only where Unfold is mentioned: a long
   evaluation is then followed step by step, and never as one polynomial of high degree.
   */
  ghost predicate IsHorner(f: nat -> real, x: real, i: nat, n: nat, r: real) {
    forall j: nat {:trigger Unfold(j)} :: j == i ==> r == Horner(f, x, j, n)
  }

  lemma HornerValue(f: nat -> real, x: real, i: nat, n: nat, r: real)
    requires IsHorner(f, x, i, n, r)
    ensures r == Horner(f, x, i, n)
  {
    assert Unfold(i);
  }

  /** The start of an evaluation, a = c. */
  method HornerStart(x: real, c: real, ghost f: nat -> real, ghost i: nat) returns (r: real)
    requires c == f(i)
    ensures r == c && IsHorner(f, x, i, i + 1, r)
  {
    r := c;
    HornerLast(f, x, i);
  }

  /** One step of an evaluation, a = x*a + c. */
  method HornerStep(x: real, a: real, c: real, ghost f: nat -> real, ghost i: nat, ghost n: nat) returns (r: real)
    requires i < n && c == f(i) && IsHorner(f, x, i + 1, n, a)
    ensures IsHorner(f, x, i, n, r)
  {
    r := MulAdd(x, a, c);
    HornerValue(f, x, i + 1, n, a);
    HornerAt(f, x, i, n);
  }

  lemma MoveTerm(s: real, p: real, x: real, c: real, h: real)
    ensures MulAdd(MulAdd(x, p, 0.0), h, MulAdd(c, p, s)) == MulAdd(p, MulAdd(x, h, c), s)
  {
    assert (x * p) * h == p * (x * h);
    assert p * (c + x * h) == c * p + p * (x * h);
  }

  lemma {:induction false} SumIsPrefixPlusHorner(f: nat -> real, x: real, i: nat, n: nat)
    requires i <= n
    ensures Sum(f, x, n) == MulAdd(Power(x, i), Horner(f, x, i, n), Sum(f, x, i))
    decreases n - i
  {
    if i < n {
      SumIsPrefixPlusHorner(f, x, i + 1, n);
      MoveTerm(Sum(f, x, i), Power(x, i), x, f(i), Horner(f, x, i + 1, n));
    }
  }

  lemma SumIsHorner(f: nat -> real, x: real, n: nat)
    ensures Sum(f, x, n) == Horner(f, x, 0, n)
  {
    SumIsPrefixPlusHorner(f, x, 0, n);
  }

  lemma ProductWithin(x: real, y: real, p: real, q: real)
    requires Within(x, p) && Within(y, q)
    ensures Within(x * y, p * q)
  {
    var a, b := if x < 0.0 then -x else x, if y < 0.0 then -y else y;
    NonNegativeProduct(a, b, p, q);
    if x < 0.0 {
      assert x * y == -(a * y);
    }
    if y < 0.0 {
      assert a * y == -(a * b);
    }
  }

  lemma NonNegativeProduct(a: real, b: real, p: real, q: real)
    requires 0.0 <= a <= p && 0.0 <= b <= q
    ensures 0.0 <= a * b <= p * q
  {
    assert a * b <= p * b;
    assert p * b <= p * q;
  }

  /** One Horner step keeps a bound. */
  lemma StepWithin(c: real, x: real, h: real, bc: real, q: real, b: real, r: real)
    requires Within(c, bc) && Within(x, q) && Within(h, b) && bc + q * b <= r
    ensures Within(MulAdd(x, h, c), r)
  {
    ProductWithin(x, h, q, b);
  }

  /** One step of two Horner schemes side by side. */
  lemma SchemesStep(x: real, c: real, f: real, a: real, h: real, d: real, q: real, b: real, r: real)
    requires Within(x, q) && Within(c - f, d) && Within(a - h, b) && d + q * b <= r
    ensures Within(MulAdd(x, a, c) - MulAdd(x, h, f), r)
  {
    StepWithin(c - f, x, a - h, d, q, b, r);
    assert x * (a - h) == x * a - x * h;
  }

  /** A tail whose coefficients are at most c is at most b when c + q*b <= b, however long it is. */
  lemma {:induction false} HornerWithin(f: nat -> real, x: real, i: nat, n: nat, c: real, q: real, b: real)
    requires Within(x, q) && 0.0 <= b && c + q * b <= b
    requires forall j: nat :: j >= i ==> Within(f(j), c)
    ensures Within(Horner(f, x, i, n), b)
    decreases n - i
  {
    if i < n {
      HornerWithin(f, x, i + 1, n, c, q, b);
      StepWithin(f(i), x, Horner(f, x, i + 1, n), c, q, b, b);
    }
  }

  lemma LeftClose(x: real, y: real, v: real, dx: real, m: real)
    requires Within(x - v, dx) && Within(y, m)
    ensures Within(x * y - v * y, dx * m)
  {
    ProductWithin(x - v, y, dx, m);
    assert (x - v) * y == x * y - v * y;
  }

  /** x*y - v*w for nearby pairs. */
  lemma ProductsClose(x: real, y: real, v: real, w: real, dx: real, dy: real, m: real, bv: real)
    requires Within(x - v, dx) && Within(y - w, dy) && Within(y, m) && Within(v, bv)
    ensures Within(x * y - v * w, dx * m + dy * bv)
  {
    LeftClose(x, y, v, dx, m);
    LeftClose(y, v, w, dy, bv);
  }

  /** A Horner scheme with bounded coefficients moves by at most e for a move of x by d, if e*q + d*b <= e. */
  lemma {:induction false} HornerLipschitz(f: nat -> real, x: real, y: real, i: nat, n: nat, c: real, q: real, b: real, d: real, e: real)
    requires Within(x, q) && Within(y, q) && Within(x - y, d) && 0.0 <= b && c + q * b <= b
    requires forall j: nat :: j >= i ==> Within(f(j), c)
    requires 0.0 <= e && e * q + d * b <= e
    ensures Within(Horner(f, x, i, n) - Horner(f, y, i, n), e)
    decreases n - i
  {
    if i < n {
      HornerLipschitz(f, x, y, i + 1, n, c, q, b, d, e);
      HornerWithin(f, y, i + 1, n, c, q, b);
      LipschitzStep(f(i), x, y, Horner(f, x, i + 1, n), Horner(f, y, i + 1, n), q, b, d, e);
    }
  }

  lemma LipschitzStep(c: real, x: real, y: real, g: real, h: real, q: real, b: real, d: real, e: real)
    requires Within(x, q) && Within(x - y, d) && Within(h, b) && Within(g - h, e)
    requires e * q + d * b <= e
    ensures Within(MulAdd(x, g, c) - MulAdd(y, h, c), e)
  {
    ProductsClose(g, x, h, y, e, d, q, b);
  }
}
