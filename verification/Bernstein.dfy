/**
 Bounds of a polynomial on [0, l] from its Bernstein coefficients: they are the values of its polar form at
 zeros and l's, and its values on the interval are means of them.
 */
module Bernstein {
  import opened Series

  // ---- Means and weights ----

  /** (1-t)*a + t*b */
  function Mean(t: real, a: real, b: real): real { MulAdd(t, b - a, a) }

  function Weighted(w: real, y: real, p: real): real { w * (y * p) }

  lemma WeightedMean(w: real, y: real, t: real, a: real, b: real)
    ensures Weighted(w, y, Mean(t, a, b)) == Mean(t, Weighted(w, y, a), Weighted(w, y, b))
  {
    var d := b - a;
    assert y * (t * d + a) == t * (y * d) + y * a;
    assert w * (t * (y * d) + y * a) == t * (w * (y * d)) + w * (y * a);
    assert y * d == y * b - y * a;
    assert w * (y * b - y * a) == w * (y * b) - w * (y * a);
  }

  lemma WeightedSum(w: real, v: real, y: real, p: real)
    ensures Weighted(w + v, y, p) == Weighted(w, y, p) + Weighted(v, y, p)
  {
  }

  lemma WeightedScaled(w: real, t: real, l: real, p: real)
    ensures Weighted(w, t * l, p) == MulAdd(t, Weighted(w, l, p), 0.0)
  {
    assert t * l * p == t * (l * p);
    assert w * (t * (l * p)) == t * (w * (l * p));
  }

  /** k/m */
  function Part(k: nat, m: nat): real
    requires m > 0
  {
    k as real / m as real
  }

  lemma PartNext(k: nat, m: nat)
    requires m > 0
    ensures Part(k + 1, m) == Part(k, m) + Part(1, m)
  {
  }

  lemma PartEnds(m: nat)
    requires m > 0
    ensures Part(0, m) == 0.0 && Part(m, m) == 1.0
  {
  }

  lemma MeanSum(t: real, c: real, a0: real, a1: real, b0: real, b1: real, e: real)
    ensures Mean(t, c + a0 + b0, c + (a1 + e) + b1) == c + Mean(t, a0, a1) + (Mean(t, b0, b1) + MulAdd(t, e, 0.0))
  {
    assert t * (a1 + e + b1 - a0 - b0) == t * (a1 - a0) + t * (b1 - b0) + t * e;
  }

  predicate Between(x: real, lo: real, hi: real) { lo <= x <= hi }

  lemma NonNegative(u: real, v: real)
    requires u >= 0.0 && v >= 0.0
    ensures u * v >= 0.0
  {
  }

  lemma MeanAbove(t: real, a: real, b: real, lo: real)
    requires 0.0 <= t <= 1.0 && lo <= a && lo <= b
    ensures lo <= Mean(t, a, b)
  {
    NonNegative(t, b - lo);
    NonNegative(1.0 - t, a - lo);
  }

  lemma MeanBelow(t: real, a: real, b: real, hi: real)
    requires 0.0 <= t <= 1.0 && a <= hi && b <= hi
    ensures Mean(t, a, b) <= hi
  {
    NonNegative(t, hi - b);
    NonNegative(1.0 - t, hi - a);
  }

  lemma MeanBetween(t: real, a: real, b: real, lo: real, hi: real)
    requires 0.0 <= t <= 1.0 && Between(a, lo, hi) && Between(b, lo, hi)
    ensures Between(Mean(t, a, b), lo, hi)
  {
    MeanAbove(t, a, b, lo);
    MeanBelow(t, a, b, hi);
  }

  // ---- The polar form ----

  /**
   The polar form of the polynomial with coefficients f(i), ..., f(n) at j arguments l, r arguments x, and
   zeros for the rest of its n - i arguments.
   */
  function Polar(f: nat -> real, x: real, l: real, i: nat, n: nat, j: nat, r: nat): real
    requires i <= n && j + r <= n - i
    decreases n - i, x
  {
    if i == n then f(i)
    else
      f(i)
      + Weighted(Part(j, n - i), l, if j == 0 then 0.0 else Polar(f, x, l, i + 1, n, j - 1, r))
      + Weighted(Part(r, n - i), x, if r == 0 then 0.0 else Polar(f, x, l, i + 1, n, j, r - 1))
  }

  lemma PolarStep(f: nat -> real, x: real, l: real, i: nat, n: nat, j: nat, r: nat, a: real, b: real)
    requires i < n && j + r <= n - i
    requires a == if j == 0 then 0.0 else Polar(f, x, l, i + 1, n, j - 1, r)
    requires b == if r == 0 then 0.0 else Polar(f, x, l, i + 1, n, j, r - 1)
    ensures Polar(f, x, l, i, n, j, r) == f(i) + Weighted(Part(j, n - i), l, a) + Weighted(Part(r, n - i), x, b)
  {
  }

  /** With every argument x it is the polynomial. */
  lemma {:induction false} PolarIsHorner(f: nat -> real, x: real, l: real, i: nat, n: nat)
    requires i <= n
    ensures Polar(f, x, l, i, n, 0, n - i) == Horner(f, x, i, n + 1)
    decreases n - i
  {
    HornerAt(f, x, i, n + 1);
    if i < n {
      var p := Polar(f, x, l, i + 1, n, 0, n - i - 1);
      PolarIsHorner(f, x, l, i + 1, n);
      PolarStep(f, x, l, i, n, 0, n - i, 0.0, p);
      PartEnds(n - i);
      Whole(x, p, l, Part(0, n - i), Part(n - i, n - i));
    } else {
      HornerEnd(f, x, n);
    }
  }

  lemma Whole(x: real, p: real, l: real, w0: real, w1: real)
    requires w0 == 0.0 && w1 == 1.0
    ensures Weighted(w0, l, 0.0) == 0.0 && Weighted(w1, x, p) == MulAdd(x, p, 0.0)
  {
  }

  lemma HornerEnd(f: nat -> real, x: real, n: nat)
    ensures Horner(f, x, n, n + 1) == f(n)
  {
    HornerLast(f, x, n);
  }

  /** It is affine in each argument: an x at t*l is the mean of a zero and an l. */
  lemma {:induction false} PolarIsAffine(f: nat -> real, t: real, x: real, l: real, i: nat, n: nat, j: nat, r: nat)
    requires i <= n && j + r + 1 <= n - i && x == t * l
    ensures Polar(f, x, l, i, n, j, r + 1) ==
            Mean(t, Polar(f, x, l, i, n, j, r), Polar(f, x, l, i, n, j + 1, r))
    decreases n - i
  {
    var p0, p1, q0, q1 := 0.0, 0.0, 0.0, 0.0;
    if j > 0 {
      p0, p1 := Polar(f, x, l, i + 1, n, j - 1, r), Polar(f, x, l, i + 1, n, j - 1, r + 1);
      PolarIsAffine(f, t, x, l, i + 1, n, j - 1, r);
    }
    if r > 0 {
      q0, q1 := Polar(f, x, l, i + 1, n, j, r - 1), Polar(f, x, l, i + 1, n, j + 1, r - 1);
      PolarIsAffine(f, t, x, l, i + 1, n, j, r - 1);
    }
    PolarMean(f, t, x, l, i, n, j, r, p0, p1, q0, q1);
  }

  /** The step, given the values one index further in. */
  lemma PolarMean(f: nat -> real, t: real, x: real, l: real, i: nat, n: nat, j: nat, r: nat, p0: real, p1: real, q0: real, q1: real)
    requires i < n && j + r + 1 <= n - i && x == t * l
    requires p0 == if j == 0 then 0.0 else Polar(f, x, l, i + 1, n, j - 1, r)
    requires p1 == if j == 0 then 0.0 else Polar(f, x, l, i + 1, n, j - 1, r + 1)
    requires q0 == if r == 0 then 0.0 else Polar(f, x, l, i + 1, n, j, r - 1)
    requires q1 == if r == 0 then 0.0 else Polar(f, x, l, i + 1, n, j + 1, r - 1)
    requires var p := Polar(f, x, l, i + 1, n, j, r); (j > 0 ==> p1 == Mean(t, p0, p)) && (r > 0 ==> p == Mean(t, q0, q1))
    ensures Polar(f, x, l, i, n, j, r + 1) ==
            Mean(t, Polar(f, x, l, i, n, j, r), Polar(f, x, l, i, n, j + 1, r))
  {
    var m := n - i;
    var p := Polar(f, x, l, i + 1, n, j, r);
    PolarStep(f, x, l, i, n, j, r + 1, p1, p);
    PolarStep(f, x, l, i, n, j, r, p0, q0);
    PolarStep(f, x, l, i, n, j + 1, r, p, q1);
    PartNext(j, m);
    PartNext(r, m);
    PartEnds(m);
    AffineStep(f(i), t, x, l, Part(j, m), Part(r, m), Part(1, m), p, p0, p1, q0, q1);
  }

  lemma AffineStep(c: real, t: real, x: real, l: real, w: real, v: real, one: real, p: real, p0: real, p1: real, q0: real, q1: real)
    requires x == t * l
    requires w == 0.0 || p1 == Mean(t, p0, p)
    requires v == 0.0 || p == Mean(t, q0, q1)
    ensures c + Weighted(w, l, p1) + Weighted(v + one, x, p) ==
            Mean(t, c + Weighted(w, l, p0) + Weighted(v, x, q0), c + Weighted(w + one, l, p) + Weighted(v, x, q1))
  {
    WeightedMean(w, l, t, p0, p);
    WeightedMean(v, x, t, q0, q1);
    Same(w, l, p1, Mean(t, p0, p));
    Same(v, x, p, Mean(t, q0, q1));
    WeightedSum(v, one, x, p);
    WeightedSum(w, one, l, p);
    WeightedScaled(one, t, l, p);
    MeanSum(t, c, Weighted(w, l, p0), Weighted(w, l, p), Weighted(v, x, q0), Weighted(v, x, q1), Weighted(one, l, p));
  }

  lemma Same(w: real, y: real, p: real, q: real)
    requires w == 0.0 || p == q
    ensures Weighted(w, y, p) == Weighted(w, y, q)
  {
  }

  // ---- Bernstein coefficients ----

  /** The value of the polar form at j arguments l and n - i - j zeros. */
  function Coefficient(f: nat -> real, l: real, i: nat, n: nat, j: nat): real
    requires i <= n && j <= n - i
    decreases n - i, j
  {
    if i == n || j == 0 then f(i)
    else f(i) + Weighted(Part(j, n - i), l, Coefficient(f, l, i + 1, n, j - 1))
  }

  lemma {:induction false} PolarIsCoefficient(f: nat -> real, x: real, l: real, i: nat, n: nat, j: nat)
    requires i <= n && j <= n - i
    ensures Polar(f, x, l, i, n, j, 0) == Coefficient(f, l, i, n, j)
    decreases n - i
  {
    if i < n {
      PartEnds(n - i);
      if j > 0 {
        PolarIsCoefficient(f, x, l, i + 1, n, j - 1);
        PolarStep(f, x, l, i, n, j, 0, Polar(f, x, l, i + 1, n, j - 1, 0), 0.0);
      } else {
        PolarStep(f, x, l, i, n, 0, 0, 0.0, 0.0);
      }
    }
  }

  /** The line through (0, a) with slope b. */
  function OnLine(a: real, b: real, k: real): real { MulAdd(b, k, a) }

  lemma MeanOnLine(a: real, b: real, k: real, t: real, v: real, w: real)
    requires 0.0 <= t <= 1.0
    ensures OnLine(a, b, k) <= v && OnLine(a, b, k + 1.0) <= w ==> OnLine(a, b, k + t) <= Mean(t, v, w)
    ensures OnLine(a, b, k) >= v && OnLine(a, b, k + 1.0) >= w ==> OnLine(a, b, k + t) >= Mean(t, v, w)
  {
    var p, q := OnLine(a, b, k), OnLine(a, b, k + 1.0);
    LineIsMean(a, b, k, t);
    if p <= v && q <= w {
      MeanMonotone(t, p, q, v, w);
    }
    if p >= v && q >= w {
      MeanMonotone(t, v, w, p, q);
    }
  }

  lemma LineIsMean(a: real, b: real, k: real, t: real)
    ensures OnLine(a, b, k + t) == Mean(t, OnLine(a, b, k), OnLine(a, b, k + 1.0))
  {
    assert b * (k + 1.0) == b * k + b;
    assert b * (k + t) == b * k + b * t;
  }

  lemma MeanMonotone(t: real, p: real, q: real, v: real, w: real)
    requires 0.0 <= t <= 1.0 && p <= v && q <= w
    ensures Mean(t, p, q) <= Mean(t, v, w)
  {
    NonNegative(t, w - q);
    NonNegative(1.0 - t, v - p);
  }

  /** The Bernstein coefficients lie between the lines a + b*k and c + d*k. */
  ghost predicate BetweenLines(f: nat -> real, l: real, n: nat, a: real, b: real, c: real, d: real) {
    forall k: nat :: k <= n ==> OnLine(a, b, k as real) <= Coefficient(f, l, 0, n, k) <= OnLine(c, d, k as real)
  }

  predicate InLines(v: real, a: real, b: real, c: real, d: real, k: real) { OnLine(a, b, k) <= v <= OnLine(c, d, k) }

  lemma LinesStep(a: real, b: real, c: real, d: real, k: real, k1: real, kt: real, t: real, p: real, q: real, m: real)
    requires 0.0 <= t <= 1.0 && k1 == k + 1.0 && kt == k + t && m == Mean(t, p, q)
    requires InLines(p, a, b, c, d, k) && InLines(q, a, b, c, d, k1)
    ensures InLines(m, a, b, c, d, kt)
  {
    MeanOnLine(a, b, k, t, p, q);
    MeanOnLine(c, d, k, t, p, q);
  }

  /** Where on [0, n] the polar form at j arguments l and r arguments t*l stands. */
  function Position(j: nat, r: nat, t: real): real { j as real + r as real * t }

  lemma PositionStep(j: nat, r: nat, t: real)
    requires r > 0
    ensures Position(j, r, t) == Position(j, r - 1, t) + t && Position(j + 1, r - 1, t) == Position(j, r - 1, t) + 1.0
  {
    assert r as real * t == (r - 1) as real * t + t;
  }

  lemma {:induction false} PolarBetween(f: nat -> real, t: real, x: real, l: real, n: nat, j: nat, r: nat, a: real, b: real, c: real, d: real)
    requires 0.0 <= t <= 1.0 && x == t * l && j + r <= n
    requires BetweenLines(f, l, n, a, b, c, d)
    ensures InLines(Polar(f, x, l, 0, n, j, r), a, b, c, d, Position(j, r, t))
    decreases r
  {
    if r == 0 {
      PolarIsCoefficient(f, x, l, 0, n, j);
      PositionOfNone(j, t);
    } else {
      PolarBetween(f, t, x, l, n, j, r - 1, a, b, c, d);
      PolarBetween(f, t, x, l, n, j + 1, r - 1, a, b, c, d);
      PolarIsAffine(f, t, x, l, 0, n, j, r - 1);
      PositionStep(j, r, t);
      LinesStep(a, b, c, d, Position(j, r - 1, t), Position(j + 1, r - 1, t), Position(j, r, t), t,
        Polar(f, x, l, 0, n, j, r - 1), Polar(f, x, l, 0, n, j + 1, r - 1), Polar(f, x, l, 0, n, j, r));
    }
  }

  lemma PositionOfNone(j: nat, t: real)
    ensures Position(j, 0, t) == j as real
  {
  }

  lemma Fraction(x: real, l: real) returns (t: real)
    requires l > 0.0 && 0.0 <= x <= l
    ensures t == x / l && 0.0 <= t <= 1.0 && x == t * l
  {
    t := x / l;
  }

  /** On [0, l] a polynomial stays between lines that its Bernstein coefficients stay between. */
  lemma HornerBetween(f: nat -> real, x: real, l: real, n: nat, a: real, b: real, c: real, d: real) returns (k: real)
    requires l > 0.0 && 0.0 <= x <= l
    requires BetweenLines(f, l, n, a, b, c, d)
    ensures k * l == n as real * x && InLines(Horner(f, x, 0, n + 1), a, b, c, d, k)
  {
    var t := Fraction(x, l);
    k := Position(0, n, t);
    PositionOfAll(n, t, x, l);
    PolarBetween(f, t, x, l, n, 0, n, a, b, c, d);
    PolarIsHorner(f, x, l, 0, n);
  }

  lemma PositionOfAll(n: nat, t: real, x: real, l: real)
    requires x == t * l
    ensures Position(0, n, t) * l == n as real * x
  {
    assert n as real * t * l == n as real * (t * l);
  }
}
