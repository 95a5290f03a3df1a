/** How fast a series of deals covers the deck: a union bound on the chance that a further hand
    shows a card not dealt before. */
module Covering {
  import opened Reals
  import opened Sums
  import opened Binomial
  import opened Collisions

  // ----- hands that miss what has been dealt -----

  /** Pascal's rule, step by step: each further card adds at most C(D-1, h-1) hands. */
  lemma {:induction false} Climb(D: nat, h: nat, u: nat, j: nat)
    requires h >= 1 && u <= j <= D
    ensures Choose(j, h) <= Choose(u, h) + Times(j - u, if D == 0 then 0 else Choose(D - 1, h - 1))
    decreases j
  {
    if u < j {
      Climb(D, h, u, j - 1);
      ChooseMonotone(j - 1, D - 1, h - 1);
    }
  }

  /** D * (C(D, h) - C(u, h)) <= h * (D - u) * C(D, h). */
  lemma {:induction false} MissedHands(D: nat, h: nat, u: nat)
    requires 1 <= h <= D && u <= D
    ensures D * (Choose(D, h) - Choose(u, h)) <= (D - u) * (h * Choose(D, h))
  {
    Climb(D, h, u, D);
    TimesIs(D - u, Choose(D - 1, h - 1));
    ChooseAbsorb(D, h);
    MissedAlgebra(D, D - u, Choose(D - 1, h - 1), Choose(D, h) - Choose(u, h), h * Choose(D, h));
  }

  lemma MissedAlgebra(d: int, m: int, k: int, missed: int, all: int)
    requires d >= 0 && missed <= m * k && all == d * k
    ensures d * missed <= m * all
  {
    assert d * missed <= d * (m * k);
    assert d * (m * k) == m * (d * k);
  }

  // ----- the chance of covering, from below -----

  /** The union bound, as a function of the number of distinct cards dealt. */
  function UnionBound(a: real, b: real): int -> real {
    u => a * Count()(u) + b
  }

  lemma ChanceAlgebra(d: real, h: real, c: real, u: real, k: real, a: real, b: real, y: real)
    requires d > 0.0 && c > 0.0 && a == h / d && b == 1.0 - h && y == k / c
    requires d * (c - k) <= (d - u) * (h * c)
    ensures a * u + b <= y
  {
    assert y * c == k && a * d == h;
    var z := y - (a * u + (1.0 - h));
    assert (d * c) * z == d * k - (a * d) * (u * c) - d * c + (d * c) * h;
    assert (d - u) * (h * c) == d * h * c - u * h * c;
    assert (d * c) * z >= 0.0;
    if z < 0.0 {
      StrictScale(d * c, z, 0.0);
    }
  }

  lemma {:induction false} ChanceAtLeast(D: nat, h: nat, u: nat, a: real, b: real, x: real)
    requires 0 < D && h <= D && u <= D && a == h as real / D as real && b == 1.0 - h as real && x == u as real
    ensures a * x + b <= CoverChance(D, h)(u)
  {
    if h == 0 {
      EmptyHand(D, u, a, x);
    } else {
      MissedHands(D, h, u);
      ChanceFromHands(D, h, u, Choose(D, h), Choose(u, h), a, b, x);
    }
  }

  lemma EmptyHand(D: nat, u: nat, a: real, x: real)
    requires a == 0.0
    ensures a * x == 0.0 && CoverChance(D, 0)(u) == 1.0
  {
    assert Choose(u, 0) == 1 && Choose(D, 0) == 1;
    ZeroProduct(x, a);
    Commute(a, x);
  }

  lemma {:induction false} ChanceFromHands(D: nat, h: nat, u: nat, c: nat, k: nat, a: real, b: real, x: real)
    requires 0 < D && h <= D && c == Choose(D, h) && k == Choose(u, h)
    requires a == h as real / D as real && b == 1.0 - h as real && x == u as real
    requires D * (c - k) <= (D - u) * (h * c)
    ensures a * x + b <= CoverChance(D, h)(u)
  {
    ChoosePositive(D, h);
    MissedAsReals(D, h, u, c, k);
    ChanceAlgebra(D as real, h as real, c as real, x, k as real, a, b, CoverChance(D, h)(u));
  }

  lemma MissedAsReals(D: int, h: int, u: int, c: int, k: int)
    requires D * (c - k) <= (D - u) * (h * c)
    ensures D as real * (c as real - k as real) <= (D as real - u as real) * (h as real * c as real)
  {
    RealProduct(D, c - k);
    RealProduct(h, c);
    RealProduct(D - u, h * c);
  }

  /** After n deals, a further hand is covered with a chance of at least 1 - h*(1-h/D)^n. */
  lemma {:induction false} CoverAtLeast(D: nat, h: nat, n: nat)
    requires 0 < D && h <= D && n >= 1
    ensures Mean(DistAfter(D, h, n), CoverChance(D, h)) >= 1.0 - h as real * Pow(Keep(D, h), n)
  {
    var a, b := h as real / D as real, 1.0 - h as real;
    SeriesMass(D, h, n);
    SeriesExpectation(D, h, n);
    AboveUnionBound(D, h, DistAfter(D, h, n), a, b);
    UnionBoundMean(DistAfter(D, h, n), Count(), UnionBound(a, b), a, b);
    BoundAlgebra(D as real, h as real, a, b, Pow(Keep(D, h), n), Mean(DistAfter(D, h, n), Count()),
                 Mean(DistAfter(D, h, n), UnionBound(a, b)));
  }

  lemma BoundAt(D: nat, h: nat, u: nat, a: real, b: real)
    requires 0 < D && h <= D && u <= D && a == h as real / D as real && b == 1.0 - h as real
    ensures UnionBound(a, b)(u) <= CoverChance(D, h)(u)
  {
    ChanceAtLeast(D, h, u, a, b, Count()(u));
  }

  lemma {:induction false} AboveUnionBound(D: nat, h: nat, dist: seq<real>, a: real, b: real)
    requires 0 < D && h <= D && |dist| == D + 1 && NonNegative(dist)
    requires a == h as real / D as real && b == 1.0 - h as real
    ensures Mean(dist, UnionBound(a, b)) <= Mean(dist, CoverChance(D, h))
  {
    var f, g := UnionBound(a, b), CoverChance(D, h);
    forall u | 0 <= u < |dist|
      ensures f(u) <= g(u)
    {
      BoundAt(D, h, u, a, b);
    }
    MeanMono(dist, f, g);
  }

  lemma {:induction false} UnionBoundMean(dist: seq<real>, f: int -> real, g: int -> real, a: real, b: real)
    requires Total(dist) == 1.0 && forall u :: 0 <= u < |dist| ==> g(u) == a * f(u) + b
    ensures Mean(dist, g) == a * Mean(dist, f) + b * 1.0
  {
    TotalIsMean(dist);
    MeanAffine(dist, f, g, a, b, 1.0);
  }

  lemma BoundAlgebra(d: real, h: real, a: real, b: real, p: real, e: real, m: real)
    requires d > 0.0 && a == h / d && b == 1.0 - h && e == d * (1.0 - p) && m == a * e + b * 1.0
    ensures m == 1.0 - h * p
  {
    assert a * d == h;
    assert a * (d * (1.0 - p)) == (a * d) * (1.0 - p);
  }

  // ----- and how soon that is a half -----

  lemma {:induction false} PowNonNegative(x: real, n: nat)
    requires x >= 0.0
    ensures Pow(x, n) >= 0.0
  {
    if n > 0 {
      PowNonNegative(x, n - 1);
      ProductNonNegative(x, Pow(x, n - 1));
    }
  }

  /** (1-x)^n * (1 + n*x) <= 1. */
  lemma {:induction false} Bernoulli(x: real, n: nat)
    requires 0.0 <= x <= 1.0
    ensures Pow(1.0 - x, n) * (1.0 + n as real * x) <= 1.0
  {
    if n > 0 {
      Bernoulli(x, n - 1);
      PowNonNegative(1.0 - x, n - 1);
      BernoulliStep(x, (n - 1) as real, Pow(1.0 - x, n - 1), Pow(1.0 - x, n), n as real);
    }
  }

  lemma BernoulliStep(x: real, m: real, p: real, p': real, m': real)
    requires m >= 0.0 && p >= 0.0 && m' == m + 1.0 && p' == (1.0 - x) * p && p * (1.0 + m * x) <= 1.0
    ensures p' * (1.0 + m' * x) <= 1.0
  {
    var loss := (m + 1.0) * (x * x);
    assert (1.0 - x) * (1.0 + (m + 1.0) * x) == 1.0 + m * x - loss;
    assert x * x >= 0.0;
    ProductNonNegative(m + 1.0, x * x);
    ProductNonNegative(p, loss);
    assert ((1.0 - x) * p) * (1.0 + (m + 1.0) * x) == p * ((1.0 - x) * (1.0 + (m + 1.0) * x));
    assert p * (1.0 + m * x - loss) == p * (1.0 + m * x) - p * loss;
  }

  lemma HalfAlgebra(h: real, p: real, y: real)
    requires h >= 0.0 && p >= 0.0 && y >= 2.0 * h && p * (1.0 + y) <= 1.0
    ensures h * p <= 0.5
  {
    ScaleMono(p, 2.0 * h, y);
    assert p * (1.0 + y) == p + y * p;
    assert (2.0 * h) * p == 2.0 * (h * p);
  }

  /** Twice as many deals as there are cards make it more likely than not that a further hand is
      covered. */
  lemma {:induction false} CoveredByHalf(D: nat, h: nat, n: nat)
    requires 0 < D && h <= D && n >= 2 * D
    ensures Mean(DistAfter(D, h, n), CoverChance(D, h)) >= 0.5
  {
    var x := h as real / D as real;
    QuotientBounds(x, D as real, h as real);
    Bernoulli(x, n);
    PowNonNegative(1.0 - x, n);
    ManyDeals(D as real, h as real, x, n as real);
    HalfAlgebra(h as real, Pow(1.0 - x, n), n as real * x);
    CoverAtLeast(D, h, n);
  }

  lemma ManyDeals(d: real, h: real, x: real, n: real)
    requires d > 0.0 && h >= 0.0 && x == h / d && n >= 2.0 * d
    ensures n * x >= 2.0 * h
  {
    assert x * d == h && x >= 0.0;
    ScaleMono(x, 2.0 * d, n);
    assert (2.0 * d) * x == 2.0 * (x * d);
  }
}
