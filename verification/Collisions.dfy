/** Probability of collisions: the Markov step over the number of distinct cards dealt
    (the KEP's `choose`, `sum` and `nthDeal`), over exact reals. */
module Collisions {
  import opened Sums
  import opened Binomial

  // ----- the step, as a function on distributions -----

  /** The ways in which a hand of h cards out of D can add k cards to p distinct ones. */
  function WayCount(D: nat, h: nat, p: nat, k: nat): nat
    requires p <= D && k <= h
  {
    Choose(D - p, k) * Choose(p, h - k)
  }

  function Ways(D: nat, h: nat, p: int, k: int): real {
    if 0 <= p <= D && 0 <= k <= h then WayCount(D, h, p, k) as real else 0.0
  }

  /** The number of hands. */
  function Hands(D: nat, h: nat): (c: real)
    requires h <= D
    ensures c >= 1.0
  {
    ChoosePositive(D, h);
    Choose(D, h) as real
  }

  /** The mass that reaches u distinct cards by drawing k new ones, before normalising. */
  function Inflows(D: nat, h: nat, prev: seq<real>, u: int): int -> real {
    k => Ways(D, h, u - k, k) * At(prev, u - k)
  }

  function NextDist(D: nat, h: nat, prev: seq<real>): (next: seq<real>)
    requires h <= D
    ensures |next| == D + 1
  {
    seq(D + 1, u => if u < h then 0.0 else Sum(Inflows(D, h, prev, u), 0, h + 1) / Hands(D, h))
  }

  /** All mass on one outcome. */
  function Certain(D: nat, at: nat): (dist: seq<real>)
    ensures |dist| == D + 1
  {
    seq(D + 1, u => if u == at then 1.0 else 0.0)
  }

  /** The average of g under a distribution. */
  function Mean(dist: seq<real>, g: int -> real): real {
    Sum(Weighted(dist, g), 0, |dist|)
  }

  function Weighted(dist: seq<real>, g: int -> real): int -> real {
    u => At(dist, u) * g(u)
  }

  function Count(): int -> real {
    u => u as real
  }

  /** The chance that a hand from D cards falls within u given ones. */
  function CoverChance(D: nat, h: nat): int -> real
    requires h <= D
  {
    u => if u < 0 then 0.0 else Choose(u, h) as real / Hands(D, h)
  }

  // ----- the backward view of a step -----

  /** What k new cards on top of p contribute to the average of g one deal later. */
  function Outlook(D: nat, h: nat, g: int -> real, p: int): int -> real {
    k => Ways(D, h, p, k) * g(p + k)
  }

  /** The average of g one deal after having p distinct cards. */
  function Back(D: nat, h: nat, g: int -> real): int -> real
    requires h <= D
  {
    p => Sum(Outlook(D, h, g, p), 0, h + 1) / Hands(D, h)
  }

  lemma WaysOutside(D: nat, h: nat, p: int, k: int)
    requires 0 <= k <= h
    requires p < 0 || p + k > D || p + k < h
    ensures Ways(D, h, p, k) == 0.0
  {
    if 0 <= p <= D {
      if p + k > D {
        ChooseBeyond(D - p, k);
      } else {
        ChooseBeyond(p, h - k);
      }
    }
  }

  /** Below handSize distinct cards no mass arrives, so the source's loop may start there. */
  lemma {:induction false} InflowBelow(D: nat, h: nat, prev: seq<real>, u: int)
    requires u < h
    ensures Sum(Inflows(D, h, prev, u), 0, h + 1) == 0.0
  {
    forall k | 0 <= k < h + 1
      ensures Inflows(D, h, prev, u)(k) == 0.0
    {
      WaysOutside(D, h, u - k, k);
    }
    SumZero(Inflows(D, h, prev, u), 0, h + 1);
  }

  /** The mass moving from p to p + k distinct cards, weighted by g. */
  function Flow(D: nat, h: nat, prev: seq<real>, g: int -> real): (int, int) -> real {
    (p, k) => At(prev, p) * Outlook(D, h, g, p)(k)
  }

  /** The same flow, indexed by where it arrives. */
  function Arriving(D: nat, h: nat, prev: seq<real>, g: int -> real): (int, int) -> real {
    (u, k) => Flow(D, h, prev, g)(u - k, k)
  }

  lemma FlowOutside(D: nat, h: nat, prev: seq<real>, g: int -> real, p: int, k: int)
    requires 0 <= k <= h
    requires p < 0 || p + k > D
    ensures Column(Flow(D, h, prev, g), k)(p) == 0.0
  {
    WaysOutside(D, h, p, k);
    assert Outlook(D, h, g, p)(k) == Ways(D, h, p, k) * g(p + k);
  }

  /** For a fixed number k of new cards, summing over arrivals is summing over departures. */
  lemma {:induction false} ArrivalsAreDepartures(D: nat, h: nat, prev: seq<real>, g: int -> real, k: int)
    requires 0 <= k <= h <= D
    ensures Sum(Column(Arriving(D, h, prev, g), k), 0, D + 1)
         == Sum(Column(Flow(D, h, prev, g), k), 0, D + 1)
  {
    forall p | p < 0 || p + k > D
      ensures Column(Flow(D, h, prev, g), k)(p) == 0.0
    {
      FlowOutside(D, h, prev, g, p, k);
    }
    SumShiftWithin(Column(Flow(D, h, prev, g), k), Column(Arriving(D, h, prev, g), k), k, D + 1);
  }

  lemma FlowIsInflow(D: nat, h: nat, prev: seq<real>, g: int -> real, u: int, k: int)
    ensures Arriving(D, h, prev, g)(u, k) == g(u) * Inflows(D, h, prev, u)(k)
  {
    var p := u - k;
    assert p + k == u;
    assert Flow(D, h, prev, g)(p, k) == At(prev, p) * Outlook(D, h, g, p)(k);
    Regroup(Ways(D, h, p, k), At(prev, p), g(u), Outlook(D, h, g, p)(k), Inflows(D, h, prev, u)(k));
  }

  lemma Regroup(x: real, y: real, z: real, xz: real, xy: real)
    requires xz == x * z && xy == x * y
    ensures y * xz == z * xy
  {
  }

  lemma MultiplyOut(x: real, c: real, y: real)
    requires c > 0.0
    ensures c * (x / c * y) == y * x == c * (y * (x / c))
  {
    assert c * (x / c) == x;
  }

  lemma TermOfNext(D: nat, h: nat, prev: seq<real>, g: int -> real, u: int)
    requires h <= D && 0 <= u <= D
    ensures RowSums(Arriving(D, h, prev, g), 0, h + 1)(u)
         == Hands(D, h) * Weighted(NextDist(D, h, prev), g)(u)
  {
    forall k | 0 <= k < h + 1
      ensures Arriving(D, h, prev, g)(u, k) == g(u) * Inflows(D, h, prev, u)(k)
    {
      FlowIsInflow(D, h, prev, g, u, k);
    }
    ScaledRow(Arriving(D, h, prev, g), u, g(u), Inflows(D, h, prev, u), h + 1);
    NextEntry(D, h, prev, u);
    MultiplyOut(Sum(Inflows(D, h, prev, u), 0, h + 1), Hands(D, h), g(u));
  }

  lemma {:induction false} NextEntry(D: nat, h: nat, prev: seq<real>, u: int)
    requires h <= D && 0 <= u <= D
    ensures At(NextDist(D, h, prev), u) == Sum(Inflows(D, h, prev, u), 0, h + 1) / Hands(D, h)
  {
    if u < h {
      InflowBelow(D, h, prev, u);
    }
  }

  lemma TermOfBack(D: nat, h: nat, prev: seq<real>, g: int -> real, p: int)
    requires h <= D
    ensures RowSums(Flow(D, h, prev, g), 0, h + 1)(p)
         == Hands(D, h) * Weighted(prev, Back(D, h, g))(p)
  {
    ScaledRow(Flow(D, h, prev, g), p, At(prev, p), Outlook(D, h, g, p), h + 1);
    MultiplyOut(Sum(Outlook(D, h, g, p), 0, h + 1), Hands(D, h), At(prev, p));
  }

  /** The average of g after a deal is the average, before it, of the expectation of g one
      deal later; every law of the step below is this duality at a particular g. */
  lemma Duality(D: nat, h: nat, prev: seq<real>, g: int -> real)
    requires h <= D && |prev| == D + 1
    ensures Mean(NextDist(D, h, prev), g) == Mean(prev, Back(D, h, g))
  {
    var n, m := D + 1, h + 1;
    var arriving, flow := Arriving(D, h, prev, g), Flow(D, h, prev, g);
    var after, before := Weighted(NextDist(D, h, prev), g), Weighted(prev, Back(D, h, g));
    forall u | 0 <= u < n
      ensures RowSums(arriving, 0, m)(u) == Hands(D, h) * after(u)
    {
      TermOfNext(D, h, prev, g, u);
    }
    forall u | 0 <= u < n
      ensures RowSums(flow, 0, m)(u) == Hands(D, h) * before(u)
    {
      TermOfBack(D, h, prev, g, u);
    }
    forall k | 0 <= k < m
      ensures ColumnSums(arriving, 0, n)(k) == ColumnSums(flow, 0, n)(k)
    {
      ArrivalsAreDepartures(D, h, prev, g, k);
    }
    EqualColumns(arriving, flow, after, before, Hands(D, h), n, m);
  }

  // ----- probability is conserved -----

  function One(): int -> real {
    u => 1.0
  }

  lemma TotalIsMean(dist: seq<real>)
    ensures Total(dist) == Mean(dist, One())
  {
    SumExt(i => At(dist, i), Weighted(dist, One()), 0, |dist|);
  }

  lemma {:induction false} OutlookOfOne(D: nat, h: nat, p: nat, k: nat)
    requires p <= D && k <= h
    ensures Sum(Outlook(D, h, One(), p), 0, k + 1) == Convolution(D - p, p, h, k) as real
    decreases k
  {
    if k > 0 {
      OutlookOfOne(D, h, p, k - 1);
    } else {
      assert Sum(Outlook(D, h, One(), p), 0, 0) == 0.0;
    }
    assert Outlook(D, h, One(), p)(k) == (Choose(D - p, k) * Choose(p, h - k)) as real;
  }

  lemma BackOfOne(D: nat, h: nat, p: nat)
    requires h <= D && p <= D
    ensures Back(D, h, One())(p) == 1.0
  {
    OutlookOfOne(D, h, p, h);
    Vandermonde(D - p, p, h);
    Unit(Sum(Outlook(D, h, One(), p), 0, h + 1), Hands(D, h));
  }

  lemma Unit(x: real, c: real)
    requires x == c && c > 0.0
    ensures x / c == 1.0
  {
  }

  /** A deal moves probability around and neither creates nor destroys any. */
  lemma NextConservesMass(D: nat, h: nat, prev: seq<real>)
    requires h <= D && |prev| == D + 1
    ensures Total(NextDist(D, h, prev)) == Total(prev)
  {
    Duality(D, h, prev, One());
    forall p | 0 <= p < D + 1
      ensures Weighted(prev, Back(D, h, One()))(p) == Weighted(prev, One())(p)
    {
      BackOfOne(D, h, p);
    }
    SumExt(Weighted(prev, Back(D, h, One())), Weighted(prev, One()), 0, D + 1);
    TotalIsMean(prev);
    TotalIsMean(NextDist(D, h, prev));
  }

  ghost predicate NonNegative(dist: seq<real>) {
    forall u :: 0 <= u < |dist| ==> dist[u] >= 0.0
  }

  lemma NextNonNegative(D: nat, h: nat, prev: seq<real>)
    requires h <= D && |prev| == D + 1 && NonNegative(prev)
    ensures NonNegative(NextDist(D, h, prev))
  {
    var next := NextDist(D, h, prev);
    forall u | h <= u < |next|
      ensures next[u] >= 0.0
    {
      forall k | 0 <= k < h + 1
        ensures 0.0 <= Inflows(D, h, prev, u)(k)
      {
        ProductNonNegative(Ways(D, h, u - k, k), At(prev, u - k));
      }
      var zero := (k: int) => 0.0;
      SumZero(zero, 0, h + 1);
      SumMono(zero, Inflows(D, h, prev, u), 0, h + 1);
      QuotientNonNegative(Sum(Inflows(D, h, prev, u), 0, h + 1), Hands(D, h));
    }
  }

  lemma ProductNonNegative(x: real, y: real)
    requires x >= 0.0 && y >= 0.0
    ensures x * y >= 0.0
  {
  }

  lemma QuotientNonNegative(x: real, c: real)
    requires x >= 0.0 && c > 0.0
    ensures x / c >= 0.0
  {
  }

  // ----- the expected number of distinct cards -----

  lemma {:induction false} OutlookOfCount(D: nat, h: nat, p: nat, k: nat)
    requires p <= D && k <= h
    ensures Sum(Outlook(D, h, Count(), p), 0, k + 1)
         == (p * Convolution(D - p, p, h, k) + IndexedConvolution(D - p, p, h, k)) as real
    decreases k
  {
    var w := Choose(D - p, k) * Choose(p, h - k);
    OutlookOfCountTerm(D, h, p, k);
    if k > 0 {
      OutlookOfCount(D, h, p, k - 1);
      DistributeLeft(p, w, Convolution(D - p, p, h, k - 1));
    } else {
      assert Sum(Outlook(D, h, Count(), p), 0, 0) == 0.0;
    }
  }

  lemma {:induction false} OutlookOfCountTerm(D: nat, h: nat, p: nat, k: nat)
    requires p <= D && k <= h
    ensures Outlook(D, h, Count(), p)(k)
         == (p * (Choose(D - p, k) * Choose(p, h - k)) + k * (Choose(D - p, k) * Choose(p, h - k))) as real
  {
    var w := Choose(D - p, k) * Choose(p, h - k);
    Distribute(p, k, w);
    RealProduct(w, p + k);
  }

  lemma RealProduct(x: int, y: int)
    ensures x as real * y as real == (x * y) as real
    ensures x * y == y * x
  {
  }

  /** From p distinct cards, a deal is expected to reach y of them, with
      D*(y - p) = h*(D - p). */
  lemma BackOfCount(D: nat, h: nat, p: nat, y: real)
    requires 0 < D && h <= D && p <= D && y == Back(D, h, Count())(p)
    ensures D as real * (y - p as real) == (h * (D - p)) as real
  {
    OutlookOfCount(D, h, p, h);
    Vandermonde(D - p, p, h);
    HypergeometricMean(D - p, p, h);
    ChoosePositive(D, h);
    MeanQuotient(D, h, p, Choose(D, h), IndexedConvolution(D - p, p, h, h), y);
  }

  lemma MeanQuotient(D: nat, h: nat, p: nat, c: nat, i: nat, y: real)
    requires c > 0 && p <= D
    requires D * i == ((D - p) * h) * c
    requires y == (p * c + i) as real / c as real
    ensures D as real * (y - p as real) == (h * (D - p)) as real
  {
    RealProduct(D, i);
    RealProduct((D - p) * h, c);
    RealProduct(p, c);
    RealProduct(h, D - p);
    RealQuotient(D as real, p as real, c as real, i as real, ((D - p) * h) as real, y);
  }

  lemma RealQuotient(d: real, p: real, c: real, i: real, z: real, y: real)
    requires c > 0.0 && d * i == z * c && y == (p * c + i) / c
    ensures d * (y - p) == z
  {
    assert y * c == p * c + i;
    assert (d * (y - p)) * c == d * (y * c - p * c) == z * c;
  }

  /** The fraction of unseen cards that a deal leaves unseen, on average. */
  function Keep(D: nat, h: nat): real
    requires 0 < D
  {
    1.0 - h as real / D as real
  }

  /** Linear in the distribution: E' = E*(1 - h/D) + h*mass, which for a probability
      distribution is E + h*(D-E)/D. */
  lemma NextExpectation(D: nat, h: nat, prev: seq<real>)
    requires 0 < D && h <= D && |prev| == D + 1
    ensures Mean(NextDist(D, h, prev), Count()) == Keep(D, h) * Mean(prev, Count()) + h as real * Total(prev)
  {
    KeepForm(D, h, Keep(D, h), h as real);
    ExpectationOf(D, h, prev, Count(), Back(D, h, Count()), Keep(D, h), h as real);
  }

  lemma {:induction false} ExpectationOf(D: nat, h: nat, prev: seq<real>, f: int -> real, g: int -> real,
                                         a: real, b: real)
    requires h <= D && |prev| == D + 1 && g == Back(D, h, f)
    requires forall p :: 0 <= p <= D ==> g(p) == a * f(p) + b
    ensures Mean(NextDist(D, h, prev), f) == a * Mean(prev, f) + b * Total(prev)
  {
    Duality(D, h, prev, f);
    TotalIsMean(prev);
    MeanAffine(prev, f, g, a, b, Total(prev));
  }

  lemma KeepForm(D: nat, h: nat, a: real, b: real)
    requires 0 < D && h <= D && a == Keep(D, h) && b == h as real
    ensures forall p :: 0 <= p <= D ==> Back(D, h, Count())(p) == a * Count()(p) + b
  {
    forall p | 0 <= p <= D
      ensures Back(D, h, Count())(p) == a * Count()(p) + b
    {
      KeepTerm(D, h, p, a, Count()(p));
    }
  }

  lemma KeepTerm(D: nat, h: nat, p: nat, a: real, x: real)
    requires 0 < D && h <= D && p <= D && a == Keep(D, h) && x == p as real
    ensures Back(D, h, Count())(p) == a * x + h as real
  {
    var y := Back(D, h, Count())(p);
    BackOfCount(D, h, p, y);
    RealProduct(h, D - p);
    KeepAlgebra(D as real, h as real, x, a, y);
  }

  lemma KeepAlgebra(d: real, h: real, p: real, a: real, y: real)
    requires d > 0.0 && a == 1.0 - h / d && d * (y - p) == h * (d - p)
    ensures y == a * p + h
  {
    var q := h / d;
    assert q * d == h;
    assert d * (y - p) == d * (h - q * p);
  }

  /** Averaging is linear. */
  lemma MeanAffine(dist: seq<real>, f: int -> real, g: int -> real, a: real, b: real, mass: real)
    requires forall u :: 0 <= u < |dist| ==> g(u) == a * f(u) + b
    requires mass == Mean(dist, One())
    ensures Mean(dist, g) == a * Mean(dist, f) + b * mass
  {
    forall u | 0 <= u < |dist|
      ensures Weighted(dist, g)(u) == a * Weighted(dist, f)(u) + b * Weighted(dist, One())(u)
    {
      AffineTerm(dist[u], f(u), g(u), a, b);
    }
    SumAffine(a, Weighted(dist, f), b, Weighted(dist, One()), Weighted(dist, g), 0, |dist|);
  }

  lemma AffineTerm(m: real, x: real, y: real, a: real, b: real)
    requires y == a * x + b
    ensures m * y == a * (m * x) + b * (m * 1.0)
  {
  }

  // ----- the chance that the next hand is already covered -----

  lemma CoverChanceBounds(D: nat, h: nat, u: nat)
    requires h <= D && u <= D
    ensures 0.0 <= CoverChance(D, h)(u) <= 1.0
  {
    ChooseMonotone(u, D, h);
    QuotientMono(0.0, Choose(u, h) as real, Hands(D, h));
    QuotientMono(Choose(u, h) as real, Choose(D, h) as real, Hands(D, h));
  }

  lemma QuotientMono(x: real, y: real, c: real)
    requires x <= y && c > 0.0
    ensures x / c <= y / c && 0.0 / c == 0.0 && c / c == 1.0
  {
  }

  lemma CoverChanceMono(D: nat, h: nat, p: nat, k: nat)
    requires h <= D
    ensures CoverChance(D, h)(p) <= CoverChance(D, h)(p + k)
  {
    ChooseMonotone(p, p + k, h);
    QuotientMono(Choose(p, h) as real, Choose(p + k, h) as real, Hands(D, h));
  }

  lemma BackOfCover(D: nat, h: nat, p: nat)
    requires h <= D && p <= D
    ensures Back(D, h, CoverChance(D, h))(p) >= CoverChance(D, h)(p)
  {
    var y, ones, covers := CoverChance(D, h)(p), Outlook(D, h, One(), p), Outlook(D, h, CoverChance(D, h), p);
    forall k | 0 <= k < h + 1
      ensures y * ones(k) <= covers(k)
    {
      CoverTerm(D, h, p, k, y, ones(k), covers(k));
    }
    SumScaleLe(y, ones, covers, 0, h + 1);
    BackOfOne(D, h, p);
    CoverQuotient(y, Sum(ones, 0, h + 1), Sum(covers, 0, h + 1), Hands(D, h));
  }

  lemma CoverTerm(D: nat, h: nat, p: nat, k: nat, y: real, one: real, cover: real)
    requires h <= D && y == CoverChance(D, h)(p)
    requires one == Outlook(D, h, One(), p)(k) && cover == Outlook(D, h, CoverChance(D, h), p)(k)
    ensures y * one <= cover
  {
    CoverChanceMono(D, h, p, k);
    assert one == Ways(D, h, p, k) * 1.0;
    ScaleUnit(Ways(D, h, p, k), y, CoverChance(D, h)(p + k));
  }

  /** With the unit that the weights of One carry. */
  lemma ScaleUnit(w: real, x: real, y: real)
    requires w >= 0.0 && x <= y
    ensures x * (w * 1.0) <= w * y
  {
  }

  lemma CoverQuotient(y: real, ones: real, s: real, c: real)
    requires c > 0.0 && ones / c == 1.0 && y * ones <= s
    ensures y <= s / c
  {
    assert ones == c;
    QuotientMono(y * c, s, c);
    assert y * c / c == y;
  }

  lemma {:induction false} MeanMono(dist: seq<real>, f: int -> real, g: int -> real)
    requires NonNegative(dist)
    requires forall u :: 0 <= u < |dist| ==> f(u) <= g(u)
    ensures Mean(dist, f) <= Mean(dist, g)
  {
    forall u | 0 <= u < |dist|
      ensures Weighted(dist, f)(u) <= Weighted(dist, g)(u)
    {
      ScaleUnit(dist[u], f(u), g(u));
    }
    SumMono(Weighted(dist, f), Weighted(dist, g), 0, |dist|);
  }

  /** Another deal never makes it less likely that the following hand is covered. */
  lemma NextCoverGrows(D: nat, h: nat, prev: seq<real>)
    requires h <= D && |prev| == D + 1 && NonNegative(prev)
    ensures Mean(NextDist(D, h, prev), CoverChance(D, h)) >= Mean(prev, CoverChance(D, h))
  {
    Duality(D, h, prev, CoverChance(D, h));
    forall p | 0 <= p < |prev|
      ensures CoverChance(D, h)(p) <= Back(D, h, CoverChance(D, h))(p)
    {
      BackOfCover(D, h, p);
    }
    MeanMono(prev, CoverChance(D, h), Back(D, h, CoverChance(D, h)));
  }

  lemma CoverIsProbability(D: nat, h: nat, dist: seq<real>)
    requires h <= D && |dist| == D + 1 && NonNegative(dist) && Total(dist) == 1.0
    ensures 0.0 <= Mean(dist, CoverChance(D, h)) <= 1.0
  {
    var zero := (u: int) => 0.0;
    forall u | 0 <= u < |dist|
      ensures zero(u) <= CoverChance(D, h)(u) <= One()(u)
    {
      CoverChanceBounds(D, h, u);
    }
    MeanMono(dist, zero, CoverChance(D, h));
    MeanMono(dist, CoverChance(D, h), One());
    TotalIsMean(dist);
    SumZero(Weighted(dist, zero), 0, |dist|);
  }

  // ----- whole series of deals -----

  /** The distribution that n successive calls of nthDeal arrive at. */
  function DistAfter(D: nat, h: nat, n: nat): (dist: seq<real>)
    requires h <= D && n >= 1
    ensures |dist| == D + 1
  {
    if n == 1 then Certain(D, h) else NextDist(D, h, DistAfter(D, h, n - 1))
  }

  lemma CertainMean(D: nat, at: nat, g: int -> real)
    requires at <= D
    ensures Mean(Certain(D, at), g) == g(at)
  {
    var dist := Certain(D, at);
    var f := Weighted(dist, g);
    forall u | 0 <= u < D + 1
      ensures f(u) == if u == at then g(at) else 0.0
    {
      CertainTerm(D, at, u, g(u));
    }
    SumPoint(f, at, 0, D + 1);
  }

  lemma CertainTerm(D: nat, at: nat, u: nat, x: real)
    requires at <= D && u <= D
    ensures At(Certain(D, at), u) * x == if u == at then x else 0.0
  {
  }

  lemma {:induction false} SeriesMass(D: nat, h: nat, n: nat)
    requires h <= D && n >= 1
    ensures NonNegative(DistAfter(D, h, n)) && Total(DistAfter(D, h, n)) == 1.0
    decreases n
  {
    if n == 1 {
      TotalIsMean(Certain(D, h));
      CertainMean(D, h, One());
    } else {
      SeriesMass(D, h, n - 1);
      NextNonNegative(D, h, DistAfter(D, h, n - 1));
      NextConservesMass(D, h, DistAfter(D, h, n - 1));
    }
  }

  /** D*(1 - q^n): what is expected after n deals that each leave the fraction q of the
      unseen cards unseen. */
  function Expected(D: nat, q: real, n: nat): real {
    D as real * (1.0 - Pow(q, n))
  }

  /** The expected number of distinct cards after n deals. */
  lemma {:induction false} SeriesExpectation(D: nat, h: nat, n: nat)
    requires 0 < D && h <= D && n >= 1
    ensures Mean(DistAfter(D, h, n), Count()) == Expected(D, Keep(D, h), n)
    decreases n
  {
    if n == 1 {
      FirstInSeries(D, h, Keep(D, h));
    } else {
      SeriesExpectation(D, h, n - 1);
      NextInSeries(D, h, n - 1, Keep(D, h));
    }
  }

  lemma {:induction false} FirstInSeries(D: nat, h: nat, q: real)
    requires 0 < D && h <= D && q == Keep(D, h)
    ensures Mean(DistAfter(D, h, 1), Count()) == Expected(D, q, 1)
  {
    CertainMean(D, h, Count());
    PowOne(q);
    FirstExpectation(D as real, h as real, q);
  }

  lemma {:induction false} NextInSeries(D: nat, h: nat, n: nat, q: real)
    requires 0 < D && h <= D && n >= 1 && q == Keep(D, h)
    requires Mean(DistAfter(D, h, n), Count()) == Expected(D, q, n)
    ensures Mean(DistAfter(D, h, n + 1), Count()) == Expected(D, q, n + 1)
  {
    SeriesMass(D, h, n);
    ExpectationStep(D, h, DistAfter(D, h, n), Pow(q, n), Pow(q, n + 1));
  }

  lemma {:induction false} PowOne(q: real)
    ensures Pow(q, 1) == q
  {
    assert Pow(q, 1) == q * Pow(q, 0);
  }

  lemma FirstExpectation(d: real, h: real, q: real)
    requires d > 0.0 && q == 1.0 - h / d
    ensures h == d * (1.0 - q)
  {
    assert d * (h / d) == h;
  }

  lemma {:induction false} ExpectationStep(D: nat, h: nat, prev: seq<real>, x: real, x': real)
    requires 0 < D && h <= D && |prev| == D + 1 && Total(prev) == 1.0
    requires Mean(prev, Count()) == D as real * (1.0 - x) && x' == Keep(D, h) * x
    ensures Mean(NextDist(D, h, prev), Count()) == D as real * (1.0 - x')
  {
    NextExpectation(D, h, prev);
    ExpectationAlgebra(D as real, h as real, Keep(D, h), x, x', Mean(prev, Count()), Total(prev),
                       Mean(NextDist(D, h, prev), Count()));
  }

  lemma ExpectationAlgebra(d: real, h: real, q: real, x: real, x': real, e: real, mass: real, e': real)
    requires d > 0.0 && q == 1.0 - h / d && x' == q * x
    requires e == d * (1.0 - x) && mass == 1.0 && e' == q * e + h * mass
    ensures e' == d * (1.0 - x')
  {
    assert d * (h / d) == h;
    assert d * q == d - h;
    calc {
      q * (d * (1.0 - x)) + h;
      (d * q) * (1.0 - x) + h;
      d * q - (d * q) * x + h;
      d - d * (q * x);
    }
  }

  lemma SeriesCover(D: nat, h: nat, n: nat)
    requires h <= D && n >= 1
    ensures 0.0 <= Mean(DistAfter(D, h, n), CoverChance(D, h)) <= 1.0
    ensures n > 1 ==>
      Mean(DistAfter(D, h, n - 1), CoverChance(D, h)) <= Mean(DistAfter(D, h, n), CoverChance(D, h))
  {
    SeriesMass(D, h, n);
    CoverIsProbability(D, h, DistAfter(D, h, n));
    if n > 1 {
      SeriesMass(D, h, n - 1);
      NextCoverGrows(D, h, DistAfter(D, h, n - 1));
    }
  }
}
