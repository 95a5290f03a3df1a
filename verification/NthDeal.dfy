/** The collision-analysis program of the KEP: the loops of `choose`, `sum` and `nthDeal`,
    over exact reals in place of float64, proved against the functions of Collisions. */
module NthDeal {
  import opened Sums
  import opened Sorting
  import opened Binomial
  import opened Collisions
  import opened Covering

  /** The number of subsets of size m of a set of size n. */
  method ChooseLoop(n: nat, m: nat) returns (ans: real)
    ensures ans == Choose(n, m) as real
  {
    if m == 0 || m == n {
      ChooseFull(n);
      return 1.0;
    }
    ans := n as real;
    ChooseStep(n, 0);
    var i := 1;
    while i < m
      invariant 1 <= i <= m
      invariant ans == Choose(n, i) as real
    {
      LoopStep(n, i, ans);
      ans := ans * (n - i) as real / (i + 1) as real;
      i := i + 1;
    }
  }

  lemma LoopStep(n: nat, i: nat, ans: real)
    requires ans == Choose(n, i) as real
    ensures ans * (n - i) as real / (i + 1) as real == Choose(n, i + 1) as real
  {
    ChooseStep(n, i);
    DivideOut(Choose(n, i), n - i, Choose(n, i + 1), i + 1);
  }

  lemma DivideOut(a: int, b: int, x: int, c: int)
    requires c > 0 && x * c == a * b
    ensures a as real * b as real / c as real == x as real
  {
    RealProduct(a, b);
    RealProduct(x, c);
    CancelRight(x as real, c as real);
  }

  lemma CancelRight(x: real, c: real)
    requires c > 0.0
    ensures x * c / c == x
  {
  }

  /** The sum of a slice, added up in ascending order. */
  method SumLoop(v: seq<real>) returns (s: real)
    ensures s == Total(v)
  {
    var c := MergeSort(v, x => x);
    s := 0.0;
    var i := 0;
    while i < |c|
      invariant 0 <= i <= |c|
      invariant s == Total(c[..i])
    {
      assert c[..i + 1] == c[..i] + [c[i]];
      TotalAppend(c[..i], c[i]);
      s := s + c[i];
      i := i + 1;
    }
    assert c[..i] == c;
    MergeSortCorrect(v, x => x);
    TotalPermutation(c, v);
  }

  lemma TotalPermutation(a: seq<real>, b: seq<real>)
    requires multiset(a) == multiset(b)
    ensures Total(a) == Total(b)
  {
    var id := (x: real) => x;
    WeighPermutation(a, b, id);
    WeighIsTotal(a, id);
    WeighIsTotal(b, id);
  }

  lemma {:induction false} WeighIsTotal(v: seq<real>, id: real -> real)
    requires forall x :: id(x) == x
    ensures Weigh(v, id) == Total(v)
  {
    if v != [] {
      WeighIsTotal(v[1..], id);
      TotalCons(v);
    }
  }

  /** One way to get to nUnique distinct cards: `news` of them are new in this deal. */
  method Contribution(handSize: nat, deckSize: nat, prevDist: seq<real>, nUnique: nat, news: nat)
      returns (cont: real)
    requires news <= handSize <= nUnique <= deckSize && |prevDist| == deckSize + 1
    ensures cont == Inflows(deckSize, handSize, prevDist, nUnique)(news)
  {
    var prevUnique := nUnique - news;
    var unseen := ChooseLoop(deckSize - prevUnique, news);
    var seen := ChooseLoop(prevUnique, handSize - news);
    var ways := unseen * seen;
    WaysProduct(deckSize, handSize, prevUnique, news, unseen, seen);
    cont := ways * prevDist[prevUnique];
    InflowEntry(deckSize, handSize, prevDist, nUnique, news, ways, prevDist[prevUnique]);
  }

  lemma {:induction false} WaysProduct(D: nat, h: nat, p: nat, k: nat, x: real, y: real)
    requires p <= D && k <= h
    requires x == Choose(D - p, k) as real && y == Choose(p, h - k) as real
    ensures x * y == Ways(D, h, p, k)
  {
    RealProduct(Choose(D - p, k), Choose(p, h - k));
  }

  lemma InflowEntry(D: nat, h: nat, prev: seq<real>, u: nat, k: nat, w: real, x: real)
    requires w == Ways(D, h, u - k, k) && x == At(prev, u - k)
    ensures w * x == Inflows(D, h, prev, u)(k)
  {
  }

  /** The entries for nUnique distinct cards, given what the earlier deals left. */
  method Entry(handSize: nat, deckSize: nat, prevDist: seq<real>, nUnique: nat)
      returns (prob: real, share: real, next: real)
    requires handSize <= nUnique <= deckSize && |prevDist| == deckSize + 1
    ensures prob == NextDist(deckSize, handSize, prevDist)[nUnique]
    ensures share == Spread(NextDist(deckSize, handSize, prevDist), Count())[nUnique]
    ensures next == Spread(NextDist(deckSize, handSize, prevDist), CoverChance(deckSize, handSize))[nUnique]
  {
    var inflow := InflowLoop(handSize, deckSize, prevDist, nUnique);
    var all := ChooseLoop(deckSize, handSize);
    var cover := ChooseLoop(nUnique, handSize);
    ChoosePositive(deckSize, handSize);
    prob := inflow / all;
    share := prob * nUnique as real;
    next := prob * cover / all;
    Reassociate(prob, cover, all);
  }

  /** The terms of the average of g under dist. */
  function Spread(dist: seq<real>, g: int -> real): (v: seq<real>)
    ensures |v| == |dist|
  {
    seq(|dist|, u requires 0 <= u < |dist| => dist[u] * g(u))
  }

  lemma TotalOfSpread(dist: seq<real>, g: int -> real)
    ensures Total(Spread(dist, g)) == Mean(dist, g)
  {
    var v := Spread(dist, g);
    forall i | 0 <= i < |v|
      ensures At(v, i) == Weighted(dist, g)(i)
    {
      assert v[i] == dist[i] * g(i);
    }
    SumExt(i => At(v, i), Weighted(dist, g), 0, |v|);
  }

  method FirstEntries(handSize: nat, deckSize: nat)
      returns (dist: seq<real>, expects: seq<real>, nexts: seq<real>)
    requires handSize <= deckSize
    ensures dist == Certain(deckSize, handSize)
    ensures expects == Spread(dist, Count())
    ensures nexts == Spread(dist, CoverChance(deckSize, handSize))
  {
    var d := new real[deckSize + 1](_ => 0.0);
    var e := new real[deckSize + 1](_ => 0.0);
    var x := new real[deckSize + 1](_ => 0.0);
    d[handSize] := 1.0;
    e[handSize] := handSize as real;
    var all := ChooseLoop(deckSize, handSize);
    ChoosePositive(deckSize, handSize);
    ChooseFull(handSize);
    x[handSize] := 1.0 / all;
    dist, expects, nexts := d[..], e[..], x[..];
  }

  lemma NothingBelow(D: nat, h: nat, prev: seq<real>, g: int -> real)
    requires h <= D
    ensures forall u :: 0 <= u < h ==> NextDist(D, h, prev)[u] == Spread(NextDist(D, h, prev), g)[u] == 0.0
  {
  }

  method LaterEntries(handSize: nat, deckSize: nat, prevDist: seq<real>)
      returns (dist: seq<real>, expects: seq<real>, nexts: seq<real>)
    requires handSize <= deckSize && |prevDist| == deckSize + 1
    ensures dist == NextDist(deckSize, handSize, prevDist)
    ensures expects == Spread(dist, Count())
    ensures nexts == Spread(dist, CoverChance(deckSize, handSize))
  {
    var d := new real[deckSize + 1](_ => 0.0);
    var e := new real[deckSize + 1](_ => 0.0);
    var x := new real[deckSize + 1](_ => 0.0);
    ghost var goal := NextDist(deckSize, handSize, prevDist);
    ghost var goalE, goalX := Spread(goal, Count()), Spread(goal, CoverChance(deckSize, handSize));
    NothingBelow(deckSize, handSize, prevDist, Count());
    NothingBelow(deckSize, handSize, prevDist, CoverChance(deckSize, handSize));
    var nUnique := handSize;
    while nUnique <= deckSize
      invariant handSize <= nUnique <= deckSize + 1
      invariant d[..nUnique] == goal[..nUnique]
      invariant e[..nUnique] == goalE[..nUnique]
      invariant x[..nUnique] == goalX[..nUnique]
    {
      d[nUnique], e[nUnique], x[nUnique] := Entry(handSize, deckSize, prevDist, nUnique);
      nUnique := nUnique + 1;
    }
    dist, expects, nexts := d[..], e[..], x[..];
    assert d[..] == d[..nUnique] && e[..] == e[..nUnique] && x[..] == x[..nUnique];
  }

  /** One more shuffle and deal of handSize distinct cards from deckSize. */
  method NthDeal(first: bool, handSize: nat, deckSize: nat, prevDist: seq<real>)
      returns (dist: seq<real>, distSum: real, expectedUniques: real, probNextCovered: real)
    requires handSize <= deckSize
    requires !first ==> |prevDist| == deckSize + 1
    ensures dist == if first then Certain(deckSize, handSize) else NextDist(deckSize, handSize, prevDist)
    ensures distSum == Total(dist)
    ensures expectedUniques == Mean(dist, Count())
    ensures probNextCovered == Mean(dist, CoverChance(deckSize, handSize))
  {
    var expects: seq<real>, nexts: seq<real>;
    if first {
      dist, expects, nexts := FirstEntries(handSize, deckSize);
    } else {
      dist, expects, nexts := LaterEntries(handSize, deckSize, prevDist);
    }
    distSum := SumLoop(dist);
    expectedUniques := SumLoop(expects);
    probNextCovered := SumLoop(nexts);
    TotalOfSpread(dist, Count());
    TotalOfSpread(dist, CoverChance(deckSize, handSize));
  }

  lemma Reassociate(x: real, y: real, c: real)
    requires c > 0.0
    ensures x * y / c == x * (y / c)
  {
  }

  method InflowLoop(handSize: nat, deckSize: nat, prevDist: seq<real>, nUnique: nat) returns (inflow: real)
    requires handSize <= nUnique <= deckSize && |prevDist| == deckSize + 1
    ensures inflow == Sum(Inflows(deckSize, handSize, prevDist, nUnique), 0, handSize + 1)
  {
    var conts := new real[handSize + 1](_ => 0.0);
    ghost var inflows := Inflows(deckSize, handSize, prevDist, nUnique);
    var news := 0;
    while news <= handSize
      invariant 0 <= news <= handSize + 1
      invariant forall k :: 0 <= k < news ==> conts[k] == inflows(k)
    {
      var c := Contribution(handSize, deckSize, prevDist, nUnique, news);
      conts[news] := c;
      news := news + 1;
    }
    inflow := SumLoop(conts[..]);
    ghost var v := conts[..];
    SumExt(i => At(v, i), inflows, 0, handSize + 1);
  }

  /** Tabulates deals, each fed the distribution of the one before, until a further hand is
      covered with a chance of at least 0.01; that is after twice as many deals as
      there are cards at the latest. */
  method DealUntilCovered(handSize: nat, deckSize: nat)
      returns (hands: nat, dist: seq<real>, distSum: real, expected: real, covered: real)
    requires 0 < deckSize && handSize <= deckSize
    ensures 1 <= hands <= 2 * deckSize && dist == DistAfter(deckSize, handSize, hands)
    ensures distSum == 1.0 && expected == Expected(deckSize, Keep(deckSize, handSize), hands)
    ensures covered == CoveredAfter(deckSize, handSize, hands) && 0.01 <= covered <= 1.0
    ensures forall n :: 1 <= n < hands ==> CoveredAfter(deckSize, handSize, n) < 0.01
  {
    hands, dist, distSum, expected, covered := DealLoop(handSize, deckSize);
    SeriesResults(deckSize, handSize, hands, distSum, expected, covered);
  }

  method DealLoop(handSize: nat, deckSize: nat)
      returns (hands: nat, dist: seq<real>, distSum: real, expected: real, covered: real)
    requires 0 < deckSize && handSize <= deckSize
    ensures 1 <= hands <= 2 * deckSize && covered >= 0.01 && NoneCovered(deckSize, handSize, hands)
    ensures InSeries(deckSize, handSize, hands, dist, distSum, expected, covered)
  {
    hands, dist, distSum, expected, covered := 0, [], 0.0, 0.0, 0.0;
    while covered < 0.01
      invariant hands <= 2 * deckSize && InSeries(deckSize, handSize, hands, dist, distSum, expected, covered)
      invariant NoneCovered(deckSize, handSize, hands)
      decreases 2 * deckSize - hands
    {
      CoveredInTime(deckSize, handSize, hands);
      dist, distSum, expected, covered := DealAgain(hands, handSize, deckSize, dist, distSum, expected, covered);
      hands := hands + 1;
    }
  }

  /** These are the results of the call that came last in a series of so many. */
  ghost predicate InSeries(D: nat, h: nat, hands: nat, dist: seq<real>, distSum: real, expected: real, covered: real)
    requires h <= D
  {
    if hands == 0 then covered == 0.0
    else
      && dist == DistAfter(D, h, hands) && covered == CoveredAfter(D, h, hands)
      && distSum == Total(dist) && expected == Mean(dist, Count())
  }

  /** No deal before this one had a chance of 0.01. */
  ghost predicate NoneCovered(D: nat, h: nat, hands: nat)
    requires h <= D
  {
    forall n :: 1 <= n < hands ==> CoveredAfter(D, h, n) < 0.01
  }

  /** The next call in a series. */
  method DealAgain(hands: nat, handSize: nat, deckSize: nat, prevDist: seq<real>,
                   ghost prevSum: real, ghost prevExpected: real, ghost prevCovered: real)
      returns (dist: seq<real>, distSum: real, expected: real, covered: real)
    requires handSize <= deckSize
    requires InSeries(deckSize, handSize, hands, prevDist, prevSum, prevExpected, prevCovered)
    ensures InSeries(deckSize, handSize, hands + 1, dist, distSum, expected, covered)
  {
    dist, distSum, expected, covered := NthDeal(hands == 0, handSize, deckSize, prevDist);
  }

  lemma {:induction false} CoveredInTime(D: nat, h: nat, n: nat)
    requires 0 < D && h <= D
    ensures n >= 2 * D ==> CoveredAfter(D, h, n) >= 0.01
  {
    if n >= 2 * D {
      CoveredByHalf(D, h, n);
    }
  }

  /** probNextCovered after n deals. */
  ghost function CoveredAfter(D: nat, h: nat, n: nat): real
    requires h <= D && n >= 1
  {
    Mean(DistAfter(D, h, n), CoverChance(D, h))
  }

  lemma {:induction false} SeriesResults(D: nat, h: nat, n: nat, total: real, expected: real, covered: real)
    requires 0 < D && h <= D && n >= 1 && total == Total(DistAfter(D, h, n))
    requires expected == Mean(DistAfter(D, h, n), Count()) && covered == CoveredAfter(D, h, n)
    ensures total == 1.0 && expected == Expected(D, Keep(D, h), n) && 0.0 <= covered <= 1.0
  {
    SeriesMass(D, h, n);
    SeriesExpectation(D, h, n);
    SeriesCover(D, h, n);
  }
}
