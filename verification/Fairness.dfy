/** What an allocation means for each level, in terms of the level's own limits and demand. */
module Fairness {
  import opened Sorting
  import opened Options
  import opened Reals
  import opened Levels
  import opened FairShare
  import opened Borrowing

  /** a is to b as c is to d. */
  ghost predicate InRatio(a: real, b: real, c: real, d: real) {
    a * d == b * c
  }

  /** a is less in proportion to c than b is to d. */
  ghost predicate LessInRatio(a: real, b: real, c: real, d: real) {
    a * d < b * c
  }

  // ----- what a level needs, and what it would like -----

  /** The high demand, kept between what the level never lends and its nominal limit. */
  function Need(l: Level): int {
    if l.highDemand >= l.nominal then l.nominal
    else if l.highDemand >= l.nominal - l.lendable then l.highDemand
    else l.nominal - l.lendable
  }

  /** The smoothed demand, or the need if that is more. */
  function Wish(l: Level): real {
    if l.smoothDemand >= Need(l) as real then l.smoothDemand else Need(l) as real
  }

  function Needs(): Level -> real {
    (l: Level) => Need(l) as real
  }

  function Wishes(): Level -> real {
    (l: Level) => Wish(l)
  }

  /** What the level never lends. */
  function Kept(): Level -> real {
    (l: Level) => (l.nominal - l.lendable) as real
  }

  /** The level has borrowed all that it may. */
  predicate AtTop(l: Level, x: real) {
    l.borrowing.Some? && x == (l.nominal + l.borrowing.value) as real
  }

  /** No more than the level may borrow. */
  predicate BelowTop(l: Level, x: real) {
    l.borrowing.Some? ==> x <= (l.nominal + l.borrowing.value) as real
  }

  lemma QuantitiesAre(l: Level)
    requires ValidLevel(l)
    ensures MinCL(l) == (l.nominal - l.lendable) as real && MinCurrentCL(l) == Need(l) as real && Target(l) == Wish(l)
    ensures MaxCL(l).Finite? <==> l.borrowing.Some?
    ensures l.borrowing.Some? ==> MaxCL(l).limit == (l.nominal + l.borrowing.value) as real
  {
  }

  lemma {:induction false} SumsAre(levels: seq<Level>)
    requires ValidLevels(levels)
    ensures Weigh(levels, MinCLs()) == Weigh(levels, Kept())
    ensures Weigh(levels, MinCurrentCLs()) == Weigh(levels, Needs())
  {
    forall i | 0 <= i < |levels|
      ensures MinCLs()(levels[i]) == Kept()(levels[i]) && MinCurrentCLs()(levels[i]) == Needs()(levels[i])
    {
      QuantitiesAre(levels[i]);
    }
    WeighExt(levels, MinCLs(), Kept());
    WeighExt(levels, MinCurrentCLs(), Needs());
  }

  // ----- when everybody's need can be met -----

  /** x is w, except that it is at least the need and at most what the level may borrow. */
  ghost predicate ClippedAt(l: Level, w: real, x: real) {
    && Need(l) as real <= x && BelowTop(l, x)
    && (AtTop(l, x) || x >= w)
    && (x == Need(l) as real || x <= w)
  }

  /** One level's share at a proportion f: at least its need; at least f times its wish unless it
      has borrowed all it may; at most that unless it has no more than its need. */
  lemma ShareIs(l: Level, f: real, w: real, x: real)
    requires ValidLevel(l) && w == f * Wish(l) && x == Fair(f)(l)
    ensures ClippedAt(l, w, x)
  {
    QuantitiesAre(l);
    LevelBounds(l);
    SameProduct(f, Target(l), Wish(l));
  }

  lemma SameProduct(f: real, x: real, y: real)
    requires x == y
    ensures f * x == f * y
  {
  }

  lemma CrossAlgebra(f: real, x: real, wx: real, y: real, wy: real, fx: real, fy: real)
    requires wx >= 0.0 && wy >= 0.0 && fx == f * wx && fy == f * wy && x >= fx && y <= fy
    ensures x * wy >= y * wx
  {
    ScaleMono(wy, fx, x);
    ScaleMono(wx, y, fy);
    assert (f * wx) * wy == (f * wy) * wx;
  }

  /** A level that gets less in proportion to its wish than another has borrowed all it may, or
      the other gets no more than it needs. */
  lemma {:induction false} LessOnlyWhen(levels: seq<Level>, remaining: real, cl: seq<real>, i: nat, j: nat)
    requires ValidLevels(levels) && IsAllocation(levels, remaining, cl) && Weigh(levels, Needs()) < remaining
    requires i < |levels| && j < |levels|
    ensures |cl| == |levels|
    ensures LessInRatio(cl[i], cl[j], Wish(levels[i]), Wish(levels[j])) ==>
      AtTop(levels[i], cl[i]) || cl[j] == Need(levels[j]) as real
  {
    var f := Proportion(levels, remaining, cl);
    PairOfShares(levels[i], levels[j], f, cl[i], cl[j], Wish(levels[i]), Wish(levels[j]));
  }

  lemma PairOfShares(l: Level, l': Level, f: real, x: real, x': real, w: real, w': real)
    requires ValidLevel(l) && ValidLevel(l') && x == Fair(f)(l) && x' == Fair(f)(l') && w == Wish(l) && w' == Wish(l')
    ensures LessInRatio(x, x', w, w') ==> AtTop(l, x) || x' == Need(l') as real
  {
    var p := ShareClipped(l, f, x, w);
    var p' := ShareClipped(l', f, x', w');
    ClippedPair(l, l', f, x, x', w, w', p, p');
  }

  lemma ClippedPair(l: Level, l': Level, f: real, x: real, x': real, w: real, w': real, p: real, p': real)
    requires w >= 0.0 && w' >= 0.0 && p == f * w && p' == f * w' && ClippedAt(l, p, x) && ClippedAt(l', p', x')
    ensures LessInRatio(x, x', w, w') ==> AtTop(l, x) || x' == Need(l') as real
  {
    PairAlgebra(f, x, w, x', w', p, p', AtTop(l, x), x' == Need(l') as real);
  }

  lemma ShareClipped(l: Level, f: real, x: real, w: real) returns (p: real)
    requires ValidLevel(l) && x == Fair(f)(l) && w == Wish(l)
    ensures p == f * w && w >= 0.0 && ClippedAt(l, p, x)
  {
    p := f * w;
    ShareIs(l, f, p, x);
  }

  lemma PairAlgebra(f: real, x: real, w: real, x': real, w': real, p: real, p': real, top: bool, need: bool)
    requires w >= 0.0 && w' >= 0.0 && p == f * w && p' == f * w' && (top || x >= p) && (need || x' <= p')
    ensures LessInRatio(x, x', w, w') ==> top || need
  {
    if !top && !need {
      CrossAlgebra(f, x, w, x', w', p, p');
    }
  }

  lemma {:induction false} Proportion(levels: seq<Level>, remaining: real, cl: seq<real>) returns (f: real)
    requires ValidLevels(levels) && IsAllocation(levels, remaining, cl) && Weigh(levels, Needs()) < remaining
    ensures Solves(Claims(levels), remaining, f) && Lists(cl, levels, Fair(f))
  {
    SumsAre(levels);
    MinSums(levels);
    f :| Solves(Claims(levels), remaining, f) && Lists(cl, levels, Fair(f));
  }

  /** Levels strictly between their need and their top share in proportion to their wishes. */
  lemma {:induction false} ProportionalToWishes(levels: seq<Level>, remaining: real, cl: seq<real>, i: nat, j: nat)
    requires ValidLevels(levels) && IsAllocation(levels, remaining, cl) && Weigh(levels, Needs()) < remaining
    requires i < |levels| == |cl| && j < |levels|
    requires Need(levels[i]) as real < cl[i] && !AtTop(levels[i], cl[i])
    requires Need(levels[j]) as real < cl[j] && !AtTop(levels[j], cl[j])
    ensures InRatio(cl[i], cl[j], Wish(levels[i]), Wish(levels[j]))
  {
    LessOnlyWhen(levels, remaining, cl, i, j);
    LessOnlyWhen(levels, remaining, cl, j, i);
    NeitherLess(cl[i], cl[j], Wish(levels[i]), Wish(levels[j]));
  }

  lemma NeitherLess(a: real, b: real, c: real, d: real)
    requires !LessInRatio(a, b, c, d) && !LessInRatio(b, a, d, c)
    ensures InRatio(a, b, c, d)
  {
  }

  /** Nobody gets less than they need, nor more than they may borrow. */
  lemma {:induction false} NeedsAreMet(levels: seq<Level>, remaining: real, cl: seq<real>, i: nat)
    requires ValidLevels(levels) && IsAllocation(levels, remaining, cl) && Weigh(levels, Needs()) < remaining
    requires i < |levels|
    ensures |cl| == |levels| && Need(levels[i]) as real <= cl[i] && BelowTop(levels[i], cl[i])
  {
    var f := Proportion(levels, remaining, cl);
    NeedIsMet(levels[i], f, cl[i]);
  }

  lemma NeedIsMet(l: Level, f: real, x: real)
    requires ValidLevel(l) && x == Fair(f)(l)
    ensures Need(l) as real <= x && BelowTop(l, x)
  {
    ShareIs(l, f, f * Wish(l), x);
  }

  /** When the wishes add up to what remains and nobody wishes for more than they may borrow,
      everybody gets exactly what they wish for. */
  lemma {:induction false} WishesGranted(levels: seq<Level>, remaining: real, cl: seq<real>, i: nat)
    requires ValidLevels(levels) && IsAllocation(levels, remaining, cl) && Weigh(levels, Needs()) < remaining
    requires Weigh(levels, Wishes()) == remaining && i < |levels|
    requires forall k :: 0 <= k < |levels| ==> BelowTop(levels[k], Wish(levels[k]))
    ensures |cl| == |levels| && cl[i] == Wish(levels[i])
  {
    var f := Proportion(levels, remaining, cl);
    forall k | 0 <= k < |levels|
      ensures Fair(1.0)(levels[k]) == Wishes()(levels[k])
    {
      WholeShare(levels[k]);
    }
    WeighExt(levels, Fair(1.0), Wishes());
    ClaimsWeigh(levels, Fair(1.0), ShareAt(1.0));
    ClaimsValid(levels);
    SolutionsAgree(Claims(levels), remaining, f, 1.0);
    assert Claims(levels)[i] == ClaimOf(levels[i]);
  }

  lemma WholeShare(l: Level)
    requires ValidLevel(l) && BelowTop(l, Wish(l))
    ensures Fair(1.0)(l) == Wish(l)
  {
    QuantitiesAre(l);
    assert 1.0 * Target(l) == Target(l);
  }

  // ----- when it cannot -----

  /** With no more than what is never lent, everybody gets that. */
  lemma {:induction false} KeptOnly(levels: seq<Level>, remaining: real, cl: seq<real>, i: nat)
    requires ValidLevels(levels) && IsAllocation(levels, remaining, cl) && remaining <= Weigh(levels, Kept())
    requires i < |levels|
    ensures |cl| == |levels| && cl[i] == (levels[i].nominal - levels[i].lendable) as real
  {
    SumsAre(levels);
    QuantitiesAre(levels[i]);
  }

  /** In between, everybody gets the same fraction of what they need above what they never lend. */
  lemma {:induction false} NeedsInProportion(levels: seq<Level>, remaining: real, cl: seq<real>, i: nat)
    requires ValidLevels(levels) && IsAllocation(levels, remaining, cl) && i < |levels|
    requires Weigh(levels, Kept()) < remaining <= Weigh(levels, Needs())
    ensures var l, kept, needs := levels[i], Weigh(levels, Kept()), Weigh(levels, Needs());
      |cl| == |levels| &&
      InRatio(cl[i] - (l.nominal - l.lendable) as real, Need(l) as real - (l.nominal - l.lendable) as real,
              remaining - kept, needs - kept)
  {
    var l, kept, needs := levels[i], Weigh(levels, Kept()), Weigh(levels, Needs());
    var ratio := RatioOf(levels, remaining, cl, i, kept, needs);
    PartOfNeed(l, ratio, cl[i], kept, needs, remaining, (l.nominal - l.lendable) as real, Need(l) as real);
  }

  lemma {:induction false} RatioOf(levels: seq<Level>, remaining: real, cl: seq<real>, i: nat, kept: real, needs: real)
      returns (ratio: real)
    requires ValidLevels(levels) && IsAllocation(levels, remaining, cl) && i < |levels|
    requires kept == Weigh(levels, Kept()) < remaining <= needs == Weigh(levels, Needs())
    ensures |cl| == |levels| && cl[i] == Proportional(ratio)(levels[i])
    ensures ratio == (remaining - kept) / (needs - kept)
  {
    SumsAre(levels);
    ratio := Ratio(remaining, kept, needs);
  }

  lemma PartOfNeed(l: Level, ratio: real, x: real, kept: real, needs: real, remaining: real, low: real, need: real)
    requires ValidLevel(l) && x == Proportional(ratio)(l)
    requires low == (l.nominal - l.lendable) as real && need == Need(l) as real
    requires kept < needs && ratio == (remaining - kept) / (needs - kept)
    ensures InRatio(x - low, need - low, remaining - kept, needs - kept)
  {
    QuantitiesAre(l);
    InProportion(low, need, x, kept, needs, remaining, ratio);
  }

  lemma InProportion(low: real, high: real, x: real, kept: real, needs: real, remaining: real, ratio: real)
    requires kept < needs && ratio == (remaining - kept) / (needs - kept) && x == Blend(ratio, low, high)
    ensures (x - low) * (needs - kept) == (high - low) * (remaining - kept)
  {
    var d := needs - kept;
    assert ratio * d == remaining - kept;
    assert (ratio * (high - low)) * d == (high - low) * (ratio * d);
  }
}
