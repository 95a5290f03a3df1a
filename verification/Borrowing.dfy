/** The periodic adjustment of the CurrentCLs of the priority levels. */
module Borrowing {
  import opened Sums
  import opened Sorting
  import opened Options
  import opened Reals
  import opened Levels
  import opened FairShare

  // ----- the quantities of one level -----

  function MinCL(l: Level): real {
    (l.nominal - l.lendable) as real
  }

  function MaxCL(l: Level): Bound {
    if l.borrowing.None? then Unlimited else Finite((l.nominal + l.borrowing.value) as real)
  }

  function MinCurrentCL(l: Level): real {
    Max(MinCL(l), Min(l.nominal as real, l.highDemand as real))
  }

  /** An exempt level gets all it wants. */
  function ExemptCurrentCL(l: Level): real {
    Max(MinCL(l), l.highDemand as real)
  }

  function Target(l: Level): real {
    Max(MinCurrentCL(l), l.smoothDemand)
  }

  function ClaimOf(l: Level): Claim {
    Claim(MinCurrentCL(l), MaxCL(l), Target(l))
  }

  function Claims(levels: seq<Level>): (c: seq<Claim>)
    ensures |c| == |levels| && forall i :: 0 <= i < |c| ==> c[i] == ClaimOf(levels[i])
  {
    seq(|levels|, i requires 0 <= i < |levels| => ClaimOf(levels[i]))
  }

  ghost predicate ValidLevels(levels: seq<Level>) {
    forall i :: 0 <= i < |levels| ==> ValidLevel(levels[i])
  }

  lemma LevelBounds(l: Level)
    requires ValidLevel(l)
    ensures 0.0 <= MinCL(l) <= MinCurrentCL(l) <= l.nominal as real
    ensures MaxCL(l).Finite? ==> l.nominal as real <= MaxCL(l).limit
    ensures ValidClaim(ClaimOf(l))
  {
  }

  lemma ClaimsValid(levels: seq<Level>)
    requires ValidLevels(levels)
    ensures Valid(Claims(levels))
  {
    forall i | 0 <= i < |levels|
      ensures ValidClaim(Claims(levels)[i])
    {
      LevelBounds(levels[i]);
    }
  }

  // ----- sums -----

  function MinCLs(): Level -> real {
    (l: Level) => MinCL(l)
  }

  function MinCurrentCLs(): Level -> real {
    (l: Level) => MinCurrentCL(l)
  }

  function ExemptCLs(): Level -> real {
    (l: Level) => ExemptCurrentCL(l)
  }

  /** cl lists the value of g at every level. */
  ghost predicate Lists(cl: seq<real>, levels: seq<Level>, g: Level -> real) {
    |cl| == |levels| && forall i :: 0 <= i < |cl| ==> cl[i] == g(levels[i])
  }

  lemma {:induction false} SumOfList(cl: seq<real>, levels: seq<Level>, g: Level -> real)
    requires Lists(cl, levels, g)
    ensures Total(cl) == Weigh(levels, g)
    decreases |cl|
  {
    if cl != [] {
      var cl', levels' := cl[1..], levels[1..];
      assert forall i :: 0 <= i < |cl'| ==> cl'[i] == cl[i + 1] && levels'[i] == levels[i + 1];
      SumOfList(cl', levels', g);
      TotalCons(cl);
    }
  }

  lemma {:induction false} ClaimsWeigh(levels: seq<Level>, g: Level -> real, h: Claim -> real)
    requires forall i :: 0 <= i < |levels| ==> g(levels[i]) == h(ClaimOf(levels[i]))
    ensures Weigh(levels, g) == Weigh(Claims(levels), h)
    decreases |levels|
  {
    if levels != [] {
      var rest := levels[1..];
      assert forall i :: 0 <= i < |rest| ==> rest[i] == levels[i + 1];
      ClaimsWeigh(rest, g, h);
      assert Claims(levels)[1..] == Claims(rest);
    }
  }

  lemma {:induction false} MinSums(levels: seq<Level>)
    requires ValidLevels(levels)
    ensures Weigh(levels, MinCLs()) <= Weigh(levels, MinCurrentCLs())
  {
    forall i | 0 <= i < |levels|
      ensures MinCLs()(levels[i]) <= MinCurrentCLs()(levels[i])
    {
      LevelBounds(levels[i]);
    }
    WeighMono(levels, MinCLs(), MinCurrentCLs());
  }

  // ----- the three cases -----

  /** The excess above MinCL, shared proportionally. */
  function Proportional(ratio: real): Level -> real {
    (l: Level) => Blend(ratio, MinCL(l), MinCurrentCL(l))
  }

  function Ratio(remaining: real, minSum: real, minCurrentSum: real): real
    requires minSum < minCurrentSum
  {
    (remaining - minSum) / (minCurrentSum - minSum)
  }

  function Fair(fairProp: real): Level -> real {
    (l: Level) => Share(ClaimOf(l), fairProp)
  }

  /** cl is what the non-exempt levels get when `remaining` seats are left for them. */
  ghost predicate IsAllocation(levels: seq<Level>, remaining: real, cl: seq<real>) {
    var minSum, minCurrentSum := Weigh(levels, MinCLs()), Weigh(levels, MinCurrentCLs());
    if remaining <= minSum then Lists(cl, levels, MinCLs())
    else if remaining <= minCurrentSum then Lists(cl, levels, Proportional(Ratio(remaining, minSum, minCurrentSum)))
    else IsFair(levels, remaining, cl)
  }

  ghost predicate IsFair(levels: seq<Level>, remaining: real, cl: seq<real>) {
    exists f :: Solves(Claims(levels), remaining, f) && Lists(cl, levels, Fair(f))
  }

  lemma RatioBounds(remaining: real, minSum: real, minCurrentSum: real, ratio: real)
    requires minSum < remaining <= minCurrentSum && ratio == Ratio(remaining, minSum, minCurrentSum)
    ensures 0.0 <= ratio <= 1.0
    ensures Blend(ratio, minSum, minCurrentSum) == remaining
  {
    var d := minCurrentSum - minSum;
    assert ratio * d == remaining - minSum;
    QuotientBounds(ratio, d, remaining - minSum);
  }

  /** A level's proportional share lies between its two minima and grows with the ratio. */
  lemma ProportionalBounds(l: Level, ratio: real)
    requires ValidLevel(l) && 0.0 <= ratio <= 1.0
    ensures MinCL(l) <= Proportional(ratio)(l) <= MinCurrentCL(l)
  {
    LevelBounds(l);
    BlendBounds(ratio, MinCL(l), MinCurrentCL(l));
  }

  lemma ProportionalMonotone(l: Level, r: real, r': real)
    requires ValidLevel(l) && r <= r'
    ensures Proportional(r)(l) <= Proportional(r')(l)
  {
    LevelBounds(l);
    BlendMonotone(r, r', MinCL(l), MinCurrentCL(l));
  }

  /** Blending level by level and then adding up is blending the sums. */
  lemma {:induction false} BlendedSum(levels: seq<Level>, a: real, low: Level -> real, high: Level -> real,
                                      g: Level -> real)
    requires forall l {:trigger g(l)} :: g(l) == Blend(a, low(l), high(l))
    ensures Weigh(levels, g) == Blend(a, Weigh(levels, low), Weigh(levels, high))
    decreases |levels|
  {
    if levels == [] {
      BlendZero(a, 0.0);
    } else {
      var l, rest := levels[0], levels[1..];
      BlendedSum(rest, a, low, high, g);
      BlendAdd(a, low(l), high(l), Weigh(rest, low), Weigh(rest, high));
    }
  }

  lemma BlendZero(a: real, x: real)
    ensures Blend(a, x, x) == x
  {
    ZeroProduct(a, x - x);
  }

  lemma BlendAdd(a: real, x: real, y: real, x': real, y': real)
    ensures Blend(a, x, y) + Blend(a, x', y') == Blend(a, x + x', y + y')
  {
    assert a * (y - x) + a * (y' - x') == a * ((y + y') - (x + x'));
  }

  lemma {:induction false} ProportionalSum(levels: seq<Level>, remaining: real, minSum: real,
                                           minCurrentSum: real, ratio: real)
    requires minSum == Weigh(levels, MinCLs()) && minCurrentSum == Weigh(levels, MinCurrentCLs())
    requires minSum < remaining <= minCurrentSum && ratio == Ratio(remaining, minSum, minCurrentSum)
    ensures Weigh(levels, Proportional(ratio)) == remaining
  {
    RatioBounds(remaining, minSum, minCurrentSum, ratio);
    BlendedSum(levels, ratio, MinCLs(), MinCurrentCLs(), Proportional(ratio));
  }

  // ----- what every allocation satisfies -----

  ghost predicate WithinBounds(l: Level, x: real) {
    MinCL(l) <= x && (MaxCL(l).Finite? ==> x <= MaxCL(l).limit)
  }

  lemma FairBounds(l: Level, f: real)
    requires ValidLevel(l)
    ensures MinCurrentCL(l) <= Fair(f)(l) && WithinBounds(l, Fair(f)(l))
  {
    LevelBounds(l);
    ShareBounds(ClaimOf(l), f);
  }

  lemma {:induction false} FairSum(levels: seq<Level>, remaining: real, f: real)
    requires Solves(Claims(levels), remaining, f)
    ensures Weigh(levels, Fair(f)) == remaining
  {
    ClaimsWeigh(levels, Fair(f), ShareAt(f));
  }

  /** In every case each level stays within its configured bounds, and the allocations add
      up to what remained, except that the rock-bottom case hands out MinCLSum. */
  lemma {:induction false} AllocationBoundsAndSum(levels: seq<Level>, remaining: real, cl: seq<real>)
    requires ValidLevels(levels) && IsAllocation(levels, remaining, cl)
    ensures |cl| == |levels| && forall i :: 0 <= i < |cl| ==> WithinBounds(levels[i], cl[i])
    ensures Total(cl) == Max(remaining, Weigh(levels, MinCLs()))
  {
    var minSum, minCurrentSum := Weigh(levels, MinCLs()), Weigh(levels, MinCurrentCLs());
    if remaining <= minSum {
      SumOfList(cl, levels, MinCLs());
      forall i | 0 <= i < |cl|
        ensures WithinBounds(levels[i], cl[i])
      {
        LevelBounds(levels[i]);
      }
    } else if remaining <= minCurrentSum {
      ProportionalCase(levels, remaining, cl, minSum, minCurrentSum);
    } else {
      var f :| Solves(Claims(levels), remaining, f) && Lists(cl, levels, Fair(f));
      SumOfList(cl, levels, Fair(f));
      FairSum(levels, remaining, f);
      forall i | 0 <= i < |cl|
        ensures WithinBounds(levels[i], cl[i])
      {
        FairBounds(levels[i], f);
      }
    }
  }

  lemma {:induction false} ProportionalCase(levels: seq<Level>, remaining: real, cl: seq<real>, minSum: real,
                                            minCurrentSum: real)
    requires minSum == Weigh(levels, MinCLs()) && minCurrentSum == Weigh(levels, MinCurrentCLs())
    requires minSum < remaining <= minCurrentSum && ValidLevels(levels)
    requires Lists(cl, levels, Proportional(Ratio(remaining, minSum, minCurrentSum)))
    ensures Total(cl) == remaining
    ensures forall i :: 0 <= i < |cl| ==> MinCL(levels[i]) <= cl[i] <= MinCurrentCL(levels[i])
    ensures forall i :: 0 <= i < |cl| ==> WithinBounds(levels[i], cl[i])
  {
    var ratio := Ratio(remaining, minSum, minCurrentSum);
    SumOfList(cl, levels, Proportional(ratio));
    ProportionalSum(levels, remaining, minSum, minCurrentSum, ratio);
    RatioBounds(remaining, minSum, minCurrentSum, ratio);
    forall i | 0 <= i < |cl|
      ensures MinCL(levels[i]) <= cl[i] <= MinCurrentCL(levels[i]) && WithinBounds(levels[i], cl[i])
    {
      ProportionalBounds(levels[i], ratio);
      LevelBounds(levels[i]);
    }
  }

  lemma RatioMonotone(remaining: real, remaining': real, minSum: real, minCurrentSum: real)
    requires minSum < minCurrentSum && remaining <= remaining'
    ensures Ratio(remaining, minSum, minCurrentSum) <= Ratio(remaining', minSum, minCurrentSum)
  {
    var d := minCurrentSum - minSum;
    var r, r' := Ratio(remaining, minSum, minCurrentSum), Ratio(remaining', minSum, minCurrentSum);
    assert r * d == remaining - minSum && r' * d == remaining' - minSum;
    if r' < r {
      StrictScale(d, r', r);
    }
  }

  /** More remaining seats never lower anyone's allocation, within a case or across cases. */
  lemma AllocationMonotone(levels: seq<Level>, remaining: real, cl: seq<real>, remaining': real, cl': seq<real>)
    requires ValidLevels(levels) && remaining <= remaining'
    requires IsAllocation(levels, remaining, cl) && IsAllocation(levels, remaining', cl')
    ensures |cl| == |cl'| && forall i :: 0 <= i < |cl| ==> cl[i] <= cl'[i]
  {
    var minSum, minCurrentSum := Weigh(levels, MinCLs()), Weigh(levels, MinCurrentCLs());
    AllocationBoundsAndSum(levels, remaining, cl);
    AllocationBoundsAndSum(levels, remaining', cl');
    if remaining <= minSum {
    } else if remaining <= minCurrentSum {
      if remaining' <= minCurrentSum {
        RatioMonotone(remaining, remaining', minSum, minCurrentSum);
        forall i | 0 <= i < |cl|
          ensures cl[i] <= cl'[i]
        {
          ProportionalMonotone(levels[i], Ratio(remaining, minSum, minCurrentSum),
                               Ratio(remaining', minSum, minCurrentSum));
        }
      } else {
        ProportionalCase(levels, remaining, cl, minSum, minCurrentSum);
        var f :| Solves(Claims(levels), remaining', f) && Lists(cl', levels, Fair(f));
        forall i | 0 <= i < |cl|
          ensures cl[i] <= cl'[i]
        {
          FairBounds(levels[i], f);
        }
      }
    } else {
      FairMonotone(levels, remaining, cl, remaining', cl');
    }
  }

  lemma FairMonotone(levels: seq<Level>, remaining: real, cl: seq<real>, remaining': real, cl': seq<real>)
    requires ValidLevels(levels) && remaining <= remaining'
    requires IsFair(levels, remaining, cl) && IsFair(levels, remaining', cl')
    ensures |cl| == |cl'| && forall i :: 0 <= i < |cl| ==> cl[i] <= cl'[i]
  {
    var f :| Solves(Claims(levels), remaining, f) && Lists(cl, levels, Fair(f));
    var f' :| Solves(Claims(levels), remaining', f') && Lists(cl', levels, Fair(f'));
    ClaimsValid(levels);
    SolutionsMonotone(Claims(levels), remaining, f, remaining', f');
    forall i | 0 <= i < |cl|
      ensures cl[i] <= cl'[i]
    {
      assert Claims(levels)[i] == ClaimOf(levels[i]);
    }
  }

  /** The allocation is unique, even where the proportion is not. */
  lemma AllocationUnique(levels: seq<Level>, remaining: real, cl: seq<real>, cl': seq<real>)
    requires ValidLevels(levels) && IsAllocation(levels, remaining, cl) && IsAllocation(levels, remaining, cl')
    ensures cl == cl'
  {
    AllocationMonotone(levels, remaining, cl, remaining, cl');
    AllocationMonotone(levels, remaining, cl', remaining, cl);
  }

  // ----- the adjustment -----

  /** The seats left can be used up without exceeding the borrowing limits of the levels
      that have any demand. */
  ghost predicate Absorbable(levels: seq<Level>, remaining: real) {
    remaining <= Weigh(levels, MinCurrentCLs()) || Reachable(Claims(levels), remaining)
  }

  method ListAll(levels: seq<Level>, g: Level -> real) returns (cl: seq<real>)
    ensures Lists(cl, levels, g)
  {
    cl := [];
    for i := 0 to |levels|
      invariant |cl| == i && forall j :: 0 <= j < i ==> cl[j] == g(levels[j])
    {
      cl := cl + [g(levels[i])];
    }
  }

  /** The three cases, in the order that keeps every divisor positive; there is a result
      exactly when the remaining seats are absorbable. */
  method Allocate(levels: seq<Level>, remaining: real) returns (r: Option<seq<real>>)
    requires ValidLevels(levels)
    ensures r.Some? ==> IsAllocation(levels, remaining, r.value)
    ensures r.Some? <==> Absorbable(levels, remaining)
    ensures r.None? ==> forall cl :: !IsAllocation(levels, remaining, cl)
  {
    var minSum, minCurrentSum := Weigh(levels, MinCLs()), Weigh(levels, MinCurrentCLs());
    MinSums(levels);
    ClaimsValid(levels);
    if remaining <= minSum {
      var cl := ListAll(levels, MinCLs());
      r := Some(cl);
    } else if remaining <= minCurrentSum {
      var cl := ListAll(levels, Proportional(Ratio(remaining, minSum, minCurrentSum)));
      r := Some(cl);
    } else {
      var f := Solve(Claims(levels), remaining);
      if f.Some? {
        var cl := ListAll(levels, Fair(f.value));
        r := Some(cl);
      } else {
        r := None;
      }
    }
  }
}
