/** One adjustment of all the CurrentCLs of a server, and how far their sum can be from the
    server's concurrency limit. */
module Adjustment {
  import opened Sums
  import opened Sorting
  import opened Options
  import opened Reals
  import opened Levels
  import opened Borrowing

  datatype Server = Server(serverCL: nat, exempt: seq<Level>, limited: seq<Level>)

  ghost predicate ValidServer(s: Server) {
    ValidLevels(s.exempt) && ValidLevels(s.limited)
  }

  function Nominals(): Level -> real {
    (l: Level) => l.nominal as real
  }

  /** Every level's lower bound is its nominal limit. */
  predicate NoPressure(s: Server) {
    && (forall i :: 0 <= i < |s.exempt| ==> ExemptCurrentCL(s.exempt[i]) == s.exempt[i].nominal as real)
    && (forall i :: 0 <= i < |s.limited| ==> MinCurrentCL(s.limited[i]) == s.limited[i].nominal as real)
  }

  function RemainingServerCL(s: Server): real {
    s.serverCL as real - Weigh(s.exempt, ExemptCLs())
  }

  ghost predicate IsAdjustment(s: Server, exemptCL: seq<real>, limitedCL: seq<real>) {
    if NoPressure(s) then
      Lists(exemptCL, s.exempt, Nominals()) && Lists(limitedCL, s.limited, Nominals())
    else
      Lists(exemptCL, s.exempt, ExemptCLs()) && IsAllocation(s.limited, RemainingServerCL(s), limitedCL)
  }

  method Adjust(s: Server) returns (exemptCL: seq<real>, limitedCL: Option<seq<real>>)
    requires ValidServer(s)
    ensures limitedCL.Some? ==> IsAdjustment(s, exemptCL, limitedCL.value)
    ensures limitedCL.Some? <==> NoPressure(s) || Absorbable(s.limited, RemainingServerCL(s))
    ensures limitedCL.None? ==> forall e, l :: !IsAdjustment(s, e, l)
  {
    if NoPressure(s) {
      exemptCL := ListAll(s.exempt, Nominals());
      var cl := ListAll(s.limited, Nominals());
      limitedCL := Some(cl);
    } else {
      exemptCL := ListAll(s.exempt, ExemptCLs());
      limitedCL := Allocate(s.limited, RemainingServerCL(s));
    }
  }

  /** There is no pressure exactly when every non-exempt level lends nothing or has demanded its
      nominal limit, and every exempt level has demanded no more than that, and no less unless it
      lends nothing. */
  lemma NoPressureExactlyWhen(s: Server)
    requires ValidServer(s)
    ensures NoPressure(s) <==>
      && (forall i :: 0 <= i < |s.limited| ==>
            s.limited[i].lendable == 0 || s.limited[i].highDemand >= s.limited[i].nominal)
      && (forall i :: 0 <= i < |s.exempt| ==>
            s.exempt[i].highDemand == s.exempt[i].nominal
            || (s.exempt[i].lendable == 0 && s.exempt[i].highDemand <= s.exempt[i].nominal))
  {
    forall i | 0 <= i < |s.limited|
      ensures MinCurrentCL(s.limited[i]) == s.limited[i].nominal as real
         <==> s.limited[i].lendable == 0 || s.limited[i].highDemand >= s.limited[i].nominal
    {
      assert ValidLevel(s.limited[i]);
    }
    forall i | 0 <= i < |s.exempt|
      ensures ExemptCurrentCL(s.exempt[i]) == s.exempt[i].nominal as real
         <==> s.exempt[i].highDemand == s.exempt[i].nominal
              || (s.exempt[i].lendable == 0 && s.exempt[i].highDemand <= s.exempt[i].nominal)
    {
      assert ValidLevel(s.exempt[i]);
    }
  }

  /** An exempt level gets at least what it never lends and all it has demanded, and no more than
      the larger of the two. */
  lemma ExemptGetsItsDemand(s: Server, exemptCL: seq<real>, limitedCL: seq<real>, i: nat)
    requires ValidServer(s) && IsAdjustment(s, exemptCL, limitedCL) && i < |s.exempt|
    ensures |exemptCL| == |s.exempt|
    ensures var l := s.exempt[i]; var kept, high := (l.nominal - l.lendable) as real, l.highDemand as real;
      kept <= exemptCL[i] && high <= exemptCL[i] && (exemptCL[i] == kept || exemptCL[i] == high)
  {
    assert ExemptCLs()(s.exempt[i]) == ExemptCurrentCL(s.exempt[i]);
  }

  /** Without pressure everybody keeps the nominal limit. */
  lemma UnpressuredKeepNominal(s: Server, exemptCL: seq<real>, limitedCL: seq<real>)
    requires NoPressure(s) && IsAdjustment(s, exemptCL, limitedCL)
    ensures |exemptCL| == |s.exempt| && forall i :: 0 <= i < |exemptCL| ==> exemptCL[i] == s.exempt[i].nominal as real
    ensures |limitedCL| == |s.limited|
    ensures forall i :: 0 <= i < |limitedCL| ==> limitedCL[i] == s.limited[i].nominal as real
  {
  }

  /** Under pressure the CurrentCLs add up to the server's limit exactly when the exempt
      levels leave the others at least their MinCLs; otherwise the sum exceeds it by the gap. */
  lemma SumIsServerCLExactlyWhen(s: Server, exemptCL: seq<real>, limitedCL: seq<real>)
    requires ValidServer(s) && !NoPressure(s) && IsAdjustment(s, exemptCL, limitedCL)
    ensures Total(exemptCL) + Total(limitedCL) == s.serverCL as real
       <==> Weigh(s.limited, MinCLs()) <= RemainingServerCL(s)
    ensures Total(exemptCL) + Total(limitedCL)
         == s.serverCL as real + Max(0.0, Weigh(s.limited, MinCLs()) - RemainingServerCL(s))
  {
    SumOfList(exemptCL, s.exempt, ExemptCLs());
    AllocationBoundsAndSum(s.limited, RemainingServerCL(s), limitedCL);
  }

  lemma {:induction false} SumOfNominals(levels: seq<Level>, nominals: seq<nat>)
    requires |levels| == |nominals| && forall i :: 0 <= i < |levels| ==> levels[i].nominal == nominals[i]
    ensures Weigh(levels, Nominals()) == SumNat(nominals) as real
    decreases |levels|
  {
    if levels != [] {
      var levels', nominals' := levels[1..], nominals[1..];
      assert forall i :: 0 <= i < |levels'| ==> levels'[i] == levels[i + 1] && nominals'[i] == nominals[i + 1];
      SumOfNominals(levels', nominals');
    }
  }

  /** Without pressure the sum is the server's limit plus less than one seat per level. */
  lemma {:induction false} UnpressuredSum(s: Server, configs: seq<Config>, exemptCL: seq<real>, limitedCL: seq<real>)
    requires NoPressure(s) && IsAdjustment(s, exemptCL, limitedCL)
    requires SumShares(configs) > 0 && |configs| == |s.exempt + s.limited|
    requires forall i :: 0 <= i < |configs| ==>
      (s.exempt + s.limited)[i].nominal == NominalCLs(s.serverCL, configs, SumShares(configs))[i]
    ensures s.serverCL as real <= Total(exemptCL) + Total(limitedCL) < (s.serverCL + |configs|) as real
  {
    SumOfList(exemptCL, s.exempt, Nominals());
    SumOfList(limitedCL, s.limited, Nominals());
    WeighConcat(s.exempt, s.limited, Nominals());
    SumOfNominals(s.exempt + s.limited, NominalCLs(s.serverCL, configs, SumShares(configs)));
    NominalDrift(s.serverCL, configs);
  }

  /** Without pressure every non-exempt level also stays within its bounds. */
  lemma AdjustmentWithinBounds(s: Server, exemptCL: seq<real>, limitedCL: seq<real>)
    requires ValidServer(s) && IsAdjustment(s, exemptCL, limitedCL)
    ensures |limitedCL| == |s.limited|
    ensures forall i :: 0 <= i < |limitedCL| ==> WithinBounds(s.limited[i], limitedCL[i])
  {
    if NoPressure(s) {
      forall i | 0 <= i < |limitedCL|
        ensures WithinBounds(s.limited[i], limitedCL[i])
      {
        LevelBounds(s.limited[i]);
      }
    } else {
      AllocationBoundsAndSum(s.limited, RemainingServerCL(s), limitedCL);
    }
  }

  /** A busy exempt level: the server has an adjustment, and in every one the limits handed out
      exceed the server's by half. */
  lemma SumCanExceedServerCL()
    ensures var s := Server(10, [Level(5, 0, None, 10, 0.0)], [Level(5, 0, None, 5, 0.0)]);
      && ValidServer(s) && IsAdjustment(s, [10.0], [5.0])
      && forall e, l :: IsAdjustment(s, e, l) ==> Total(e) + Total(l) == 15.0
  {
    var s := Server(10, [Level(5, 0, None, 10, 0.0)], [Level(5, 0, None, 5, 0.0)]);
    assert ExemptCurrentCL(s.exempt[0]) == 10.0;
    WeighSingle(s.exempt[0], ExemptCLs());
    WeighSingle(s.limited[0], MinCLs());
    assert RemainingServerCL(s) == 0.0;
    forall e, l | IsAdjustment(s, e, l)
      ensures Total(e) + Total(l) == 15.0
    {
      SumIsServerCLExactlyWhen(s, e, l);
    }
  }

  lemma WeighSingle(l: Level, g: Level -> real)
    ensures Weigh([l], g) == g(l)
  {
    assert [l][1..] == [];
  }

  /** An idle exempt level that lends everything to a level that may borrow nothing: no
      adjustment satisfies the equations. */
  lemma SeatsCanBeUnabsorbable(exemptCL: seq<real>, limitedCL: seq<real>)
    ensures var s := Server(10, [Level(5, 5, None, 0, 0.0)], [Level(5, 0, Some(0), 5, 0.0)]);
      ValidServer(s) && !IsAdjustment(s, exemptCL, limitedCL)
  {
    var s := Server(10, [Level(5, 5, None, 0, 0.0)], [Level(5, 0, Some(0), 5, 0.0)]);
    assert ExemptCurrentCL(s.exempt[0]) == 0.0;
    WeighSingle(s.exempt[0], ExemptCLs());
    assert !NoPressure(s) && RemainingServerCL(s) == 10.0;
    CannotBorrow(s.limited[0], limitedCL);
  }

  /** A level that may borrow nothing cannot take ten seats. */
  lemma CannotBorrow(l: Level, cl: seq<real>)
    requires l == Level(5, 0, Some(0), 5, 0.0)
    ensures !IsAllocation([l], 10.0, cl)
  {
    WeighSingle(l, MinCLs());
    WeighSingle(l, MinCurrentCLs());
    if IsAllocation([l], 10.0, cl) {
      AllocationBoundsAndSum([l], 10.0, cl);
      SumSingle(cl);
    }
  }

  lemma SumSingle(cl: seq<real>)
    ensures |cl| == 1 ==> Total(cl) == cl[0]
  {
    if |cl| == 1 {
      TotalCons(cl);
      assert cl[1..] == [];
    }
  }

  // ----- rounding -----

  function Round(x: real): int {
    (x + 0.5).Floor
  }

  function RoundAll(cl: seq<real>): (n: seq<int>)
    ensures |n| == |cl|
  {
    if cl == [] then [] else [Round(cl[0])] + RoundAll(cl[1..])
  }

  function SumInt(n: seq<int>): int {
    if n == [] then 0 else n[0] + SumInt(n[1..])
  }

  /** Rounding moves the sum by at most half a seat per level. */
  lemma {:induction false} RoundingDrift(cl: seq<real>)
    ensures Total(cl) - 0.5 * |cl| as real <= SumInt(RoundAll(cl)) as real <= Total(cl) + 0.5 * |cl| as real
  {
    if cl != [] {
      RoundingDrift(cl[1..]);
      TotalCons(cl);
      assert RoundAll(cl)[1..] == RoundAll(cl[1..]);
      assert |cl| as real == |cl[1..]| as real + 1.0;
    }
  }

  /** Rounding respects integer bounds. */
  lemma RoundWithin(low: int, x: real, high: int)
    ensures low as real <= x ==> low <= Round(x)
    ensures x <= high as real ==> Round(x) <= high
  {
  }

  /** After rounding, a level's limit is still within its configured bounds. */
  lemma RoundedWithinBounds(l: Level, x: real)
    requires ValidLevel(l) && WithinBounds(l, x)
    ensures l.nominal - l.lendable <= Round(x)
    ensures l.borrowing.Some? ==> Round(x) <= l.nominal + l.borrowing.value
  {
    RoundWithin(l.nominal - l.lendable, x, if l.borrowing.Some? then l.nominal + l.borrowing.value else 0);
  }

  /** Under pressure, with the non-exempt levels left their MinCLs, the integer limits add up
      to the server's limit within half a seat per level. */
  lemma {:induction false} RoundedSumNearServerCL(s: Server, exemptCL: seq<real>, limitedCL: seq<real>)
    requires ValidServer(s) && !NoPressure(s) && IsAdjustment(s, exemptCL, limitedCL)
    requires Weigh(s.limited, MinCLs()) <= RemainingServerCL(s)
    ensures var total := SumInt(RoundAll(exemptCL + limitedCL));
      var slack := 0.5 * |exemptCL + limitedCL| as real;
      s.serverCL as real - slack <= total as real <= s.serverCL as real + slack
  {
    SumIsServerCLExactlyWhen(s, exemptCL, limitedCL);
    TotalConcat(exemptCL, limitedCL);
    RoundingDrift(exemptCL + limitedCL);
  }
}
