/** Priority levels: the concurrency limits that configuration gives each of them, and the
    smoothed seat demand that drives borrowing. */
module Levels {
  import opened Integers
  import opened Sums
  import opened Options
  import opened Reals

  /** The configurable aspects of a priority level. A missing borrowing limit is no limit. */
  datatype Config = Config(shares: nat, lendablePercent: nat, borrowingLimitPercent: Option<nat>)

  predicate ValidConfig(c: Config) {
    c.lendablePercent <= 100
  }

  function SumShares(configs: seq<Config>): nat {
    if configs == [] then 0 else configs[0].shares + SumShares(configs[1..])
  }

  /** ceil(x / y). */
  function CeilDiv(x: nat, y: nat): nat
    requires y > 0
  {
    (x + y - 1) / y
  }

  /** round(x * percent / 100.0), half up. */
  function RoundPercent(x: nat, percent: nat): nat {
    (2 * x * percent + 100) / 200
  }

  function NominalCL(serverCL: nat, shares: nat, sumShares: nat): nat
    requires sumShares > 0
  {
    CeilDiv(serverCL * shares, sumShares)
  }

  function NominalCLs(serverCL: nat, configs: seq<Config>, sumShares: nat): (n: seq<nat>)
    requires sumShares > 0
    ensures |n| == |configs|
  {
    if configs == [] then []
    else [NominalCL(serverCL, configs[0].shares, sumShares)] + NominalCLs(serverCL, configs[1..], sumShares)
  }

  function SumNat(s: seq<nat>): nat {
    if s == [] then 0 else s[0] + SumNat(s[1..])
  }

  lemma CeilDivBounds(x: nat, y: nat)
    requires y > 0
    ensures x <= y * CeilDiv(x, y) < x + y
  {
    var z := x + y - 1;
    assert z == y * (z / y) + z % y;
  }

  lemma {:induction false} NominalSumBounds(serverCL: nat, configs: seq<Config>, sumShares: nat)
    requires sumShares > 0
    ensures serverCL * SumShares(configs) <= sumShares * SumNat(NominalCLs(serverCL, configs, sumShares))
    ensures sumShares * SumNat(NominalCLs(serverCL, configs, sumShares))
         <= serverCL * SumShares(configs) + |configs| * (sumShares - 1)
  {
    if configs != [] {
      var c, rest := configs[0], configs[1..];
      NominalSumBounds(serverCL, rest, sumShares);
      CeilDivBounds(serverCL * c.shares, sumShares);
      var nominals := NominalCLs(serverCL, configs, sumShares);
      assert nominals[1..] == NominalCLs(serverCL, rest, sumShares);
      SumStep(serverCL, c.shares, SumShares(rest), sumShares, nominals[0], SumNat(nominals[1..]), |rest|);
    }
  }

  lemma SumStep(s: int, a: int, as': int, m: int, n: int, ns: int, k: int)
    requires s * a <= m * n <= s * a + (m - 1)
    requires s * as' <= m * ns <= s * as' + k * (m - 1)
    ensures s * (a + as') <= m * (n + ns) <= s * (a + as') + (k + 1) * (m - 1)
  {
    assert s * (a + as') == s * a + s * as';
    assert m * (n + ns) == m * n + m * ns;
    assert (k + 1) * (m - 1) == k * (m - 1) + (m - 1);
  }

  /** Dividing the server's limit with ceil hands out at least all of it, and less than one
      extra seat per level. */
  lemma {:induction false} NominalDrift(serverCL: nat, configs: seq<Config>)
    requires SumShares(configs) > 0
    ensures var total := SumNat(NominalCLs(serverCL, configs, SumShares(configs)));
      serverCL <= total < serverCL + |configs|
  {
    var m := SumShares(configs);
    var total := SumNat(NominalCLs(serverCL, configs, m));
    NominalSumBounds(serverCL, configs, m);
    assert configs != [];
    CancelShares(m, serverCL, total, |configs|);
  }

  lemma CancelShares(m: int, s: int, t: int, k: int)
    requires m > 0 && k > 0
    requires s * m <= m * t <= s * m + k * (m - 1)
    ensures s <= t < s + k
  {
    if t < s {
      ScaleInt(m, t + 1, s);
    }
    if t >= s + k {
      ScaleInt(m, s + k, t);
    }
  }

  lemma ScaleInt(m: int, x: int, y: int)
    requires m > 0 && x <= y
    ensures m * x <= m * y
  {
  }

  // ----- limits of one level -----

  /** A level at adjustment time: its configured limits and what has been observed of it. */
  datatype Level = Level(nominal: nat, lendable: nat, borrowing: Option<nat>, highDemand: nat, smoothDemand: real)

  ghost predicate ValidLevel(l: Level) {
    l.lendable <= l.nominal && l.smoothDemand >= 0.0
  }

  function Configured(nominal: nat, c: Config, highDemand: nat, smoothDemand: real): Level {
    Level(nominal, RoundPercent(nominal, c.lendablePercent),
          if c.borrowingLimitPercent.None? then None
          else Some(RoundPercent(nominal, c.borrowingLimitPercent.value)),
          highDemand, smoothDemand)
  }

  /** A lendable percentage of at most 100 never lends more than the nominal limit. */
  lemma ConfiguredIsValid(nominal: nat, c: Config, highDemand: nat, smoothDemand: real)
    requires ValidConfig(c) && smoothDemand >= 0.0
    ensures ValidLevel(Configured(nominal, c, highDemand, smoothDemand))
  {
    var p := c.lendablePercent;
    assert 2 * nominal * p <= 2 * nominal * 100;
    assert (200 * nominal + 100) / 200 == nominal;
  }

  lemma RoundedPercent(z: nat, r: nat)
    requires r == (2 * z + 100) / 200
    ensures -50 <= 100 * r - z <= 50
  {
  }

  /** The nearest integer to x * percent / 100. */
  lemma RoundPercentNearest(x: nat, percent: nat)
    ensures -50 <= 100 * RoundPercent(x, percent) - x * percent <= 50
  {
    assert 2 * x * percent == 2 * (x * percent);
    RoundedPercent(x * percent, RoundPercent(x, percent));
  }

  /** What configuration makes of a level: seats to lend and to borrow are the two percentages of
      its nominal limit, and without a borrowing percentage there is no limit on borrowing. */
  lemma ConfiguredLimits(nominal: nat, c: Config, highDemand: nat, smoothDemand: real)
    ensures var l := Configured(nominal, c, highDemand, smoothDemand);
      && l.nominal == nominal && l.highDemand == highDemand && l.smoothDemand == smoothDemand
      && -50 <= 100 * l.lendable - nominal * c.lendablePercent <= 50
      && (l.borrowing.None? <==> c.borrowingLimitPercent.None?)
      && (l.borrowing.Some? ==> -50 <= 100 * l.borrowing.value - nominal * c.borrowingLimitPercent.value <= 50)
  {
    RoundPercentNearest(nominal, c.lendablePercent);
    if c.borrowingLimitPercent.Some? {
      RoundPercentNearest(nominal, c.borrowingLimitPercent.value);
    }
  }

  /** NominalCL is the least integer that is not below serverCL * shares / sumShares. */
  lemma NominalIsCeiling(serverCL: nat, shares: nat, sumShares: nat, n: nat)
    requires sumShares > 0
    ensures n == NominalCL(serverCL, shares, sumShares)
       <==> serverCL * shares <= sumShares * n < serverCL * shares + sumShares
  {
    CeilDivBounds(serverCL * shares, sumShares);
    CeilingUnique(serverCL * shares, sumShares, n, NominalCL(serverCL, shares, sumShares));
  }

  lemma CeilingUnique(x: int, y: int, n: int, m: int)
    requires y > 0 && x <= y * m < x + y
    ensures n == m <==> x <= y * n < x + y
  {
    if n < m {
      MultiplesApart(y, n, m, m - n - 1);
    } else if m < n {
      MultiplesApart(y, m, n, n - m - 1);
    }
  }

  // ----- smoothed demand -----

  function SmoothStep(a: real, smooth: real, envelope: real): real {
    Max(envelope, a * smooth + (1.0 - a) * envelope)
  }

  /** A run of adjustment periods: the envelope of each period and the smoothed demand
      before and after each, starting from zero. */
  ghost predicate IsRun(a: real, envelopes: seq<real>, smooth: seq<real>) {
    && |smooth| == |envelopes| + 1 && smooth[0] == 0.0
    && (forall i :: 0 <= i < |envelopes| ==> envelopes[i] >= 0.0)
    && (forall i :: 0 <= i < |envelopes| ==> smooth[i + 1] == SmoothStep(a, smooth[i], envelopes[i]))
  }

  /** The largest of the first n envelopes, and at least zero. */
  function Peak(envelopes: seq<real>, n: nat): real
    requires n <= |envelopes|
  {
    if n == 0 then 0.0 else Max(Peak(envelopes, n - 1), envelopes[n - 1])
  }

  lemma StepBounds(a: real, smooth: real, envelope: real, peak: real)
    requires 0.0 < a < 1.0 && smooth <= peak && 0.0 <= smooth && 0.0 <= envelope
    ensures envelope <= SmoothStep(a, smooth, envelope) <= Max(peak, envelope)
    ensures 0.0 <= SmoothStep(a, smooth, envelope)
  {
    AverageBelow(a, smooth, envelope, Max(peak, envelope));
  }

  lemma AverageBelow(a: real, x: real, y: real, top: real)
    requires 0.0 <= a <= 1.0 && x <= top && y <= top
    ensures a * x + (1.0 - a) * y <= top
  {
    AverageIsBlend(a, x, y);
    if y <= x {
      BlendBounds(a, y, x);
    } else {
      BlendDown(a, y, x);
    }
  }

  lemma AverageIsBlend(a: real, x: real, y: real)
    ensures a * x + (1.0 - a) * y == Blend(a, y, x)
  {
  }

  lemma BlendDown(a: real, from: real, down: real)
    requires a >= 0.0 && down <= from
    ensures Blend(a, from, down) <= from
  {
    NonPositive(a, down - from);
  }

  /** At every point of every run the smoothed demand lies between the latest envelope and
      the largest envelope seen so far. */
  lemma {:induction false} SmoothBetween(a: real, envelopes: seq<real>, smooth: seq<real>, n: nat)
    requires 0.0 < a < 1.0 && IsRun(a, envelopes, smooth) && n <= |envelopes|
    ensures 0.0 <= smooth[n] <= Peak(envelopes, n)
    ensures n > 0 ==> envelopes[n - 1] <= smooth[n]
    decreases n
  {
    if n > 0 {
      SmoothBetween(a, envelopes, smooth, n - 1);
      assert smooth[n - 1 + 1] == SmoothStep(a, smooth[n - 1], envelopes[n - 1]);
      StepBounds(a, smooth[n - 1], envelopes[n - 1], Peak(envelopes, n - 1));
    }
  }

  lemma TowardStep(a: real, s: real, e: real, excess: real, excess': real)
    requires a > 0.0 && s == e + excess && excess >= 0.0 && excess' == a * excess
    ensures excess' >= 0.0 && SmoothStep(a, s, e) == e + excess'
  {
    AverageIsBlend(a, s, e);
    NonPositive(a, -excess);
    Negate(a, excess);
  }

  lemma PowerStep(a: real, p: real, d: real, p': real)
    requires p' == a * p
    ensures p' * d == a * (p * d)
  {
  }

  /** Through n periods of the same envelope e that does not exceed it, the smoothed demand decays
      toward e: its excess shrinks geometrically with factor a. */
  lemma {:induction false} DecaysToward(a: real, envelopes: seq<real>, smooth: seq<real>, from: nat, n: nat, e: real)
    requires 0.0 < a < 1.0 && IsRun(a, envelopes, smooth) && from + n <= |envelopes|
    requires smooth[from] >= e && forall i :: from <= i < from + n ==> envelopes[i] == e
    ensures smooth[from + n] == e + Pow(a, n) * (smooth[from] - e) && Pow(a, n) * (smooth[from] - e) >= 0.0
    decreases n
  {
    if n > 0 {
      var i, d := from + n - 1, smooth[from] - e;
      DecaysToward(a, envelopes, smooth, from, n - 1, e);
      PowerStep(a, Pow(a, n - 1), d, Pow(a, n));
      TowardStep(a, smooth[i], e, Pow(a, n - 1) * d, Pow(a, n) * d);
      assert smooth[i + 1] == SmoothStep(a, smooth[i], envelopes[i]);
    }
  }

  /** Through n periods without demand it decays geometrically with factor a. */
  lemma {:induction false} SmoothDecays(a: real, envelopes: seq<real>, smooth: seq<real>, from: nat, n: nat)
    requires 0.0 < a < 1.0 && IsRun(a, envelopes, smooth) && from + n <= |envelopes|
    requires forall i :: from <= i < from + n ==> envelopes[i] == 0.0
    ensures smooth[from + n] == Pow(a, n) * smooth[from]
  {
    SmoothBetween(a, envelopes, smooth, from);
    DecaysToward(a, envelopes, smooth, from, n, 0.0);
  }

  /** An envelope above the smoothed demand is tracked at once. */
  lemma TracksRise(a: real, envelopes: seq<real>, smooth: seq<real>, i: nat)
    requires 0.0 < a < 1.0 && IsRun(a, envelopes, smooth) && i < |envelopes| && smooth[i] <= envelopes[i]
    ensures smooth[i + 1] == envelopes[i]
  {
    AverageIsBlend(a, smooth[i], envelopes[i]);
    BlendDown(a, envelopes[i], smooth[i]);
  }
}
