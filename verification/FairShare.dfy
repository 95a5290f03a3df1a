/** The clipped proportional-share problem at the heart of borrowing: find one proportion
    that all levels share except those with a bound that forbids it, such that the shares
    add up to a given total; solved by sorting and a greedy pass. */
module FairShare {
  import opened Sorting
  import opened Options
  import opened Reals

  datatype Bound = Finite(limit: real) | Unlimited

  /** What one level brings to the problem: its bounds and its target. */
  datatype Claim = Claim(low: real, high: Bound, target: real)

  ghost predicate ValidClaim(c: Claim) {
    0.0 <= c.low <= c.target && (c.high.Finite? ==> c.low <= c.high.limit)
  }

  ghost predicate Valid(claims: seq<Claim>) {
    forall i :: 0 <= i < |claims| ==> ValidClaim(claims[i])
  }

  function Cap(x: real, b: Bound): real {
    if b.Finite? && b.limit < x then b.limit else x
  }

  /** min(high, max(low, fairProp * target)). */
  function Share(c: Claim, fairProp: real): real {
    Cap(Max(c.low, fairProp * c.target), c.high)
  }

  function ShareAt(fairProp: real): Claim -> real {
    (c: Claim) => Share(c, fairProp)
  }

  function Low(): Claim -> real {
    (c: Claim) => c.low
  }

  function TotalShares(claims: seq<Claim>, fairProp: real): real {
    Weigh(claims, ShareAt(fairProp))
  }

  /** The proportion solves the problem. */
  ghost predicate Solves(claims: seq<Claim>, total: real, fairProp: real) {
    TotalShares(claims, fairProp) == total
  }

  // ----- shares grow with the proportion -----

  lemma ShareMonotone(c: Claim, f: real, g: real)
    requires ValidClaim(c) && f <= g
    ensures Share(c, f) <= Share(c, g)
  {
    ScaleMono(c.target, f, g);
  }

  lemma TotalMonotone(claims: seq<Claim>, f: real, g: real)
    requires Valid(claims) && f <= g
    ensures forall i :: 0 <= i < |claims| ==> ShareAt(f)(claims[i]) <= ShareAt(g)(claims[i])
    ensures TotalShares(claims, f) <= TotalShares(claims, g)
  {
    forall i | 0 <= i < |claims|
      ensures ShareAt(f)(claims[i]) <= ShareAt(g)(claims[i])
    {
      ShareMonotone(claims[i], f, g);
    }
    WeighMono(claims, ShareAt(f), ShareAt(g));
  }

  /** A larger total never gives anyone a smaller share, whichever proportions solve the two. */
  lemma SolutionsMonotone(claims: seq<Claim>, total: real, f: real, total': real, f': real)
    requires Valid(claims) && total <= total' && Solves(claims, total, f) && Solves(claims, total', f')
    ensures forall i :: 0 <= i < |claims| ==> Share(claims[i], f) <= Share(claims[i], f')
  {
    if f <= f' {
      TotalMonotone(claims, f, f');
      forall i | 0 <= i < |claims|
        ensures Share(claims[i], f) <= Share(claims[i], f')
      {
        assert ShareAt(f)(claims[i]) <= ShareAt(f')(claims[i]);
      }
    } else {
      TotalMonotone(claims, f', f);
      WeighTight(claims, ShareAt(f'), ShareAt(f));
      forall i | 0 <= i < |claims|
        ensures Share(claims[i], f) <= Share(claims[i], f')
      {
        assert ShareAt(f')(claims[i]) == ShareAt(f)(claims[i]);
      }
    }
  }

  /** All proportions that solve the problem yield the same shares. */
  lemma SolutionsAgree(claims: seq<Claim>, total: real, f: real, g: real)
    requires Valid(claims) && Solves(claims, total, f) && Solves(claims, total, g)
    ensures forall i :: 0 <= i < |claims| ==> Share(claims[i], f) == Share(claims[i], g)
  {
    SolutionsMonotone(claims, total, f, total, g);
    SolutionsMonotone(claims, total, g, total, f);
  }

  // ----- the total as a sum of ramps -----

  /** At proportion `at`, a level starts (positive slope) or stops (negative slope) growing. */
  datatype Event = Event(at: real, slope: real)

  function Events(claims: seq<Claim>): seq<Event> {
    if claims == [] then [] else EventsOf(claims[0]) + Events(claims[1..])
  }

  function EventsOf(c: Claim): seq<Event> {
    if c.target <= 0.0 then []
    else if c.high.Unlimited? then [Event(c.low / c.target, c.target)]
    else [Event(c.low / c.target, c.target), Event(c.high.limit / c.target, -c.target)]
  }

  function Ramp(f: real): Event -> real {
    (e: Event) => if f <= e.at then 0.0 else f * e.slope - e.slope * e.at
  }

  lemma RisingRamp(f: real, t: real, e: Event, low: real, x: real)
    requires t > 0.0 && e == Event(low / t, t) && x == f * t
    ensures Ramp(f)(e) == if x <= low then 0.0 else x - low
  {
    CrossMultiply(f, t, e.at, low, x);
    assert Ramp(f)(e) == if f <= e.at then 0.0 else f * e.slope - e.slope * e.at;
  }

  lemma FallingRamp(f: real, t: real, e: Event, high: real, x: real)
    requires t > 0.0 && e == Event(high / t, -t) && x == f * t
    ensures Ramp(f)(e) == if x <= high then 0.0 else high - x
  {
    CrossMultiply(f, t, e.at, high, x);
    Negate(f, t);
    Negate(e.at, t);
    assert Ramp(f)(e) == if f <= e.at then 0.0 else f * e.slope - e.slope * e.at;
  }

  lemma CrossMultiply(f: real, t: real, q: real, y: real, x: real)
    requires t > 0.0 && q == y / t && x == f * t
    ensures q * t == t * q == y
    ensures f <= q <==> x <= y
  {
    DividedBack(t, q, y);
    CompareScaled(f, t, q, y, x);
  }

  lemma CompareScaled(f: real, t: real, q: real, y: real, x: real)
    requires t > 0.0 && y == q * t && x == f * t
    ensures f <= q <==> x <= y
  {
    if f <= q {
      ScaleMono(t, f, q);
    } else {
      StrictScale(t, q, f);
    }
  }

  lemma DividedBack(t: real, q: real, y: real)
    requires t > 0.0 && q == y / t
    ensures q * t == t * q == y
  {
  }

  lemma ZeroTarget(c: Claim, f: real)
    requires ValidClaim(c) && c.target <= 0.0
    ensures Share(c, f) == c.low == 0.0
  {
    ZeroProduct(f, c.target);
  }

  lemma ShareIsRamps(c: Claim, f: real)
    requires ValidClaim(c)
    ensures Share(c, f) == c.low + Weigh(EventsOf(c), Ramp(f))
  {
    var t := c.target;
    if t <= 0.0 {
      ZeroTarget(c, f);
    } else {
      var e := Event(c.low / t, t);
      RisingRamp(f, t, e, c.low, f * t);
      if c.high.Unlimited? {
        WeighOne(e, Ramp(f));
      } else {
        var e' := Event(c.high.limit / t, -t);
        FallingRamp(f, t, e', c.high.limit, f * t);
        WeighTwo(e, e', Ramp(f));
      }
    }
  }

  lemma WeighOne(e: Event, g: Event -> real)
    ensures Weigh([e], g) == g(e)
  {
    assert [e][1..] == [];
  }

  lemma WeighTwo(e: Event, e': Event, g: Event -> real)
    ensures Weigh([e, e'], g) == g(e) + g(e')
  {
    assert [e, e'][1..] == [e'];
    WeighOne(e', g);
  }

  /** The total is the sum of the lower bounds plus one ramp for every event passed. */
  lemma {:induction false} TotalIsRamps(claims: seq<Claim>, f: real)
    requires Valid(claims)
    ensures TotalShares(claims, f) == Weigh(claims, Low()) + Weigh(Events(claims), Ramp(f))
  {
    if claims != [] {
      var c, rest := claims[0], claims[1..];
      assert forall i :: 0 <= i < |rest| ==> rest[i] == claims[i + 1];
      TotalIsRamps(rest, f);
      ShareIsRamps(c, f);
      WeighConcat(EventsOf(c), Events(rest), Ramp(f));
    }
  }

  // ----- which totals can be reached -----

  /** A level that keeps growing with the proportion. */
  predicate Open(c: Claim) {
    c.target > 0.0 && c.high.Unlimited?
  }

  /** What a level cannot exceed, if it is not open; a level without a target stays at zero. */
  function Ceiling(): Claim -> real {
    (c: Claim) => if c.target > 0.0 && c.high.Finite? then c.high.limit else 0.0
  }

  ghost predicate Reachable(claims: seq<Claim>, total: real) {
    Weigh(claims, Low()) <= total
    && ((exists i :: 0 <= i < |claims| && Open(claims[i])) || total <= Weigh(claims, Ceiling()))
  }

  lemma ShareBounds(c: Claim, f: real)
    requires ValidClaim(c)
    ensures c.low <= Share(c, f)
    ensures c.high.Finite? ==> Share(c, f) <= c.high.limit
    ensures !Open(c) ==> Share(c, f) <= Ceiling()(c)
  {
    if c.target <= 0.0 {
      ZeroTarget(c, f);
    }
  }

  lemma SolvedIsReachable(claims: seq<Claim>, total: real, f: real)
    requires Valid(claims) && Solves(claims, total, f)
    ensures Reachable(claims, total)
  {
    forall i | 0 <= i < |claims|
      ensures Low()(claims[i]) <= ShareAt(f)(claims[i])
      ensures !Open(claims[i]) ==> ShareAt(f)(claims[i]) <= Ceiling()(claims[i])
    {
      ShareBounds(claims[i], f);
    }
    WeighMono(claims, Low(), ShareAt(f));
    if !exists i :: 0 <= i < |claims| && Open(claims[i]) {
      WeighMono(claims, ShareAt(f), Ceiling());
    }
  }

  // ----- the greedy pass -----

  function Slope(): Event -> real {
    (e: Event) => e.slope
  }

  function Drop(): Event -> real {
    (e: Event) => -(e.slope * e.at)
  }

  function At(): Event -> real {
    (e: Event) => e.at
  }

  /** f lies between the k-th event and the one before it. */
  ghost predicate Between(events: seq<Event>, k: nat, f: real) {
    && k <= |events|
    && (forall i :: 0 <= i < k ==> events[i].at <= f)
    && (forall i :: k <= i < |events| ==> f <= events[i].at)
  }

  lemma PassedRamp(e: Event, f: real)
    requires e.at <= f
    ensures Ramp(f)(e) == f * Slope()(e) + Drop()(e)
  {
    if f == e.at {
      Commute(f, e.slope);
    }
  }

  /** Between two events the ramps add up to a straight line. */
  lemma {:induction false} SegmentIsLine(events: seq<Event>, k: nat, f: real, slope: real)
    requires Between(events, k, f) && slope == Weigh(events[..k], Slope())
    ensures Weigh(events, Ramp(f)) == f * slope + Weigh(events[..k], Drop())
  {
    assert events == events[..k] + events[k..];
    WeighConcat(events[..k], events[k..], Ramp(f));
    PassedIsLine(events[..k], f, slope);
    WeighZero(events[k..], Ramp(f));
  }

  lemma {:induction false} PassedIsLine(passed: seq<Event>, f: real, slope: real)
    requires (forall i :: 0 <= i < |passed| ==> passed[i].at <= f) && slope == Weigh(passed, Slope())
    ensures Weigh(passed, Ramp(f)) == f * slope + Weigh(passed, Drop())
  {
    PassedRamps(passed, f);
    WeighAffineAs(passed, f, Slope(), Drop(), Ramp(f), slope);
  }

  lemma PassedRamps(passed: seq<Event>, f: real)
    requires forall i :: 0 <= i < |passed| ==> passed[i].at <= f
    ensures forall i :: 0 <= i < |passed| ==> Ramp(f)(passed[i]) == f * Slope()(passed[i]) + Drop()(passed[i])
  {
    forall i | 0 <= i < |passed|
      ensures Ramp(f)(passed[i]) == f * Slope()(passed[i]) + Drop()(passed[i])
    {
      PassedRamp(passed[i], f);
    }
  }

  lemma {:induction false} WeighAppend(s: seq<Event>, k: nat, g: Event -> real)
    requires k < |s|
    ensures Weigh(s[..k + 1], g) == Weigh(s[..k], g) + g(s[k])
  {
    assert s[..k + 1] == s[..k] + [s[k]];
    WeighConcat(s[..k], [s[k]], g);
    WeighOne(s[k], g);
  }

  /** On the segment that f lies in, the total is base + f*slope. */
  lemma {:induction false} TotalOnSegment(claims: seq<Claim>, events: seq<Event>, k: nat, f: real, base: real,
                                          slope: real)
    requires Valid(claims) && multiset(events) == multiset(Events(claims)) && Between(events, k, f)
    requires slope == Weigh(events[..k], Slope())
    requires base == Weigh(claims, Low()) + Weigh(events[..k], Drop())
    ensures TotalShares(claims, f) == base + f * slope
  {
    TotalIsRamps(claims, f);
    WeighPermutation(events, Events(claims), Ramp(f));
    SegmentIsLine(events, k, f, slope);
  }

  // What is left after the last event: the open levels grow, all others are at their ceiling.

  function OpenSlope(): Claim -> real {
    (c: Claim) => if Open(c) then c.target else 0.0
  }

  lemma SlopesOf(c: Claim)
    requires ValidClaim(c)
    ensures Weigh(EventsOf(c), Slope()) == OpenSlope()(c)
    ensures c.low + Weigh(EventsOf(c), Drop()) == Ceiling()(c)
  {
    var t := c.target;
    if t > 0.0 {
      var e := Event(c.low / t, t);
      Cancel(c.low, t);
      if c.high.Unlimited? {
        WeighOne(e, Slope());
        WeighOne(e, Drop());
      } else {
        var e' := Event(c.high.limit / t, -t);
        Cancel(c.high.limit, t);
        WeighTwo(e, e', Slope());
        WeighTwo(e, e', Drop());
      }
    }
  }

  lemma Cancel(x: real, t: real)
    requires t > 0.0
    ensures t * (x / t) == x && (-t) * (x / t) == -x
  {
    var q := x / t;
    assert t * q == x;
    assert (-t) * q == -(t * q);
  }

  lemma {:induction false} SlopesAtEnd(claims: seq<Claim>)
    requires Valid(claims)
    ensures Weigh(Events(claims), Slope()) == Weigh(claims, OpenSlope())
    ensures Weigh(claims, Low()) + Weigh(Events(claims), Drop()) == Weigh(claims, Ceiling())
  {
    if claims != [] {
      var c, rest := claims[0], claims[1..];
      assert forall i :: 0 <= i < |rest| ==> rest[i] == claims[i + 1];
      SlopesAtEnd(rest);
      SlopesOf(c);
      WeighConcat(EventsOf(c), Events(rest), Slope());
      WeighConcat(EventsOf(c), Events(rest), Drop());
    }
  }

  lemma {:induction false} OpenSlopePositive(claims: seq<Claim>)
    ensures Weigh(claims, OpenSlope()) >= 0.0
    ensures (exists i :: 0 <= i < |claims| && Open(claims[i])) ==> Weigh(claims, OpenSlope()) > 0.0
  {
    if claims != [] {
      var rest := claims[1..];
      OpenSlopePositive(rest);
      if i :| 0 <= i < |claims| && Open(claims[i]) {
        if i > 0 {
          assert Open(rest[i - 1]);
        }
      }
    }
  }

  lemma {:induction false} EventsNonNegative(claims: seq<Claim>)
    requires Valid(claims)
    ensures forall i :: 0 <= i < |Events(claims)| ==> 0.0 <= Events(claims)[i].at
  {
    if claims != [] {
      var c, rest := claims[0], claims[1..];
      assert forall i :: 0 <= i < |rest| ==> rest[i] == claims[i + 1];
      EventsNonNegative(rest);
      forall i | 0 <= i < |EventsOf(c)|
        ensures 0.0 <= EventsOf(c)[i].at
      {
        NonNegativeQuotient(c.low, c.target);
        if c.high.Finite? {
          NonNegativeQuotient(c.high.limit, c.target);
        }
      }
    }
  }

  lemma NonNegativeQuotient(x: real, t: real)
    requires x >= 0.0 && t > 0.0
    ensures x / t >= 0.0
  {
  }

  /** Beyond the last event nothing grows unless some level is open. */
  lemma {:induction false} NoSolution(claims: seq<Claim>, events: seq<Event>, total: real, prev: real,
                                      base: real, slope: real)
    requires Valid(claims) && multiset(events) == multiset(Events(claims))
    requires slope == Weigh(events, Slope()) && base == Weigh(claims, Low()) + Weigh(events, Drop())
    requires slope <= 0.0 && base + prev * slope < total
    ensures !Reachable(claims, total)
  {
    WeighPermutation(events, Events(claims), Slope());
    WeighPermutation(events, Events(claims), Drop());
    SlopesAtEnd(claims);
    OpenSlopePositive(claims);
    ZeroProduct(prev, slope);
  }

  /** Where a line that starts at or below `total` and ends at or above it meets it. */
  method Meet(base: real, slope: real, prev: real, next: real, total: real) returns (f: real)
    requires prev <= next && base + prev * slope <= total <= base + next * slope
    ensures prev <= f <= next && base + f * slope == total
  {
    var here := base + prev * slope;
    if here == total {
      f := prev;
    } else {
      StrictRise(base, slope, prev, next, total);
      f := Crossing(base, slope, total);
      CrossingMeets(base, slope, total, f);
      CrossingAfter(base, slope, prev, total, f);
      CrossingBefore(base, slope, next, total, f);
    }
  }

  /** The solution of base + f*slope = total. */
  function Crossing(base: real, slope: real, total: real): real
    requires slope > 0.0
  {
    (total - base) / slope
  }

  lemma CrossingMeets(base: real, slope: real, total: real, f: real)
    requires slope > 0.0 && f == Crossing(base, slope, total)
    ensures base + f * slope == total
  {
    assert f * slope == total - base;
  }

  lemma CrossingAfter(base: real, slope: real, prev: real, total: real, f: real)
    requires slope > 0.0 && base + f * slope == total && base + prev * slope <= total
    ensures prev <= f
  {
    if f < prev {
      StrictScale(slope, f, prev);
    }
  }

  lemma StrictRise(base: real, slope: real, prev: real, next: real, total: real)
    requires prev <= next && base + prev * slope < total <= base + next * slope
    ensures slope > 0.0
  {
    if slope <= 0.0 {
      ScaleMono(-slope, prev, next);
      Negate(prev, slope);
      Negate(next, slope);
    }
  }

  lemma CrossingBefore(base: real, slope: real, next: real, total: real, f: real)
    requires slope > 0.0 && base + f * slope == total <= base + next * slope
    ensures f <= next
  {
    if next < f {
      StrictScale(slope, next, f);
    }
  }

  /** The events in order, from proportion zero on. */
  method SortedEvents(claims: seq<Claim>) returns (events: seq<Event>)
    requires Valid(claims)
    ensures multiset(events) == multiset(Events(claims))
    ensures Sorted(events, At()) && Between(events, 0, 0.0)
  {
    events := MergeSort(Events(claims), At());
    MergeSortCorrect(Events(claims), At());
    EventsNonNegative(claims);
    forall i | 0 <= i < |events|
      ensures 0.0 <= events[i].at
    {
      assert events[i] in multiset(events);
      assert events[i] in Events(claims);
    }
  }

  lemma NextBetween(events: seq<Event>, k: nat)
    requires Sorted(events, At()) && k < |events|
    ensures Between(events, k, events[k].at) && Between(events, k + 1, events[k].at)
  {
    forall i | 0 <= i < |events|
      ensures i < k ==> events[i].at <= events[k].at
      ensures k < i ==> events[k].at <= events[i].at
    {
      assert i < k ==> At()(events[i]) <= At()(events[k]);
      assert k < i ==> At()(events[k]) <= At()(events[i]);
    }
  }

  /** Finds a proportion that makes the shares add up to total: sort the events, then walk
      them while the total at the next event is still too small. Fails exactly when no
      proportion exists. */
  method Solve(claims: seq<Claim>, total: real) returns (r: Option<real>)
    requires Valid(claims)
    ensures r.Some? ==> r.value >= 0.0 && Solves(claims, total, r.value)
    ensures r.Some? <==> Reachable(claims, total)
    ensures r.None? ==> forall f :: !Solves(claims, total, f)
  {
    if Weigh(claims, Low()) > total {
      r := None;
    } else {
      var events := SortedEvents(claims);
      r := Walk(claims, events, total);
    }
    Unsolvable(claims, total);
  }

  lemma Unsolvable(claims: seq<Claim>, total: real)
    requires Valid(claims)
    ensures (exists f :: Solves(claims, total, f)) ==> Reachable(claims, total)
  {
    if f :| Solves(claims, total, f) {
      SolvedIsReachable(claims, total, f);
    }
  }

  /** The pass has taken in the first k events and found the total at prev not too large;
      on the segment from prev to the next event the total is base + f*slope. */
  ghost predicate Walking(claims: seq<Claim>, events: seq<Event>, total: real,
                          k: nat, prev: real, base: real, slope: real) {
    && 0.0 <= prev && Between(events, k, prev)
    && slope == Weigh(events[..k], Slope())
    && base == Weigh(claims, Low()) + Weigh(events[..k], Drop())
    && base + prev * slope <= total
  }

  lemma {:induction false} StartWalk(claims: seq<Claim>, events: seq<Event>, total: real, zero: real)
    requires Weigh(claims, Low()) <= total && Between(events, 0, 0.0) && zero == 0.0
    ensures Walking(claims, events, total, 0, zero, Weigh(claims, Low()), zero)
  {
    ZeroProduct(zero, zero);
  }

  lemma StepWalk(claims: seq<Claim>, events: seq<Event>, total: real, k: nat, prev: real, base: real, slope: real,
                 base': real, slope': real)
    requires Walking(claims, events, total, k, prev, base, slope) && Sorted(events, At())
    requires k < |events| && base + events[k].at * slope < total
    requires base' == base + Drop()(events[k]) && slope' == slope + events[k].slope
    ensures Walking(claims, events, total, k + 1, events[k].at, base', slope')
  {
    NextBetween(events, k);
    WeighAppend(events, k, Slope());
    WeighAppend(events, k, Drop());
    PassEvent(base, slope, events[k], base', slope');
  }

  lemma PassEvent(base: real, slope: real, e: Event, base': real, slope': real)
    requires base' == base + Drop()(e) && slope' == slope + e.slope
    ensures base' + e.at * slope' == base + e.at * slope
  {
    assert e.at * (slope + e.slope) == e.at * slope + e.slope * e.at;
  }

  /** The solution lies at or before the k-th event. */
  ghost predicate Stops(events: seq<Event>, total: real, k: nat, base: real, slope: real) {
    k < |events| && total <= base + events[k].at * slope
  }

  /** Takes in the next event, unless the solution lies before it. */
  method Advance(ghost claims: seq<Claim>, events: seq<Event>, total: real, k: nat, prev: real, base: real, slope: real)
      returns (moved: bool, prev': real, base': real, slope': real)
    requires Walking(claims, events, total, k, prev, base, slope) && Sorted(events, At()) && k < |events|
    ensures if moved then Walking(claims, events, total, k + 1, prev', base', slope')
            else Stops(events, total, k, base, slope)
  {
    prev', base', slope' := events[k].at, base + Drop()(events[k]), slope + events[k].slope;
    moved := base + events[k].at * slope < total;
    if moved {
      StepWalk(claims, events, total, k, prev, base, slope, base', slope');
    }
  }

  method Walk(claims: seq<Claim>, events: seq<Event>, total: real) returns (r: Option<real>)
    requires Valid(claims) && Weigh(claims, Low()) <= total
    requires multiset(events) == multiset(Events(claims)) && Sorted(events, At()) && Between(events, 0, 0.0)
    ensures r.Some? ==> r.value >= 0.0 && Solves(claims, total, r.value)
    ensures r.None? ==> !Reachable(claims, total)
  {
    var k, prev, slope := 0, 0.0, 0.0;
    var base := Weigh(claims, Low());
    StartWalk(claims, events, total, 0.0);
    while k < |events|
      invariant 0 <= k <= |events|
      invariant Walking(claims, events, total, k, prev, base, slope)
    {
      var moved, prev', base', slope' := Advance(claims, events, total, k, prev, base, slope);
      if !moved {
        var f := Inside(claims, events, total, k, prev, base, slope);
        return Some(f);
      }
      k, prev, base, slope := k + 1, prev', base', slope';
    }
    r := Beyond(claims, events, total, prev, base, slope);
  }

  /** Within the segment before the k-th event. */
  method Inside(ghost claims: seq<Claim>, events: seq<Event>, total: real, k: nat, prev: real, base: real, slope: real)
      returns (f: real)
    requires Valid(claims) && multiset(events) == multiset(Events(claims)) && Sorted(events, At())
    requires Walking(claims, events, total, k, prev, base, slope) && Stops(events, total, k, base, slope)
    ensures f >= 0.0 && Solves(claims, total, f)
  {
    f := Meet(base, slope, prev, events[k].at, total);
    InSegment(claims, events, total, k, prev, base, slope, f);
  }

  lemma {:induction false} InSegment(claims: seq<Claim>, events: seq<Event>, total: real, k: nat, prev: real,
                                     base: real, slope: real, f: real)
    requires Valid(claims) && multiset(events) == multiset(Events(claims)) && Sorted(events, At())
    requires Walking(claims, events, total, k, prev, base, slope)
    requires prev <= f && base + f * slope == total && (k < |events| ==> f <= events[k].at)
    ensures 0.0 <= f && Solves(claims, total, f)
  {
    if k < |events| {
      NextBetween(events, k);
    }
    assert Between(events, k, f);
    TotalOnSegment(claims, events, k, f, base, slope);
  }

  /** Past the last event. */
  method Beyond(claims: seq<Claim>, events: seq<Event>, total: real, prev: real, base: real, slope: real)
      returns (r: Option<real>)
    requires Valid(claims) && multiset(events) == multiset(Events(claims)) && Sorted(events, At())
    requires Walking(claims, events, total, |events|, prev, base, slope)
    ensures r.Some? ==> r.value >= 0.0 && Solves(claims, total, r.value)
    ensures r.None? ==> !Reachable(claims, total)
  {
    if base + prev * slope == total {
      InSegment(claims, events, total, |events|, prev, base, slope, prev);
      r := Some(prev);
    } else if slope > 0.0 {
      var f := Crossing(base, slope, total);
      Crosses(base, slope, prev, total, f);
      InSegment(claims, events, total, |events|, prev, base, slope, f);
      r := Some(f);
    } else {
      assert events[..|events|] == events;
      NoSolution(claims, events, total, prev, base, slope);
      r := None;
    }
  }

  lemma Crosses(base: real, slope: real, prev: real, total: real, f: real)
    requires slope > 0.0 && f == Crossing(base, slope, total) && base + prev * slope <= total
    ensures prev <= f && base + f * slope == total
  {
    CrossingMeets(base, slope, total, f);
    CrossingAfter(base, slope, prev, total, f);
  }
}
