/** What `dist` means: the exact proportion of all series of hands, counted as sets,
    that show a given number of distinct cards. */
module Deals {
  import opened Reals
  import opened Sums
  import opened Binomial
  import opened Collisions

  ghost function Deck(D: nat): (deck: set<nat>)
    ensures |deck| == D
    ensures forall i :: i in deck <==> 0 <= i < D
  {
    if D == 0 then {} else Deck(D - 1) + {D - 1}
  }

  ghost function AllHands(D: nat, h: nat): set<set<nat>> {
    Subsets(Deck(D), h)
  }

  /** Every series of n hands. */
  ghost function Series(D: nat, h: nat, n: nat): set<seq<set<nat>>> {
    if n == 0 then {[]}
    else set s, t | s in Series(D, h, n - 1) && t in AllHands(D, h) :: s + [t]
  }

  /** The cards that a series has shown. */
  ghost function Seen(s: seq<set<nat>>): set<nat> {
    if s == [] then {} else Seen(s[..|s| - 1]) + s[|s| - 1]
  }

  /** The series of n hands that show exactly u distinct cards. */
  ghost function Outcomes(D: nat, h: nat, n: nat, u: int): set<seq<set<nat>>> {
    set s | s in Series(D, h, n) && |Seen(s)| == u
  }

  lemma {:induction false} SeenAppend(s: seq<set<nat>>, t: set<nat>)
    ensures Seen(s + [t]) == Seen(s) + t
  {
    assert (s + [t])[..|s|] == s;
  }

  lemma {:induction false} SeenInDeck(D: nat, h: nat, n: nat, s: seq<set<nat>>)
    requires s in Series(D, h, n)
    ensures |s| == n && Seen(s) <= Deck(D) && |Seen(s)| <= D
    decreases n
  {
    if n > 0 {
      var s', t :| s' in Series(D, h, n - 1) && t in AllHands(D, h) && s == s' + [t];
      SeenInDeck(D, h, n - 1, s');
      SeenAppend(s', t);
    }
    PartSize(Seen(s), Deck(D));
  }

  // ----- hands that add k cards -----

  ghost function Adding(D: nat, h: nat, seen: set<nat>, k: int): set<set<nat>> {
    set t | t in AllHands(D, h) && |t - seen| == k
  }

  lemma UnionSize(a: set<nat>, b: set<nat>)
    ensures |a + b| == |a| + |b - a|
  {
    assert a + b == a + (b - a);
  }

  /** The unions of k elements of one set with m elements of another. */
  ghost function Unions(x: set<nat>, y: set<nat>, k: nat, m: nat): set<set<nat>> {
    set a, b | a in Subsets(x, k) && b in Subsets(y, m) :: a + b
  }

  lemma {:induction false} UnionsCount(x: set<nat>, y: set<nat>, k: nat, m: nat)
    requires x !! y
    ensures |Unions(x, y, k, m)| == Times(Choose(|x|, k), Choose(|y|, m))
  {
    var fiber := (a: set<nat>) => Subsets(y, m);
    var join := (p: (set<nat>, set<nat>)) => p.0 + p.1;
    SubsetCount(x, k);
    SubsetCount(y, m);
    PairsSize(Subsets(x, k), fiber, |Subsets(y, m)|);
    JoinsSize(x, y, Pairs(Subsets(x, k), fiber), join);
    UnionsAreJoins(x, y, k, m, fiber, join);
  }

  lemma {:induction false} UnionsCountAs(x: set<nat>, y: set<nat>, k: nat, m: nat, size: nat)
    requires x !! y && |x| == size
    ensures |Unions(x, y, k, m)| == Times(Choose(size, k), Choose(|y|, m))
  {
    UnionsCount(x, y, k, m);
  }

  lemma JoinsSize(x: set<nat>, y: set<nat>, pairs: set<(set<nat>, set<nat>)>, join: ((set<nat>, set<nat>)) -> set<nat>)
    requires x !! y
    requires forall p :: p in pairs ==> p.0 <= x && p.1 <= y
    requires forall p :: join(p) == p.0 + p.1
    ensures |Image(join, pairs)| == |pairs|
  {
    forall p, q | p in pairs && q in pairs && join(p) == join(q)
      ensures p == q
    {
      assert p.0 == join(p) - y && q.0 == join(q) - y;
      assert p.1 == join(p) - x && q.1 == join(q) - x;
    }
    ImageSize(join, pairs);
  }

  lemma UnionsAreJoins(x: set<nat>, y: set<nat>, k: nat, m: nat,
                       fiber: set<nat> -> set<set<nat>>, join: ((set<nat>, set<nat>)) -> set<nat>)
    requires forall a :: fiber(a) == Subsets(y, m)
    requires forall p :: join(p) == p.0 + p.1
    ensures Unions(x, y, k, m) == Image(join, Pairs(Subsets(x, k), fiber))
  {
    forall t | t in Unions(x, y, k, m)
      ensures t in Image(join, Pairs(Subsets(x, k), fiber))
    {
      var a, b :| a in Subsets(x, k) && b in Subsets(y, m) && t == a + b;
      assert (a, b) in Pairs(Subsets(x, k), fiber) && join((a, b)) == t;
    }
  }

  /** A hand is some unseen cards together with some seen ones. */
  lemma {:induction false} AddingIsUnions(D: nat, h: nat, seen: set<nat>, k: nat)
    requires seen <= Deck(D) && k <= h
    ensures Adding(D, h, seen, k) == Unions(Deck(D) - seen, seen, k, h - k)
  {
    var unseen := Deck(D) - seen;
    forall t | t in Adding(D, h, seen, k)
      ensures t in Unions(unseen, seen, k, h - k)
    {
      Parted(t, Deck(D), seen);
      assert t - seen in Subsets(unseen, k) && t * seen in Subsets(seen, h - k);
    }
    forall t | t in Unions(unseen, seen, k, h - k)
      ensures t in Adding(D, h, seen, k)
    {
      var a, b :| a in Subsets(unseen, k) && b in Subsets(seen, h - k) && t == a + b;
      Joined(a, b, Deck(D), seen);
    }
  }

  lemma Parted(t: set<nat>, deck: set<nat>, seen: set<nat>)
    requires t <= deck
    ensures t == (t - seen) + (t * seen) && |t| == |t - seen| + |t * seen|
    ensures t - seen <= deck - seen && t * seen <= seen
  {
    assert t == (t - seen) + (t * seen);
  }

  lemma Joined(a: set<nat>, b: set<nat>, deck: set<nat>, seen: set<nat>)
    requires seen <= deck && a <= deck - seen && b <= seen
    ensures a + b <= deck && |a + b| == |a| + |b| && a + b - seen == a
  {
    assert a !! b;
  }

  ghost function Additions(D: nat, h: nat, p: nat, k: nat): nat
    requires p <= D && k <= h
  {
    Times(Choose(D - p, k), Choose(p, h - k))
  }

  lemma WaysIsAdditions(D: nat, h: nat, p: nat, k: nat)
    requires p <= D && k <= h
    ensures Ways(D, h, p, k) == Additions(D, h, p, k) as real
  {
    TimesIs(Choose(D - p, k), Choose(p, h - k));
  }

  lemma {:induction false} AddingCount(D: nat, h: nat, seen: set<nat>, k: nat)
    requires seen <= Deck(D) && k <= h
    ensures |seen| <= D
    ensures |Adding(D, h, seen, k)| == Additions(D, h, |seen|, k)
  {
    UnseenCount(D, seen);
    AddingIsUnions(D, h, seen, k);
    UnionsCountAs(Deck(D) - seen, seen, k, h - k, D - |seen|);
  }

  lemma {:induction false} UnseenCount(D: nat, seen: set<nat>)
    requires seen <= Deck(D)
    ensures |seen| <= D && |Deck(D) - seen| == D - |seen|
  {
    PartSize(seen, Deck(D));
  }

  // ----- series that end by adding k cards -----

  ghost function Fiber(D: nat, h: nat, k: int): seq<set<nat>> -> set<set<nat>> {
    s => Adding(D, h, Seen(s), k)
  }

  ghost function Append(): ((seq<set<nat>>, set<nat>)) -> seq<set<nat>> {
    (p: (seq<set<nat>>, set<nat>)) => p.0 + [p.1]
  }

  /** How many cards the last hand of a series added. */
  ghost function Added(): seq<set<nat>> -> int {
    s => if s == [] then 0 else |s[|s| - 1] - Seen(s[..|s| - 1])|
  }

  ghost function Class<X(!new)>(s: set<X>, tag: X -> int, k: int): set<X> {
    set a | a in s && tag(a) == k
  }

  ghost function ClassSizes<X(!new)>(s: set<X>, tag: X -> int): int -> real {
    k => |Class(s, tag, k)| as real
  }

  /** A finite set is the disjoint union of its classes. */
  lemma {:induction false} PartitionSize<X(!new)>(s: set<X>, tag: X -> int, hi: nat)
    requires forall a :: a in s ==> 0 <= tag(a) < hi
    ensures |s| as real == Sum(ClassSizes(s, tag), 0, hi)
    decreases hi
  {
    if hi == 0 {
      assert s == {};
    } else {
      var top := Class(s, tag, hi - 1);
      var rest := s - top;
      PartitionSize(rest, tag, hi - 1);
      forall k | 0 <= k < hi - 1
        ensures ClassSizes(rest, tag)(k) == ClassSizes(s, tag)(k)
      {
        assert Class(rest, tag, k) == Class(s, tag, k);
      }
      SumExt(ClassSizes(rest, tag), ClassSizes(s, tag), 0, hi - 1);
    }
  }

  lemma {:induction false} AddedAppend(s: seq<set<nat>>, t: set<nat>)
    ensures Added()(s + [t]) == |t - Seen(s)|
    ensures |Seen(s + [t])| == |Seen(s)| + |t - Seen(s)|
  {
    assert (s + [t])[..|s|] == s;
    SeenAppend(s, t);
    UnionSize(Seen(s), t);
  }

  /** The series of n+1 hands showing u cards whose last hand added k of them are the
      series of n hands showing u-k cards, each followed by a hand that adds k. */
  lemma ClassIsImage(D: nat, h: nat, n: nat, u: int, k: int)
    ensures Class(Outcomes(D, h, n + 1, u), Added(), k)
         == Image(Append(), Pairs(Outcomes(D, h, n, u - k), Fiber(D, h, k)))
  {
    var pairs := Pairs(Outcomes(D, h, n, u - k), Fiber(D, h, k));
    forall x | x in Class(Outcomes(D, h, n + 1, u), Added(), k)
      ensures x in Image(Append(), pairs)
    {
      var p := LastHand(D, h, n, u, k, x);
      assert Append()(p) == x;
    }
    forall p | p in pairs
      ensures Append()(p) in Class(Outcomes(D, h, n + 1, u), Added(), k)
    {
      FurtherHand(D, h, n, u, k, p.0, p.1);
    }
  }

  lemma SplitSeries(D: nat, h: nat, n: nat, x: seq<set<nat>>) returns (s: seq<set<nat>>, t: set<nat>)
    requires x in Series(D, h, n + 1)
    ensures s in Series(D, h, n) && t in AllHands(D, h) && x == s + [t]
  {
    s, t :| s in Series(D, h, n) && t in AllHands(D, h) && x == s + [t];
  }

  lemma LastHand(D: nat, h: nat, n: nat, u: int, k: int, x: seq<set<nat>>) returns (p: (seq<set<nat>>, set<nat>))
    requires x in Class(Outcomes(D, h, n + 1, u), Added(), k)
    ensures p in Pairs(Outcomes(D, h, n, u - k), Fiber(D, h, k)) && x == p.0 + [p.1]
  {
    var s, t := SplitSeries(D, h, n, x);
    AddedAppend(s, t);
    p := (s, t);
    assert t in Adding(D, h, Seen(s), k);
    assert t in Fiber(D, h, k)(s);
  }

  lemma {:induction false} FurtherHand(D: nat, h: nat, n: nat, u: int, k: int, s: seq<set<nat>>, t: set<nat>)
    requires s in Outcomes(D, h, n, u - k) && t in Adding(D, h, Seen(s), k)
    ensures s + [t] in Class(Outcomes(D, h, n + 1, u), Added(), k)
  {
    AddedAppend(s, t);
    assert s + [t] in Series(D, h, n + 1);
  }

  lemma AppendInjective(pairs: set<(seq<set<nat>>, set<nat>)>)
    ensures |Image(Append(), pairs)| == |pairs|
  {
    forall p, q | p in pairs && q in pairs && Append()(p) == Append()(q)
      ensures p == q
    {
      assert p.0 == Append()(p)[..|p.0|] && q.0 == Append()(q)[..|q.0|];
      assert p.1 == Append()(p)[|p.0|] && q.1 == Append()(q)[|q.0|];
    }
    ImageSize(Append(), pairs);
  }

  lemma {:induction false} FiberCount(D: nat, h: nat, n: nat, k: nat, s: seq<set<nat>>)
    requires k <= h && s in Series(D, h, n)
    ensures |Seen(s)| <= D
    ensures |Fiber(D, h, k)(s)| == Additions(D, h, |Seen(s)|, k)
  {
    SeenInDeck(D, h, n, s);
    AddingCount(D, h, Seen(s), k);
  }

  lemma NoOutcomes(D: nat, h: nat, n: nat, p: int)
    requires p < 0 || p > D
    ensures Outcomes(D, h, n, p) == {}
  {
    forall s | s in Outcomes(D, h, n, p)
      ensures false
    {
      SeenInDeck(D, h, n, s);
    }
  }

  /** The number of series showing p cards, for each p. */
  ghost function Tally(D: nat, h: nat, n: nat): int -> nat {
    p => |Outcomes(D, h, n, p)|
  }

  /** n copies of y, added up. */
  ghost function Copies(n: nat, y: real): real {
    if n == 0 then 0.0 else Copies(n - 1, y) + y
  }

  lemma {:induction false} CopiesIs(n: nat, y: real)
    ensures Copies(n, y) == n as real * y
  {
    if n > 0 {
      CopiesIs(n - 1, y);
      OneMore((n - 1) as real, y);
    }
  }

  lemma OneMore(x: real, y: real)
    ensures x * y + y == (x + 1.0) * y
  {
  }

  lemma {:induction false} CopiesOfCount(n: nat, w: nat)
    ensures Copies(n, w as real) == Times(n, w) as real
  {
    if n > 0 {
      CopiesOfCount(n - 1, w);
    }
  }

  /** What a tally of n hands contributes to the tally of n+1 hands at u. */
  ghost function TallyInflow(D: nat, h: nat, tally: int -> nat, u: int): int -> real {
    k => Copies(tally(u - k), Ways(D, h, u - k, k))
  }

  lemma ClassSize(D: nat, h: nat, n: nat, u: int, k: int, w: nat)
    requires forall s :: s in Outcomes(D, h, n, u - k) ==> |Fiber(D, h, k)(s)| == w
    ensures |Class(Outcomes(D, h, n + 1, u), Added(), k)| == Times(|Outcomes(D, h, n, u - k)|, w)
  {
    ClassIsImage(D, h, n, u, k);
    AppendInjective(Pairs(Outcomes(D, h, n, u - k), Fiber(D, h, k)));
    PairsSize(Outcomes(D, h, n, u - k), Fiber(D, h, k), w);
  }

  lemma ClassCount(D: nat, h: nat, n: nat, u: int, k: int)
    requires 0 <= k <= h
    ensures ClassSizes(Outcomes(D, h, n + 1, u), Added())(k) == TallyInflow(D, h, Tally(D, h, n), u)(k)
  {
    var p := u - k;
    if 0 <= p <= D {
      CountInside(D, h, n, u, k, p);
    } else {
      CountOutside(D, h, n, u, k, p);
    }
  }

  lemma {:induction false} CountInside(D: nat, h: nat, n: nat, u: int, k: nat, p: nat)
    requires k <= h && p == u - k <= D
    ensures |Class(Outcomes(D, h, n + 1, u), Added(), k)| as real == Copies(|Outcomes(D, h, n, p)|, Ways(D, h, p, k))
  {
    FibersCount(D, h, n, p, k);
    WaysIsAdditions(D, h, p, k);
    CountEqual(D, h, n, u, k, p, Additions(D, h, p, k), Ways(D, h, p, k));
  }

  lemma {:induction false} CountEqual(D: nat, h: nat, n: nat, u: int, k: int, p: int, w: nat, ways: real)
    requires p == u - k && ways == w as real
    requires forall s :: s in Outcomes(D, h, n, p) ==> |Fiber(D, h, k)(s)| == w
    ensures |Class(Outcomes(D, h, n + 1, u), Added(), k)| as real == Copies(|Outcomes(D, h, n, p)|, ways)
  {
    assert Outcomes(D, h, n, u - k) == Outcomes(D, h, n, p);
    ClassSize(D, h, n, u, k, w);
    CopiesAre(|Outcomes(D, h, n, p)|, w, ways);
  }

  lemma {:induction false} CopiesAre(m: nat, w: nat, ways: real)
    requires ways == w as real
    ensures Copies(m, ways) == Times(m, w) as real
  {
    CopiesOfCount(m, w);
  }

  lemma {:induction false} CountOutside(D: nat, h: nat, n: nat, u: int, k: nat, p: int)
    requires k <= h && p == u - k && !(0 <= p <= D)
    ensures |Class(Outcomes(D, h, n + 1, u), Added(), k)| as real == Copies(|Outcomes(D, h, n, p)|, Ways(D, h, p, k))
  {
    NoOutcomes(D, h, n, p);
    ClassSize(D, h, n, u, k, 0);
  }

  lemma FibersCount(D: nat, h: nat, n: nat, p: nat, k: nat)
    requires k <= h && p <= D
    ensures forall s :: s in Outcomes(D, h, n, p) ==> |Fiber(D, h, k)(s)| == Additions(D, h, p, k)
  {
    forall s | s in Outcomes(D, h, n, p)
      ensures |Fiber(D, h, k)(s)| == Additions(D, h, p, k)
    {
      FiberCount(D, h, n, k, s);
    }
  }

  lemma {:induction false} TallyStep(D: nat, h: nat, n: nat, u: int)
    ensures |Outcomes(D, h, n + 1, u)| as real == Sum(TallyInflow(D, h, Tally(D, h, n), u), 0, h + 1)
  {
    var all := Outcomes(D, h, n + 1, u);
    forall x | x in all
      ensures 0 <= Added()(x) < h + 1
    {
      var s, t := SplitSeries(D, h, n, x);
      AddedAppend(s, t);
      PartSize(t - Seen(s), t);
    }
    PartitionSize(all, Added(), h + 1);
    forall k | 0 <= k < h + 1
      ensures ClassSizes(all, Added())(k) == TallyInflow(D, h, Tally(D, h, n), u)(k)
    {
      ClassCount(D, h, n, u, k);
    }
    SumExt(ClassSizes(all, Added()), TallyInflow(D, h, Tally(D, h, n), u), 0, h + 1);
  }

  // ----- dist is the exact probability -----

  lemma TallyOfNone(D: nat, h: nat, p: int)
    ensures Tally(D, h, 0)(p) == if p == 0 then 1 else 0
  {
    if p == 0 {
      assert Outcomes(D, h, 0, p) == {[]};
    } else {
      assert Outcomes(D, h, 0, p) == {};
    }
  }

  /** A first hand shows h cards, whatever it is. */
  lemma {:induction false} FirstStep(D: nat, h: nat, tally: int -> nat, u: nat)
    requires h <= D && u <= D
    requires forall p :: tally(p) == if p == 0 then 1 else 0
    ensures Sum(TallyInflow(D, h, tally, u), 0, h + 1) == if u == h then Hands(D, h) else 0.0
  {
    var f := TallyInflow(D, h, tally, u);
    forall k | 0 <= k < h + 1
      ensures f(k) == if k == u then Ways(D, h, 0, k) else 0.0
    {
      assert f(k) == Copies(tally(u - k), Ways(D, h, u - k, k));
      assert Copies(0, Ways(D, h, u - k, k)) == 0.0;
    }
    if u == h {
      SumPoint(f, u, 0, h + 1);
    } else {
      forall k | 0 <= k < h + 1
        ensures f(k) == 0.0
      {
        if k == u {
          WaysOutside(D, h, 0, k);
        }
      }
      SumZero(f, 0, h + 1);
    }
  }

  /** Up to a scale, the tally is the distribution. */
  ghost predicate Scaled(tally: int -> nat, dist: seq<real>, scale: real) {
    forall p :: 0 <= p < |dist| ==> tally(p) as real == dist[p] * scale
  }

  /** A further hand spreads the tally exactly as the program spreads the distribution. */
  lemma {:induction false} LaterStep(D: nat, h: nat, tally: int -> nat, prev: seq<real>, scale: real, u: nat,
                  entry: real, scale': real)
    requires h <= D && u <= D && |prev| == D + 1
    requires Scaled(tally, prev, scale)
    requires entry == NextDist(D, h, prev)[u] && scale' == Hands(D, h) * scale
    ensures Sum(TallyInflow(D, h, tally, u), 0, h + 1) == entry * scale'
  {
    var inflows, tallies := Inflows(D, h, prev, u), TallyInflow(D, h, tally, u);
    forall k | 0 <= k < h + 1
      ensures tallies(k) == scale * inflows(k)
    {
      LaterTerm(D, h, tally, prev, scale, u, k);
    }
    SumScale(scale, inflows, tallies, 0, h + 1);
    NextEntry(D, h, prev, u);
    QuotientPower(Sum(inflows, 0, h + 1), Hands(D, h), scale, entry, scale');
  }

  lemma LaterTerm(D: nat, h: nat, tally: int -> nat, prev: seq<real>, scale: real, u: nat, k: nat)
    requires k <= h <= D && u <= D && |prev| == D + 1
    requires Scaled(tally, prev, scale)
    ensures TallyInflow(D, h, tally, u)(k) == scale * Inflows(D, h, prev, u)(k)
  {
    var p := u - k;
    if p < 0 {
      WaysOutside(D, h, p, k);
      CopiesIs(tally(p), 0.0);
    } else {
      Rescale(Ways(D, h, p, k), At(prev, p), scale, tally(p), Inflows(D, h, prev, u)(k));
    }
  }

  lemma {:induction false} Rescale(w: real, x: real, scale: real, t: nat, y: real)
    requires t as real == x * scale && y == w * x
    ensures Copies(t, w) == scale * y
  {
    CopiesIs(t, w);
    assert (x * scale) * w == scale * (w * x);
  }

  lemma QuotientPower(s: real, c: real, scale: real, entry: real, scale': real)
    requires c > 0.0 && entry == s / c && scale' == c * scale
    ensures scale * s == entry * scale'
  {
    assert entry * c == s;
    assert entry * (c * scale) == (entry * c) * scale;
  }

  lemma FirstTally(D: nat, h: nat, u: nat)
    requires h <= D && u <= D
    ensures Tally(D, h, 1)(u) as real == if u == h then Hands(D, h) else 0.0
  {
    TallyStep(D, h, 0, u);
    forall p
      ensures Tally(D, h, 0)(p) == if p == 0 then 1 else 0
    {
      TallyOfNone(D, h, p);
    }
    FirstStep(D, h, Tally(D, h, 0), u);
  }

  lemma FirstScale(D: nat, h: nat, tally: int -> nat)
    requires h <= D
    requires forall u :: 0 <= u <= D ==> tally(u) as real == if u == h then Hands(D, h) else 0.0
    ensures Scaled(tally, Certain(D, h), Pow(Hands(D, h), 1))
  {
    assert Pow(Hands(D, h), 1) == Hands(D, h) * Pow(Hands(D, h), 0);
  }

  lemma {:induction false} LaterScale(D: nat, h: nat, tally: int -> nat, tally': int -> nat, prev: seq<real>,
                                      scale: real, scale': real)
    requires h <= D && |prev| == D + 1 && Scaled(tally, prev, scale) && scale' == Hands(D, h) * scale
    requires forall u :: 0 <= u <= D ==> tally'(u) as real == Sum(TallyInflow(D, h, tally, u), 0, h + 1)
    ensures Scaled(tally', NextDist(D, h, prev), scale')
  {
    var dist := NextDist(D, h, prev);
    forall u | 0 <= u < |dist|
      ensures tally'(u) as real == dist[u] * scale'
    {
      LaterStep(D, h, tally, prev, scale, u, dist[u], scale');
    }
  }

  lemma {:induction false} TallyIsDist(D: nat, h: nat, n: nat)
    requires h <= D && n >= 1
    ensures Scaled(Tally(D, h, n), DistAfter(D, h, n), Pow(Hands(D, h), n))
    decreases n
  {
    if n == 1 {
      forall u | 0 <= u <= D
        ensures Tally(D, h, 1)(u) as real == if u == h then Hands(D, h) else 0.0
      {
        FirstTally(D, h, u);
      }
      FirstScale(D, h, Tally(D, h, 1));
    } else {
      var tally, tally' := Tally(D, h, n - 1), Tally(D, h, n);
      TallyIsDist(D, h, n - 1);
      forall u | 0 <= u <= D
        ensures tally'(u) as real == Sum(TallyInflow(D, h, tally, u), 0, h + 1)
      {
        TallyStep(D, h, n - 1, u);
      }
      LaterScale(D, h, tally, tally', DistAfter(D, h, n - 1), Pow(Hands(D, h), n - 1), Pow(Hands(D, h), n));
    }
  }

  // ----- the sample space -----

  ghost function AnyHand(D: nat, h: nat): seq<set<nat>> -> set<set<nat>> {
    s => AllHands(D, h)
  }

  /** Every series of n hands may go on with any hand. */
  lemma SeriesGrow(D: nat, h: nat, n: nat)
    ensures |Series(D, h, n + 1)| == Times(|Series(D, h, n)|, Choose(D, h))
  {
    var pairs := Pairs(Series(D, h, n), AnyHand(D, h));
    SubsetCount(Deck(D), h);
    PairsSize(Series(D, h, n), AnyHand(D, h), Choose(D, h));
    AppendInjective(pairs);
    forall x | x in Series(D, h, n + 1)
      ensures x in Image(Append(), pairs)
    {
      var s, t := SplitSeries(D, h, n, x);
      assert (s, t) in pairs && Append()((s, t)) == x;
    }
    assert Series(D, h, n + 1) == Image(Append(), pairs);
  }

  lemma {:induction false} GrowPow(m: nat, m': nat, k: nat, c: real, n: nat)
    requires n > 0 && m as real == Pow(c, n - 1) && m' == Times(m, k) && c == k as real
    ensures m' as real == Pow(c, n)
  {
    TimesReal(m, k);
  }

  /** There are C(D, h)^n series of n hands. */
  lemma {:induction false} SeriesCount(D: nat, h: nat, n: nat)
    requires h <= D
    ensures |Series(D, h, n)| as real == Pow(Hands(D, h), n)
    decreases n
  {
    if n > 0 {
      SeriesCount(D, h, n - 1);
      SeriesGrow(D, h, n - 1);
      GrowPow(|Series(D, h, n - 1)|, |Series(D, h, n)|, Choose(D, h), Hands(D, h), n);
    }
  }

  /** part is the fraction x of whole. */
  ghost predicate Fraction(part: nat, whole: nat, x: real) {
    part as real == x * whole as real
  }

  ghost predicate Fractions(tally: int -> nat, whole: nat, dist: seq<real>) {
    forall u :: 0 <= u < |dist| ==> Fraction(tally(u), whole, dist[u])
  }

  lemma ScaledAreFractions(tally: int -> nat, dist: seq<real>, scale: real, whole: nat)
    requires Scaled(tally, dist, scale) && whole as real == scale
    ensures Fractions(tally, whole, dist)
  {
  }

  lemma {:induction false} TallyFractions(D: nat, h: nat, n: nat)
    requires h <= D && n >= 1
    ensures Fractions(Tally(D, h, n), |Series(D, h, n)|, DistAfter(D, h, n))
  {
    TallyIsDist(D, h, n);
    SeriesCount(D, h, n);
    ScaledAreFractions(Tally(D, h, n), DistAfter(D, h, n), Pow(Hands(D, h), n), |Series(D, h, n)|);
  }

  /** dist[u], as the program computes it after n deals, is the fraction of all series of n
      hands that show exactly u distinct cards. */
  lemma {:induction false} DistIsExactProbability(D: nat, h: nat, n: nat, u: nat)
    requires h <= D && n >= 1 && u <= D
    ensures Fraction(|Outcomes(D, h, n, u)|, |Series(D, h, n)|, DistAfter(D, h, n)[u])
  {
    TallyFractions(D, h, n);
    assert Tally(D, h, n)(u) == |Outcomes(D, h, n, u)|;
  }

  // ----- averages over the sample space -----

  /** How many cards the series of a pair has shown. */
  ghost function ShownFirst<Y(!new)>(): ((seq<set<nat>>, Y)) -> int {
    (p: (seq<set<nat>>, Y)) => |Seen(p.0)|
  }

  /** The size of a fiber depends on the number of cards shown alone. */
  ghost predicate FibersSized<Y(!new)>(D: nat, h: nat, n: nat, fiber: seq<set<nat>> -> set<Y>, w: int -> nat) {
    forall s :: s in Series(D, h, n) ==> |fiber(s)| == w(|Seen(s)|)
  }

  function AsReals(w: int -> nat): int -> real {
    u => w(u) as real
  }

  /** What the series that show u cards contribute. */
  ghost function TallyTerms(tally: int -> nat, w: int -> nat): int -> real {
    u => Copies(tally(u), w(u) as real)
  }

  /** The series that show u cards, each with everything its fiber holds. */
  lemma {:induction false} ClassOfShowing<Y(!new)>(D: nat, h: nat, n: nat, fiber: seq<set<nat>> -> set<Y>,
                                                   w: int -> nat, u: nat)
    requires FibersSized(D, h, n, fiber, w)
    ensures ClassSizes(Pairs(Series(D, h, n), fiber), ShownFirst())(u) == TallyTerms(Tally(D, h, n), w)(u)
  {
    assert Class(Pairs(Series(D, h, n), fiber), ShownFirst(), u) == Pairs(Outcomes(D, h, n, u), fiber);
    PairsSize(Outcomes(D, h, n, u), fiber, w(u));
    CopiesOfCount(|Outcomes(D, h, n, u)|, w(u));
  }

  lemma {:induction false} PairsTally<Y(!new)>(D: nat, h: nat, n: nat, fiber: seq<set<nat>> -> set<Y>, w: int -> nat)
    requires FibersSized(D, h, n, fiber, w)
    ensures |Pairs(Series(D, h, n), fiber)| as real == Sum(TallyTerms(Tally(D, h, n), w), 0, D + 1)
  {
    var pairs := Pairs(Series(D, h, n), fiber);
    forall p | p in pairs
      ensures 0 <= ShownFirst()(p) < D + 1
    {
      SeenInDeck(D, h, n, p.0);
    }
    PartitionSize(pairs, ShownFirst(), D + 1);
    forall u | 0 <= u < D + 1
      ensures ClassSizes(pairs, ShownFirst())(u) == TallyTerms(Tally(D, h, n), w)(u)
    {
      ClassOfShowing(D, h, n, fiber, w, u);
    }
    SumExt(ClassSizes(pairs, ShownFirst()), TallyTerms(Tally(D, h, n), w), 0, D + 1);
  }

  lemma TallyTerm(tally: int -> nat, dist: seq<real>, whole: nat, w: int -> nat, u: nat)
    requires Fractions(tally, whole, dist) && u < |dist|
    ensures TallyTerms(tally, w)(u) == whole as real * Weighted(dist, AsReals(w))(u)
  {
    assert Fraction(tally(u), whole, dist[u]);
    RescaleTerm(At(dist, u), AsReals(w)(u), whole as real, tally(u), Weighted(dist, AsReals(w))(u));
  }

  lemma {:induction false} RescaleTerm(x: real, y: real, scale: real, t: nat, z: real)
    requires t as real == x * scale && z == x * y
    ensures Copies(t, y) == scale * z
  {
    Commute(x, y);
    Rescale(y, x, scale, t, z);
  }

  /** Below hi, g is c times f. */
  ghost predicate Multiple(c: real, f: int -> real, g: int -> real, hi: int) {
    forall i :: 0 <= i < hi ==> g(i) == c * f(i)
  }

  lemma {:induction false} MultipleSum(c: real, f: int -> real, g: int -> real, hi: int)
    requires Multiple(c, f, g, hi)
    ensures Sum(g, 0, hi) == c * Sum(f, 0, hi) == Sum(f, 0, hi) * c
  {
    SumScale(c, f, g, 0, hi);
    Commute(c, Sum(f, 0, hi));
  }

  lemma {:induction false} TallyIsMultiple(tally: int -> nat, dist: seq<real>, whole: nat, w: int -> nat)
    requires Fractions(tally, whole, dist)
    ensures Multiple(whole as real, Weighted(dist, AsReals(w)), TallyTerms(tally, w), |dist|)
  {
    forall u | 0 <= u < |dist|
      ensures TallyTerms(tally, w)(u) == whole as real * Weighted(dist, AsReals(w))(u)
    {
      TallyTerm(tally, dist, whole, w, u);
    }
  }

  lemma {:induction false} MultipleIsFraction(terms: int -> real, weighted: int -> real, whole: nat, hi: int, part: nat)
    requires Multiple(whole as real, weighted, terms, hi) && part as real == Sum(terms, 0, hi)
    ensures Fraction(part, whole, Sum(weighted, 0, hi))
  {
    MultipleSum(whole as real, weighted, terms, hi);
  }

  lemma {:induction false} TallyMean(tally: int -> nat, dist: seq<real>, whole: nat, w: int -> nat, part: nat)
    requires Fractions(tally, whole, dist) && part as real == Sum(TallyTerms(tally, w), 0, |dist|)
    ensures Fraction(part, whole, Mean(dist, AsReals(w)))
  {
    TallyIsMultiple(tally, dist, whole, w);
    MultipleIsFraction(TallyTerms(tally, w), Weighted(dist, AsReals(w)), whole, |dist|, part);
  }

  /** Whatever depends on the number of cards shown has, over all series, the average that
      the program's distribution gives it. */
  lemma {:induction false} AverageIsExact<Y(!new)>(D: nat, h: nat, n: nat, fiber: seq<set<nat>> -> set<Y>,
                                                   w: int -> nat)
    requires h <= D && n >= 1 && FibersSized(D, h, n, fiber, w)
    ensures Fraction(|Pairs(Series(D, h, n), fiber)|, |Series(D, h, n)|, Mean(DistAfter(D, h, n), AsReals(w)))
  {
    PairsTally(D, h, n, fiber, w);
    TallyFractions(D, h, n);
    TallyMean(Tally(D, h, n), DistAfter(D, h, n), |Series(D, h, n)|, w, |Pairs(Series(D, h, n), fiber)|);
  }

  // ----- the expectation -----

  ghost function SeenIn(): seq<set<nat>> -> set<nat> {
    s => Seen(s)
  }

  function Self(): int -> nat {
    u => if u < 0 then 0 else u
  }

  /** Every card, once for every series of n hands that shows it. */
  ghost function Showings(D: nat, h: nat, n: nat): set<(seq<set<nat>>, nat)> {
    set s, c | s in Series(D, h, n) && c in Seen(s) :: (s, c)
  }

  lemma {:induction false} ShowingsArePairs(D: nat, h: nat, n: nat)
    ensures Showings(D, h, n) == Pairs(Series(D, h, n), SeenIn()) && FibersSized(D, h, n, SeenIn(), Self())
  {
  }

  lemma {:induction false} CountMean(dist: seq<real>)
    ensures Mean(dist, AsReals(Self())) == Mean(dist, Count())
  {
    SumExt(Weighted(dist, AsReals(Self())), Weighted(dist, Count()), 0, |dist|);
  }

  /** expectedUniques is the average number of cards shown: the number of showings over the
      number of all series. */
  lemma {:induction false} ExpectationIsExact(D: nat, h: nat, n: nat)
    requires h <= D && n >= 1
    ensures Fraction(|Showings(D, h, n)|, |Series(D, h, n)|, Mean(DistAfter(D, h, n), Count()))
  {
    ShowingsArePairs(D, h, n);
    AverageIsExact(D, h, n, SeenIn(), Self());
    CountMean(DistAfter(D, h, n));
  }

  // ----- the chance of covering -----

  /** The series of n hands and one more that deals only cards already dealt. */
  ghost function Covered(D: nat, h: nat, n: nat): set<seq<set<nat>>> {
    set s, t | s in Series(D, h, n) && t in AllHands(D, h) && t <= Seen(s) :: s + [t]
  }

  lemma {:induction false} CoveredCount(D: nat, h: nat, n: nat)
    ensures |Covered(D, h, n)| == |Pairs(Series(D, h, n), Fiber(D, h, 0))|
  {
    var pairs := Pairs(Series(D, h, n), Fiber(D, h, 0));
    forall x | x in Covered(D, h, n)
      ensures x in Image(Append(), pairs)
    {
      var s, t :| s in Series(D, h, n) && t in AllHands(D, h) && t <= Seen(s) && x == s + [t];
      assert t - Seen(s) == {};
      assert (s, t) in pairs && Append()((s, t)) == x;
    }
    forall p | p in pairs
      ensures Append()(p) in Covered(D, h, n)
    {
      assert p.1 - Seen(p.0) == {};
    }
    assert Covered(D, h, n) == Image(Append(), pairs);
    AppendInjective(pairs);
  }

  /** The number of hands within u cards. */
  function HandsWithin(h: nat): int -> nat {
    u => if u < 0 then 0 else Choose(u, h)
  }

  lemma {:induction false} CoverFibers(D: nat, h: nat, n: nat)
    ensures FibersSized(D, h, n, Fiber(D, h, 0), HandsWithin(h))
  {
    forall s | s in Series(D, h, n)
      ensures |Fiber(D, h, 0)(s)| == HandsWithin(h)(|Seen(s)|)
    {
      FiberCount(D, h, n, 0, s);
      OnceIs(D - |Seen(s)|, Choose(|Seen(s)|, h));
    }
  }

  lemma {:induction false} OnceIs(n: nat, k: nat)
    ensures Times(Choose(n, 0), k) == k
  {
    assert Times(1, k) == Times(0, k) + k;
  }

  lemma ChanceIs(D: nat, h: nat, u: nat)
    requires h <= D
    ensures CoverChance(D, h)(u) == AsReals(HandsWithin(h))(u) / Hands(D, h)
  {
  }

  lemma CoverMeanTerm(D: nat, h: nat, dist: seq<real>, c: real, u: nat)
    requires h <= D && c == Hands(D, h)
    ensures Weighted(dist, AsReals(HandsWithin(h)))(u) == c * Weighted(dist, CoverChance(D, h))(u)
  {
    ChanceIs(D, h, u);
    ChanceTerm(At(dist, u), AsReals(HandsWithin(h))(u), c, CoverChance(D, h)(u),
               Weighted(dist, CoverChance(D, h))(u), Weighted(dist, AsReals(HandsWithin(h)))(u));
  }

  lemma ChanceTerm(x: real, y: real, c: real, chance: real, f: real, g: real)
    requires c > 0.0 && chance == y / c && f == x * chance && g == x * y
    ensures g == c * f
  {
    assert c * chance == y;
    assert c * (x * chance) == x * (c * chance);
  }

  /** The mean number of hands within the cards shown is the mean chance times all hands. */
  lemma {:induction false} CoverMean(D: nat, h: nat, dist: seq<real>, c: real)
    requires h <= D && c == Hands(D, h)
    ensures Mean(dist, AsReals(HandsWithin(h))) == c * Mean(dist, CoverChance(D, h))
  {
    CoverIsMultiple(D, h, dist, c);
    MultipleSum(c, Weighted(dist, CoverChance(D, h)), Weighted(dist, AsReals(HandsWithin(h))), |dist|);
  }

  lemma {:induction false} CoverIsMultiple(D: nat, h: nat, dist: seq<real>, c: real)
    requires h <= D && c == Hands(D, h)
    ensures Multiple(c, Weighted(dist, CoverChance(D, h)), Weighted(dist, AsReals(HandsWithin(h))), |dist|)
  {
    forall u | 0 <= u < |dist|
      ensures Weighted(dist, AsReals(HandsWithin(h)))(u) == c * Weighted(dist, CoverChance(D, h))(u)
    {
      CoverMeanTerm(D, h, dist, c, u);
    }
  }

  lemma CoverAlgebra(part: real, whole: real, mean: real, c: real, x: real, whole': real)
    requires part == mean * whole && mean == c * x && whole' == c * whole
    ensures part == x * whole'
  {
    assert (c * x) * whole == x * (c * whole);
  }

  lemma {:induction false} TimesReal(n: nat, k: nat)
    ensures Times(n, k) as real == k as real * n as real
  {
    CopiesOfCount(n, k);
    CopiesIs(n, k as real);
    Commute(n as real, k as real);
  }

  lemma {:induction false} FractionOfMore(D: nat, h: nat, dist: seq<real>, part: nat, whole: nat, whole': nat)
    requires h <= D && Fraction(part, whole, Mean(dist, AsReals(HandsWithin(h))))
    requires whole' == Times(whole, Choose(D, h))
    ensures Fraction(part, whole', Mean(dist, CoverChance(D, h)))
  {
    CoverMean(D, h, dist, Choose(D, h) as real);
    FractionTimes(part, whole, whole', Choose(D, h), Mean(dist, AsReals(HandsWithin(h))),
                  Mean(dist, CoverChance(D, h)));
  }

  lemma {:induction false} FractionTimes(part: nat, whole: nat, whole': nat, k: nat, mean: real, x: real)
    requires Fraction(part, whole, mean) && mean == k as real * x && whole' == Times(whole, k)
    ensures Fraction(part, whole', x)
  {
    TimesReal(whole, k);
    CoverAlgebra(part as real, whole as real, mean, k as real, x, whole' as real);
  }

  lemma {:induction false} CoveredFraction(D: nat, h: nat, n: nat)
    requires h <= D && n >= 1
    ensures Fraction(|Covered(D, h, n)|, |Series(D, h, n)|, Mean(DistAfter(D, h, n), AsReals(HandsWithin(h))))
  {
    CoveredCount(D, h, n);
    CoverFibers(D, h, n);
    AverageIsExact(D, h, n, Fiber(D, h, 0), HandsWithin(h));
  }

  /** probNextCovered is the fraction of all series of n+1 hands whose last hand deals only
      cards already dealt. */
  lemma {:induction false} CoverIsExact(D: nat, h: nat, n: nat)
    requires h <= D && n >= 1
    ensures Fraction(|Covered(D, h, n)|, |Series(D, h, n + 1)|, Mean(DistAfter(D, h, n), CoverChance(D, h)))
  {
    CoveredFraction(D, h, n);
    SeriesGrow(D, h, n);
    FractionOfMore(D, h, DistAfter(D, h, n), |Covered(D, h, n)|, |Series(D, h, n)|, |Series(D, h, n + 1)|);
  }
}
