/** Shuffle-sharded assignment of a request to a queue: the closure-passing
    `shuffleDealAndPick`, the mixed-radix reading of the hash value, and the evenness of
    the deal. */
module ShuffleShard {
  import opened Integers
  import opened Sequences

  // ----- the program -----

  /** What a call does: it returns an index, or dies dividing by zero. */
  datatype Outcome = Picked(index: int) | DividesByZero

  /** The renumbering closure handed to the next level. */
  function Skip(mr: int -> int, ai: int): int -> int {
    a => if a < ai then mr(a) else mr(a + 1)
  }

  function Quotient(v: nat, nq: nat): nat
    requires nq > 0
  {
    v / nq
  }

  function Remainder(v: nat, nq: nat): (ai: nat)
    requires nq > 0
    ensures ai < nq
  {
    assert 0 <= v % nq < nq && v - nq * (v / nq) == v % nq;
    v - nq * Quotient(v, nq)
  }

  /** The arguments of one level of the recursion. */
  datatype Call = Call(v: nat, nq: nat, mr: int -> int, nRem: int, minLen: int, bestIdx: int)

  /** The arguments of the next level: deal one index and keep the better queue. */
  function Next(c: Call, lengthOfQueue: int -> int): Call
    requires c.nq > 0
  {
    var vNext := Quotient(c.v, c.nq);
    var ai := Remainder(c.v, c.nq);
    var ii := c.mr(ai);
    var lenI := lengthOfQueue(ii);
    if lenI < c.minLen
    then Call(vNext, c.nq - 1, Skip(c.mr, ai), c.nRem - 1, lenI, ii)
    else Call(vNext, c.nq - 1, Skip(c.mr, ai), c.nRem - 1, c.minLen, c.bestIdx)
  }

  function ShuffleDealAndPick(c: Call, lengthOfQueue: int -> int): Outcome
    decreases c.nq
  {
    if c.nRem < 1 then Picked(c.bestIdx)
    else if c.nq == 0 then DividesByZero
    else ShuffleDealAndPick(Next(c, lengthOfQueue), lengthOfQueue)
  }

  // ----- the design: digits, then a hand -----

  /** The falling factorial n * (n-1) * ... * (n-m+1). */
  function FallingFactorial(n: nat, m: nat): nat
    requires m <= n
  {
    if m == 0 then 1 else n * FallingFactorial(n - 1, m - 1)
  }

  /** A[0], ..., A[h-1]: the remainders of successive divisions by n, n-1, ... */
  function Digits(v: nat, n: nat, h: nat): (a: seq<nat>)
    requires h <= n
    ensures |a| == h
    decreases h
  {
    if h == 0 then [] else [Remainder(v, n)] + Digits(Quotient(v, n), n - 1, h - 1)
  }

  /** A[h]: what is left of v after h divisions. */
  function Rest(v: nat, n: nat, h: nat): nat
    requires h <= n
    decreases h
  {
    if h == 0 then v else Rest(Quotient(v, n), n - 1, h - 1)
  }

  /** Every digit is within its own radix. */
  ghost predicate Bounded(a: seq<nat>, n: nat) {
    |a| <= n && forall i :: 0 <= i < |a| ==> a[i] < n - i
  }

  /** The sum of A[i] * ff(n, i) over i < k. */
  function Weighted(a: seq<nat>, n: nat, k: nat): nat
    requires k <= |a| <= n
  {
    if k == 0 then 0 else Weighted(a, n, k - 1) + a[k - 1] * FallingFactorial(n, k - 1)
  }

  /** The same sum, nested the way successive division unfolds it. */
  function Value(a: seq<nat>, n: nat): nat
    requires |a| <= n
  {
    if a == [] then 0 else a[0] + n * Value(a[1..], n - 1)
  }

  /** The queue indices 0 .. n-1, in order. */
  function Indices(n: nat): (s: seq<int>)
    ensures |s| == n && forall i :: 0 <= i < n ==> s[i] == i
  {
    seq(n, i => i)
  }

  /** The members of s that are not in dealt, in order. */
  function Excluding(s: seq<int>, dealt: seq<int>): seq<int> {
    if s == [] then []
    else (if s[0] in dealt then [] else [s[0]]) + Excluding(s[1..], dealt)
  }

  /** I[k] is the A[k]-th entry of the list of queue indices excluding I[0] .. I[k-1]. */
  ghost predicate IsHand(hand: seq<int>, a: seq<nat>, n: nat) {
    |hand| == |a| && forall k :: 0 <= k < |a| ==>
      var left := Excluding(Indices(n), hand[..k]);
      a[k] < |left| && hand[k] == left[a[k]]
  }

  lemma BoundedTail(a: seq<nat>, n: nat)
    requires Bounded(a, n) && a != []
    ensures Bounded(a[1..], n - 1)
  {
    assert forall i :: 0 <= i < |a[1..]| ==> a[1..][i] == a[i + 1];
  }

  /** Dealing from an explicit list of what is left. */
  function Deal(left: seq<int>, a: seq<nat>): (hand: seq<int>)
    requires Bounded(a, |left|)
    ensures |hand| == |a|
  {
    if a == [] then []
    else
      BoundedTail(a, |left|);
      [left[a[0]]] + Deal(RemoveAt(left, a[0]), a[1..])
  }

  // ----- arithmetic of the mixed radix -----

  lemma DivisionIdentity(v: nat, n: nat)
    requires n > 0
    ensures v == Remainder(v, n) + n * Quotient(v, n)
  {
  }

  lemma {:induction false} DigitsBounded(v: nat, n: nat, h: nat)
    requires h <= n
    ensures Bounded(Digits(v, n, h), n)
    decreases h
  {
    if h > 0 {
      DigitsBounded(Quotient(v, n), n - 1, h - 1);
      var rest := Digits(Quotient(v, n), n - 1, h - 1);
      forall i | 0 <= i < h
        ensures Digits(v, n, h)[i] < n - i
      {
        if i > 0 {
          assert Digits(v, n, h)[i] == rest[i - 1];
        }
      }
    }
  }

  /** V = sum of A[i]*ff(n, i) for i < h, plus A[h]*ff(n, h). */
  lemma {:induction false} DigitsRepresent(v: nat, n: nat, h: nat)
    requires h <= n
    ensures v == Value(Digits(v, n, h), n) + FallingFactorial(n, h) * Rest(v, n, h)
    decreases h
  {
    if h > 0 {
      var a := Digits(v, n, h);
      var q := Quotient(v, n);
      DigitsRepresent(q, n - 1, h - 1);
      DivisionIdentity(v, n);
      assert a[1..] == Digits(q, n - 1, h - 1);
      Nest(Remainder(v, n), n, q, Value(a[1..], n - 1), FallingFactorial(n - 1, h - 1), Rest(q, n - 1, h - 1));
    }
  }

  lemma Nest(r: int, n: int, q: int, x: int, f: int, y: int)
    requires q == x + f * y
    ensures r + n * q == (r + n * x) + (n * f) * y
  {
  }

  lemma {:induction false} WeightedStep(a: seq<nat>, n: nat, k: nat)
    requires 1 <= k <= |a| <= n
    ensures Weighted(a, n, k) == a[0] + n * Weighted(a[1..], n - 1, k - 1)
    decreases k
  {
    if k > 1 {
      WeightedStep(a, n, k - 1);
      assert a[1..][k - 2] == a[k - 1];
      NestTerm(n, Weighted(a[1..], n - 1, k - 2), a[k - 1], FallingFactorial(n - 1, k - 2));
    }
  }

  lemma NestTerm(n: int, x: int, d: int, f: int)
    ensures n * x + d * (n * f) == n * (x + d * f)
  {
  }

  lemma {:induction false} ValueIsWeighted(a: seq<nat>, n: nat)
    requires |a| <= n
    ensures Value(a, n) == Weighted(a, n, |a|)
  {
    if a != [] {
      ValueIsWeighted(a[1..], n - 1);
      WeightedStep(a, n, |a|);
    }
  }

  lemma {:induction false} FallingFactorialPositive(n: nat, m: nat)
    requires m <= n
    ensures FallingFactorial(n, m) >= 1
  {
    if m > 0 {
      FallingFactorialPositive(n - 1, m - 1);
      ProductPositive(n, FallingFactorial(n - 1, m - 1));
    }
  }

  lemma ProductPositive(x: int, y: int)
    requires x >= 1 && y >= 1
    ensures x * y >= 1
  {
  }

  lemma {:induction false} ValueBelow(a: seq<nat>, n: nat)
    requires Bounded(a, n)
    ensures Value(a, n) < FallingFactorial(n, |a|)
  {
    if a != [] {
      var rest := a[1..];
      BoundedTail(a, n);
      ValueBelow(rest, n - 1);
      NestBelow(a[0], n, Value(rest, n - 1), FallingFactorial(n - 1, |rest|));
    }
  }

  lemma NestBelow(r: int, n: int, x: int, f: int)
    requires 0 <= r < n && x + 1 <= f
    ensures r + n * x < n * f
  {
    assert n * (x + 1) <= n * f;
  }

  lemma QuotientUnique(v: nat, n: nat, r: nat, q: nat)
    requires r < n && v == r + n * q
    ensures Remainder(v, n) == r && Quotient(v, n) == q
  {
    EuclidUnique(v, n, r, q);
  }

  /** The digits are the only ones that represent v. */
  lemma {:induction false} DigitsUnique(v: nat, n: nat, a: seq<nat>, r: nat)
    requires Bounded(a, n)
    requires v == Value(a, n) + FallingFactorial(n, |a|) * r
    ensures a == Digits(v, n, |a|) && r == Rest(v, n, |a|)
    decreases |a|
  {
    if a != [] {
      var rest := a[1..];
      BoundedTail(a, n);
      var q := Value(rest, n - 1) + FallingFactorial(n - 1, |rest|) * r;
      Nest(a[0], n, q, Value(rest, n - 1), FallingFactorial(n - 1, |rest|), r);
      QuotientUnique(v, n, a[0], q);
      DigitsUnique(q, n - 1, rest, r);
      assert a == [a[0]] + rest;
    }
  }

  /** a and r decompose v as the design asks. */
  ghost predicate Decomposes(v: nat, n: nat, a: seq<nat>, r: nat) {
    Bounded(a, n) && v == Weighted(a, n, |a|) + r * FallingFactorial(n, |a|)
  }

  lemma {:induction false} DecompositionExists(v: nat, n: nat, h: nat)
    requires h <= n
    ensures Decomposes(v, n, Digits(v, n, h), Rest(v, n, h))
  {
    DigitsBounded(v, n, h);
    DigitsRepresent(v, n, h);
    var a, r := Digits(v, n, h), Rest(v, n, h);
    ValueIsWeighted(a, n);
    assert FallingFactorial(n, |a|) * r == r * FallingFactorial(n, |a|);
  }

  /** The decomposition exists, and it is unique. */
  lemma {:induction false} MixedRadix(v: nat, n: nat, h: nat)
    requires h <= n
    ensures Decomposes(v, n, Digits(v, n, h), Rest(v, n, h))
    ensures forall a, r :: |a| == h && Decomposes(v, n, a, r) ==> a == Digits(v, n, h) && r == Rest(v, n, h)
  {
    DecompositionExists(v, n, h);
    forall a, r | |a| == h && Decomposes(v, n, a, r)
      ensures a == Digits(v, n, h) && r == Rest(v, n, h)
    {
      DecompositionUnique(v, n, a, r);
    }
  }

  lemma {:induction false} DecompositionUnique(v: nat, n: nat, a: seq<nat>, r: nat)
    requires Decomposes(v, n, a, r)
    ensures a == Digits(v, n, |a|) && r == Rest(v, n, |a|)
  {
    ValueIsWeighted(a, n);
    assert FallingFactorial(n, |a|) * r == r * FallingFactorial(n, |a|);
    DigitsUnique(v, n, a, r);
  }

  // ----- the closures refine the list -----

  ghost predicate Distinct(s: seq<int>) {
    forall i, j :: 0 <= i < j < |s| ==> s[i] != s[j]
  }

  /** The closure mr lists what is left to deal. */
  ghost predicate Renumbers(mr: int -> int, left: seq<int>) {
    forall a {:trigger left[a]} :: 0 <= a < |left| ==> mr(a) == left[a]
  }

  lemma SkipRenumbers(mr: int -> int, left: seq<int>, ai: nat)
    requires Renumbers(mr, left) && ai < |left|
    ensures Renumbers(Skip(mr, ai), RemoveAt(left, ai))
  {
  }

  /** Scanning a hand in order, keeping the first queue that is strictly shorter than all before. */
  function Scan(hand: seq<int>, lengthOfQueue: int -> int, minLen: int, bestIdx: int): int {
    if hand == [] then bestIdx
    else if lengthOfQueue(hand[0]) < minLen
    then Scan(hand[1..], lengthOfQueue, lengthOfQueue(hand[0]), hand[0])
    else Scan(hand[1..], lengthOfQueue, minLen, bestIdx)
  }

  /** Asking for more cards than there are ends in a division by zero. */
  lemma {:induction false} TooManyCards(c: Call, lengthOfQueue: int -> int)
    requires c.nRem > c.nq
    ensures ShuffleDealAndPick(c, lengthOfQueue) == DividesByZero
    decreases c.nq
  {
    if c.nq > 0 {
      TooManyCards(Next(c, lengthOfQueue), lengthOfQueue);
    }
  }

  /** Otherwise the recursion over closures is dealing from a list and scanning the hand. */
  lemma {:induction false} ClosuresRefineList(c: Call, lengthOfQueue: int -> int, left: seq<int>)
    requires Renumbers(c.mr, left) && 0 <= c.nRem <= |left| == c.nq
    ensures Bounded(Digits(c.v, c.nq, c.nRem), c.nq)
    ensures ShuffleDealAndPick(c, lengthOfQueue)
         == Picked(Scan(Deal(left, Digits(c.v, c.nq, c.nRem)), lengthOfQueue, c.minLen, c.bestIdx))
    decreases c.nRem
  {
    DigitsBounded(c.v, c.nq, c.nRem);
    if c.nRem > 0 {
      DealStep(c.v, left, c.nRem);
      var c' := NextLevel(c, lengthOfQueue, left);
      ClosuresRefineList(c', lengthOfQueue, RemoveAt(left, Remainder(c.v, c.nq)));
      ScanStep(Deal(left, Digits(c.v, c.nq, c.nRem)), lengthOfQueue, c, c');
    }
  }

  /** One level down, the closure lists what is left without the index just dealt. */
  lemma NextLevel(c: Call, lengthOfQueue: int -> int, left: seq<int>) returns (c': Call)
    requires Renumbers(c.mr, left) && 0 < c.nRem && |left| == c.nq > 0
    ensures ShuffleDealAndPick(c, lengthOfQueue) == ShuffleDealAndPick(c', lengthOfQueue)
    ensures var ai := Remainder(c.v, c.nq);
      && c'.v == Quotient(c.v, c.nq) && c'.nq == c.nq - 1 && c'.nRem == c.nRem - 1
      && Renumbers(c'.mr, RemoveAt(left, ai))
      && (lengthOfQueue(left[ai]) < c.minLen ==> c'.minLen == lengthOfQueue(left[ai]) && c'.bestIdx == left[ai])
      && (lengthOfQueue(left[ai]) >= c.minLen ==> c'.minLen == c.minLen && c'.bestIdx == c.bestIdx)
  {
    c' := Next(c, lengthOfQueue);
    NextRenumbers(c, lengthOfQueue, left);
  }

  lemma {:induction false} ScanStep(hand: seq<int>, lengthOfQueue: int -> int, c: Call, c': Call)
    requires hand != []
    requires lengthOfQueue(hand[0]) < c.minLen ==> c'.minLen == lengthOfQueue(hand[0]) && c'.bestIdx == hand[0]
    requires lengthOfQueue(hand[0]) >= c.minLen ==> c'.minLen == c.minLen && c'.bestIdx == c.bestIdx
    ensures Scan(hand, lengthOfQueue, c.minLen, c.bestIdx) == Scan(hand[1..], lengthOfQueue, c'.minLen, c'.bestIdx)
  {
  }

  lemma NextRenumbers(c: Call, lengthOfQueue: int -> int, left: seq<int>)
    requires Renumbers(c.mr, left) && |left| == c.nq > 0
    ensures var ai, c' := Remainder(c.v, c.nq), Next(c, lengthOfQueue);
      && c'.v == Quotient(c.v, c.nq) && c'.nq == c.nq - 1 && c'.nRem == c.nRem - 1
      && Renumbers(c'.mr, RemoveAt(left, ai))
      && (lengthOfQueue(left[ai]) < c.minLen ==> c'.minLen == lengthOfQueue(left[ai]) && c'.bestIdx == left[ai])
      && (lengthOfQueue(left[ai]) >= c.minLen ==> c'.minLen == c.minLen && c'.bestIdx == c.bestIdx)
  {
    SkipRenumbers(c.mr, left, Remainder(c.v, c.nq));
  }

  lemma {:induction false} DealStep(v: nat, left: seq<int>, h: nat)
    requires 0 < h <= |left|
    ensures Bounded(Digits(v, |left|, h), |left|)
    ensures Bounded(Digits(Quotient(v, |left|), |left| - 1, h - 1), |left| - 1)
    ensures var hand := Deal(left, Digits(v, |left|, h));
      hand[0] == left[Remainder(v, |left|)]
      && hand[1..] == Deal(RemoveAt(left, Remainder(v, |left|)), Digits(Quotient(v, |left|), |left| - 1, h - 1))
  {
    DigitsBounded(v, |left|, h);
    DigitsBounded(Quotient(v, |left|), |left| - 1, h - 1);
    assert Digits(v, |left|, h)[1..] == Digits(Quotient(v, |left|), |left| - 1, h - 1);
  }

  // ----- what is dealt -----

  ghost predicate InRange(hand: seq<int>, n: nat) {
    forall i :: 0 <= i < |hand| ==> 0 <= hand[i] < n
  }

  ghost predicate Within(hand: seq<int>, left: seq<int>) {
    forall i :: 0 <= i < |hand| ==> hand[i] in left
  }

  lemma RemoveAtFacts(left: seq<int>, i: nat)
    requires i < |left| && Distinct(left)
    ensures Distinct(RemoveAt(left, i))
    ensures forall x :: x in RemoveAt(left, i) <==> x in left && x != left[i]
  {
    var rest := RemoveAt(left, i);
    assert forall j :: 0 <= j < |rest| ==> rest[j] == if j < i then left[j] else left[j + 1];
    forall x | x in left && x != left[i]
      ensures x in rest
    {
      var j :| 0 <= j < |left| && left[j] == x;
      assert rest[if j < i then j else j - 1] == x;
    }
  }

  lemma {:induction false} DealFacts(left: seq<int>, a: seq<nat>)
    requires Bounded(a, |left|) && Distinct(left)
    ensures Distinct(Deal(left, a)) && Within(Deal(left, a), left)
    decreases |a|
  {
    if a != [] {
      var rest := RemoveAt(left, a[0]);
      BoundedTail(a, |left|);
      RemoveAtFacts(left, a[0]);
      DealFacts(rest, a[1..]);
      var tail := Deal(rest, a[1..]);
      assert Deal(left, a) == [left[a[0]]] + tail;
    }
  }

  lemma {:induction false} ExcludingNone(s: seq<int>)
    ensures Excluding(s, []) == s
  {
    if s != [] {
      ExcludingNone(s[1..]);
    }
  }

  lemma {:induction false} ExcludingMore(s: seq<int>, dealt: seq<int>, x: int)
    ensures Excluding(Excluding(s, dealt), [x]) == Excluding(s, dealt + [x])
  {
    if s != [] {
      ExcludingMore(s[1..], dealt, x);
      var rest := Excluding(s[1..], dealt);
      if s[0] !in dealt {
        assert ([s[0]] + rest)[1..] == rest;
      } else {
        assert [] + rest == rest;
      }
    }
  }

  lemma {:induction false} ExcludingAbsent(s: seq<int>, x: int)
    requires x !in s
    ensures Excluding(s, [x]) == s
  {
    if s != [] {
      ExcludingAbsent(s[1..], x);
    }
  }

  /** Leaving out the i-th of distinct entries is removing position i. */
  lemma {:induction false} ExcludingIsRemoveAt(s: seq<int>, i: nat)
    requires i < |s| && Distinct(s)
    ensures Excluding(s, [s[i]]) == RemoveAt(s, i)
  {
    if i == 0 {
      ExcludingAbsent(s[1..], s[0]);
    } else {
      ExcludingIsRemoveAt(s[1..], i - 1);
      assert RemoveAt(s, i) == [s[0]] + RemoveAt(s[1..], i - 1);
    }
  }

  /** The k-th dealt index is the A[k]-th of the indices not dealt before, for any cards
      already dealt. */
  lemma {:induction false} DealIsExcluding(all: seq<int>, dealt: seq<int>, a: seq<nat>, k: nat)
    requires Distinct(Excluding(all, dealt)) && Bounded(a, |Excluding(all, dealt)|) && k < |a|
    ensures var hand := Deal(Excluding(all, dealt), a);
      var left := Excluding(all, dealt + hand[..k]);
      a[k] < |left| && hand[k] == left[a[k]]
    decreases |a|
  {
    var left := Excluding(all, dealt);
    var hand := Deal(left, a);
    if k == 0 {
      assert dealt + hand[..0] == dealt;
    } else {
      BoundedTail(a, |left|);
      ExcludingIsRemoveAt(left, a[0]);
      ExcludingMore(all, dealt, left[a[0]]);
      RemoveAtFacts(left, a[0]);
      var dealt' := dealt + [left[a[0]]];
      DealIsExcluding(all, dealt', a[1..], k - 1);
      var hand' := Deal(Excluding(all, dealt'), a[1..]);
      assert hand == [left[a[0]]] + hand';
      assert dealt' + hand'[..k - 1] == dealt + hand[..k];
    }
  }

  /** The hand dealt for hash value v. */
  function HandOf(v: nat, n: nat, h: nat): (hand: seq<int>)
    requires h <= n
    ensures |hand| == h
  {
    DigitsBounded(v, n, h);
    Deal(Indices(n), Digits(v, n, h))
  }

  /** Dealing agrees with the list definition, and deals distinct queues. */
  lemma {:induction false} HandIsAsDesigned(v: nat, n: nat, h: nat)
    requires h <= n
    ensures IsHand(HandOf(v, n, h), Digits(v, n, h), n)
    ensures Distinct(HandOf(v, n, h)) && InRange(HandOf(v, n, h), n)
  {
    DigitsBounded(v, n, h);
    DealtFromAll(n, Digits(v, n, h));
  }

  lemma {:induction false} DealtFromAll(n: nat, a: seq<nat>)
    requires Bounded(a, n)
    ensures var hand := Deal(Indices(n), a); IsHand(hand, a, n) && Distinct(hand) && InRange(hand, n)
  {
    var all := Indices(n);
    var hand := Deal(all, a);
    DealFacts(all, a);
    ExcludingNone(all);
    forall k | 0 <= k < |a|
      ensures var left := Excluding(all, hand[..k]); a[k] < |left| && hand[k] == left[a[k]]
    {
      DealIsExcluding(all, [], a, k);
      assert [] + hand[..k] == hand[..k];
    }
  }

  // ----- which queue is picked -----

  /** Queue hand[k] is the earliest of the least loaded ones. */
  ghost predicate EarliestLeast(hand: seq<int>, lengthOfQueue: int -> int, k: int) {
    && 0 <= k < |hand|
    && (forall j :: 0 <= j < |hand| ==> lengthOfQueue(hand[k]) <= lengthOfQueue(hand[j]))
    && (forall j :: 0 <= j < k ==> lengthOfQueue(hand[k]) < lengthOfQueue(hand[j]))
  }

  ghost predicate AllAtLeast(hand: seq<int>, lengthOfQueue: int -> int, minLen: int) {
    forall j :: 0 <= j < |hand| ==> lengthOfQueue(hand[j]) >= minLen
  }

  /** r is the queue a scan that starts out with minLen and bestIdx must choose. */
  ghost predicate Chooses(hand: seq<int>, lengthOfQueue: int -> int, minLen: int, bestIdx: int, r: int) {
    if AllAtLeast(hand, lengthOfQueue, minLen) then r == bestIdx
    else exists k :: EarliestLeast(hand, lengthOfQueue, k) && r == hand[k]
  }

  lemma EarliestShift(x: int, tail: seq<int>, lengthOfQueue: int -> int, k: int)
    requires EarliestLeast(tail, lengthOfQueue, k) && lengthOfQueue(tail[k]) < lengthOfQueue(x)
    ensures EarliestLeast([x] + tail, lengthOfQueue, k + 1)
  {
    var hand := [x] + tail;
    assert forall j :: 1 <= j < |hand| ==> hand[j] == tail[j - 1];
  }

  lemma ChoosesStep(x: int, tail: seq<int>, lengthOfQueue: int -> int, minLen: int, bestIdx: int, r: int)
    requires lengthOfQueue(x) < minLen ==> Chooses(tail, lengthOfQueue, lengthOfQueue(x), x, r)
    requires lengthOfQueue(x) >= minLen ==> Chooses(tail, lengthOfQueue, minLen, bestIdx, r)
    ensures Chooses([x] + tail, lengthOfQueue, minLen, bestIdx, r)
  {
    var hand, l := [x] + tail, lengthOfQueue(x);
    var low := if l < minLen then l else minLen;
    assert forall j :: 1 <= j < |hand| ==> hand[j] == tail[j - 1];
    if AllAtLeast(tail, lengthOfQueue, low) {
      if l < minLen {
        assert EarliestLeast(hand, lengthOfQueue, 0);
        assert lengthOfQueue(hand[0]) < minLen;
      }
    } else {
      var k :| EarliestLeast(tail, lengthOfQueue, k) && r == tail[k];
      EarliestShift(x, tail, lengthOfQueue, k);
      assert hand[k + 1] == r && lengthOfQueue(hand[k + 1]) < minLen;
    }
  }

  lemma {:induction false} ScanCorrect(hand: seq<int>, lengthOfQueue: int -> int, minLen: int, bestIdx: int)
    ensures Chooses(hand, lengthOfQueue, minLen, bestIdx, Scan(hand, lengthOfQueue, minLen, bestIdx))
    decreases |hand|
  {
    if hand != [] {
      var x, tail := hand[0], hand[1..];
      ScanCorrect(tail, lengthOfQueue, lengthOfQueue(x), x);
      ScanCorrect(tail, lengthOfQueue, minLen, bestIdx);
      ChoosesStep(x, tail, lengthOfQueue, minLen, bestIdx, Scan(hand, lengthOfQueue, minLen, bestIdx));
      assert hand == [x] + tail;
    }
  }

  /** The initial call, from the program's main function. */
  function Start(v: nat, n: nat, h: int, minLen: int): Call {
    Call(v, n, i => i, h, minLen, -1)
  }

  /** Given enough queues, the program picks the earliest least loaded one of the designed
      hand, or -1 when every queue dealt holds at least minLen. */
  lemma PicksFromHand(v: nat, n: nat, h: nat, lengthOfQueue: int -> int, minLen: int)
    requires h <= n
    ensures var r := ShuffleDealAndPick(Start(v, n, h, minLen), lengthOfQueue);
      r.Picked? && Chooses(HandOf(v, n, h), lengthOfQueue, minLen, -1, r.index)
  {
    ClosuresRefineList(Start(v, n, h, minLen), lengthOfQueue, Indices(n));
    ScanCorrect(HandOf(v, n, h), lengthOfQueue, minLen, -1);
  }

  /** It returns -1 in no other case, and dies exactly when the hand is larger than the deck. */
  lemma PickFailsExactlyWhen(v: nat, n: nat, h: nat, lengthOfQueue: int -> int, minLen: int)
    ensures h > n <==> ShuffleDealAndPick(Start(v, n, h, minLen), lengthOfQueue) == DividesByZero
    ensures h <= n ==> (AllAtLeast(HandOf(v, n, h), lengthOfQueue, minLen)
                        <==> ShuffleDealAndPick(Start(v, n, h, minLen), lengthOfQueue) == Picked(-1))
  {
    if h > n {
      TooManyCards(Start(v, n, h, minLen), lengthOfQueue);
    } else {
      PicksFromHand(v, n, h, lengthOfQueue, minLen);
      HandIsAsDesigned(v, n, h);
    }
  }

  // ----- every hand is dealt equally often -----

  function IndexOf(s: seq<int>, x: int): (i: nat)
    requires x in s
    ensures i < |s| && s[i] == x
  {
    if s[0] == x then 0 else 1 + IndexOf(s[1..], x)
  }

  /** The digits that deal a given hand. */
  function Rank(left: seq<int>, hand: seq<int>): (a: seq<nat>)
    requires Distinct(left) && Distinct(hand) && Within(hand, left)
    ensures |a| == |hand|
    decreases |hand|
  {
    if hand == [] then []
    else
      var i := IndexOf(left, hand[0]);
      RemoveAtFacts(left, i);
      [i] + Rank(RemoveAt(left, i), hand[1..])
  }

  lemma {:induction false} DealRank(left: seq<int>, hand: seq<int>)
    requires Distinct(left) && Distinct(hand) && Within(hand, left)
    ensures Bounded(Rank(left, hand), |left|) && Deal(left, Rank(left, hand)) == hand
    decreases |hand|
  {
    if hand != [] {
      var i := IndexOf(left, hand[0]);
      RemoveAtFacts(left, i);
      var rest, tail := RemoveAt(left, i), hand[1..];
      DealRank(rest, tail);
      DealCons(left, i, Rank(rest, tail));
      assert hand == [hand[0]] + tail;
    }
  }

  lemma {:induction false} DealCons(left: seq<int>, i: nat, a: seq<nat>)
    requires i < |left| && Bounded(a, |left| - 1)
    ensures Bounded([i] + a, |left|) && Deal(left, [i] + a) == [left[i]] + Deal(RemoveAt(left, i), a)
  {
    BoundedCons(i, a, |left|);
  }

  lemma BoundedCons(i: nat, a: seq<nat>, n: nat)
    requires 0 < n && i < n && Bounded(a, n - 1)
    ensures Bounded([i] + a, n) && ([i] + a)[1..] == a
  {
  }

  lemma {:induction false} DealInjective(left: seq<int>, a: seq<nat>, b: seq<nat>)
    requires Distinct(left) && Bounded(a, |left|) && Bounded(b, |left|)
    requires Deal(left, a) == Deal(left, b)
    ensures a == b
    decreases |a|
  {
    assert |Deal(left, a)| == |a| && |Deal(left, b)| == |b|;
    if a != [] {
      assert Deal(left, a)[0] == left[a[0]] && Deal(left, b)[0] == left[b[0]];
      BoundedTail(a, |left|);
      BoundedTail(b, |left|);
      RemoveAtFacts(left, a[0]);
      assert Deal(left, a)[1..] == Deal(RemoveAt(left, a[0]), a[1..]);
      assert Deal(left, b)[1..] == Deal(RemoveAt(left, b[0]), b[1..]);
      DealInjective(RemoveAt(left, a[0]), a[1..], b[1..]);
      assert a == [a[0]] + a[1..] && b == [b[0]] + b[1..];
    }
  }

  /** A possible hand: h distinct queue indices, in order. */
  ghost predicate ValidHand(hand: seq<int>, n: nat, h: nat) {
    |hand| == h && Distinct(hand) && InRange(hand, n)
  }

  /** The residue class of hash values that deal a hand. */
  ghost function Residue(hand: seq<int>, n: nat, h: nat): (r: nat)
    requires ValidHand(hand, n, h) && h <= n
    ensures r < FallingFactorial(n, h)
  {
    ValidIsWithin(hand, n, h);
    DealRank(Indices(n), hand);
    ValueBelow(Rank(Indices(n), hand), n);
    Value(Rank(Indices(n), hand), n)
  }

  lemma ValidIsWithin(hand: seq<int>, n: nat, h: nat)
    requires ValidHand(hand, n, h)
    ensures Within(hand, Indices(n))
  {
    forall i | 0 <= i < |hand|
      ensures hand[i] in Indices(n)
    {
      assert Indices(n)[hand[i]] == hand[i];
    }
  }

  /** The digits of a hash value are a given word exactly when its residue is that word's value. */
  lemma {:induction false} DigitsIffResidue(v: nat, n: nat, a: seq<nat>)
    requires Bounded(a, n)
    ensures FallingFactorial(n, |a|) > 0
    ensures Digits(v, n, |a|) == a <==> v % FallingFactorial(n, |a|) == Value(a, n)
  {
    FallingFactorialPositive(n, |a|);
    ValueBelow(a, n);
    if Digits(v, n, |a|) == a {
      ResidueOfDigits(v, n, a);
    }
    if v % FallingFactorial(n, |a|) == Value(a, n) {
      DigitsOfResidue(v, n, a);
    }
  }

  lemma {:induction false} ResidueOfDigits(v: nat, n: nat, a: seq<nat>)
    requires Bounded(a, n) && Digits(v, n, |a|) == a && Value(a, n) < FallingFactorial(n, |a|)
    ensures v % FallingFactorial(n, |a|) == Value(a, n)
  {
    DigitsRepresent(v, n, |a|);
    EuclidUnique(v, FallingFactorial(n, |a|), Value(a, n), Rest(v, n, |a|));
  }

  lemma {:induction false} DigitsOfResidue(v: nat, n: nat, a: seq<nat>)
    requires Bounded(a, n) && FallingFactorial(n, |a|) > 0 && v % FallingFactorial(n, |a|) == Value(a, n)
    ensures Digits(v, n, |a|) == a
  {
    EuclidIdentity(v, FallingFactorial(n, |a|));
    DigitsUnique(v, n, a, v / FallingFactorial(n, |a|));
  }

  /** A hash value deals a hand exactly when it is in the hand's residue class. */
  lemma {:induction false} HandIffResidue(v: nat, n: nat, h: nat, hand: seq<int>)
    requires h <= n && ValidHand(hand, n, h)
    ensures FallingFactorial(n, h) > 0
    ensures HandOf(v, n, h) == hand <==> v % FallingFactorial(n, h) == Residue(hand, n, h)
  {
    ValidIsWithin(hand, n, h);
    var a := Rank(Indices(n), hand);
    DealRank(Indices(n), hand);
    DigitsBounded(v, n, h);
    DigitsIffResidue(v, n, a);
    if HandOf(v, n, h) == hand {
      DealInjective(Indices(n), Digits(v, n, h), a);
    }
  }

  lemma EuclidIdentity(v: nat, m: nat)
    requires m > 0
    ensures v == v % m + m * (v / m)
  {
  }

  /** In any window of ff(n, h) consecutive hash values, each hand is dealt exactly once. */
  lemma {:induction false} ExactlyOncePerWindow(start: nat, n: nat, h: nat, hand: seq<int>)
    requires h <= n && ValidHand(hand, n, h)
    ensures exists v :: start <= v < start + FallingFactorial(n, h) && HandOf(v, n, h) == hand
    ensures forall v: nat, w: nat :: start <= v < w < start + FallingFactorial(n, h) ==>
      HandOf(v, n, h) != hand || HandOf(w, n, h) != hand
  {
    var m, r := FallingFactorial(n, h), Residue(hand, n, h);
    FallingFactorialPositive(n, h);
    var v := ResidueInWindow(start, m, r);
    HandIffResidue(v, n, h, hand);
    forall v: nat, w: nat | start <= v < w < start + m
      ensures HandOf(v, n, h) != hand || HandOf(w, n, h) != hand
    {
      HandIffResidue(v, n, h, hand);
      HandIffResidue(w, n, h, hand);
      if v % m == w % m {
        SameResidueApart(v, w, m);
      }
    }
  }

  lemma ResidueInWindow(start: nat, m: nat, r: nat) returns (v: nat)
    requires r < m
    ensures start <= v < start + m && v % m == r
  {
    var q := start / m;
    EuclidIdentity(start, m);
    if start % m <= r {
      v := r + m * q;
      EuclidUnique(v, m, r, q);
    } else {
      v := r + m * (q + 1);
      OneMoreTime(m, q);
      EuclidUnique(v, m, r, q + 1);
    }
  }

  lemma SameResidueApart(v: nat, w: nat, m: nat)
    requires m > 0 && v < w && v % m == w % m
    ensures w >= v + m
  {
    EuclidIdentity(v, m);
    EuclidIdentity(w, m);
    if v / m < w / m {
      MultiplesApart(m, v / m, w / m, w / m - v / m - 1);
    } else if w / m < v / m {
      MultiplesApart(m, w / m, v / m, v / m - w / m - 1);
    }
  }

  /** The numbers below bound that satisfy p. */
  ghost function Below(p: nat -> bool, bound: nat): (s: set<nat>)
    ensures forall v :: v in s <==> 0 <= v < bound && p(v)
  {
    if bound == 0 then {}
    else Below(p, bound - 1) + if p(bound - 1) then {bound - 1} else {}
  }

  lemma {:induction false} BelowCount(p: nat -> bool, count: nat -> nat, bound: nat)
    requires count(0) == 0
    requires forall v: nat {:trigger p(v)} :: count(v + 1) == count(v) + if p(v) then 1 else 0
    ensures |Below(p, bound)| == count(bound)
  {
    if bound > 0 {
      var v: nat := bound - 1;
      BelowCount(p, count, v);
      BelowStep(p, v);
      assert count(v + 1) == count(v) + if p(v) then 1 else 0;
    }
  }

  lemma {:induction false} BelowStep(p: nat -> bool, v: nat)
    ensures |Below(p, v + 1)| == |Below(p, v)| + if p(v) then 1 else 0
  {
    assert v !in Below(p, v);
  }

  function Deals(hand: seq<int>, n: nat, h: nat): nat -> bool
    requires h <= n
  {
    (v: nat) => HandOf(v, n, h) == hand
  }

  /** The hash values below bound that deal a given hand. */
  ghost function Dealing(hand: seq<int>, n: nat, h: nat, bound: nat): set<nat>
    requires h <= n
  {
    Below(Deals(hand, n, h), bound)
  }

  /** How many numbers below bound have residue r modulo m. */
  function ResidueCount(bound: nat, m: nat, r: nat): nat
    requires r < m
  {
    bound / m + if r < bound % m then 1 else 0
  }

  lemma ResidueCountStep(v: nat, m: nat, r: nat)
    requires r < m
    ensures ResidueCount(v + 1, m, r) == ResidueCount(v, m, r) + if v % m == r then 1 else 0
  {
    EuclidIdentity(v, m);
    var q := v / m;
    if v % m + 1 < m {
      EuclidUnique(v + 1, m, v % m + 1, q);
    } else {
      OneMoreTime(m, q);
      EuclidUnique(v + 1, m, 0, q + 1);
    }
  }

  function ResidueCounts(m: nat, r: nat): nat -> nat
    requires r < m
  {
    bound => ResidueCount(bound, m, r)
  }

  lemma {:induction false} DealingCount(hand: seq<int>, n: nat, h: nat, bound: nat)
    requires h <= n && ValidHand(hand, n, h)
    ensures |Dealing(hand, n, h, bound)| == ResidueCount(bound, FallingFactorial(n, h), Residue(hand, n, h))
  {
    var m, r := FallingFactorial(n, h), Residue(hand, n, h);
    var count := ResidueCounts(m, r);
    assert count(0) == 0 by {
      EuclidUnique(0, m, 0, 0);
    }
    var deals := Deals(hand, n, h);
    forall v: nat {:trigger deals(v)}
      ensures count(v + 1) == count(v) + if deals(v) then 1 else 0
    {
      HandIffResidue(v, n, h, hand);
      ResidueCountStep(v, m, r);
    }
    BelowCount(deals, count, bound);
  }

  const HASH_VALUES: nat := 0x1_0000_0000_0000_0000
  const UNEVENNESS_LIMIT: nat := 0x1000_0000_0000_0000

  /** Over all 64-bit hash values any two hands are dealt equally often, give or take one. */
  lemma DealIsEven(n: nat, h: nat, hand: seq<int>, hand': seq<int>)
    requires h <= n && ValidHand(hand, n, h) && ValidHand(hand', n, h)
    ensures |Dealing(hand, n, h, HASH_VALUES)| <= |Dealing(hand', n, h, HASH_VALUES)| + 1
  {
    DealingCount(hand, n, h, HASH_VALUES);
    DealingCount(hand', n, h, HASH_VALUES);
  }

  /** The configured bound ff(n, h) < 2^60 means every hand is dealt at least 16 times. */
  lemma {:induction false} EveryHandDealt(n: nat, h: nat, hand: seq<int>)
    requires h <= n && ValidHand(hand, n, h) && FallingFactorial(n, h) < UNEVENNESS_LIMIT
    ensures |Dealing(hand, n, h, HASH_VALUES)| >= 16
  {
    DealingCount(hand, n, h, HASH_VALUES);
    QuotientAtLeast(HASH_VALUES, FallingFactorial(n, h), 16);
  }

  lemma QuotientAtLeast(v: nat, m: nat, k: nat)
    requires m > 0 && m * k <= v
    ensures v / m >= k
  {
    EuclidIdentity(v, m);
    if v / m < k {
      MultiplesApart(m, v / m, k, k - v / m - 1);
    }
  }
}
