/** Dispatching at one priority level: queues compete by virtual finish, a chosen request
    accumulates the seats it needs before anything else may start, and the seats in use
    never exceed the concurrency limit unless a single request is wider than it. */
module Scheduler {
  import opened Options
  import opened Integers
  import opened FairQueue

  datatype Scheduler = Scheduler(queues: seq<Queue>, chosen: Option<nat>, last: nat)

  datatype Action =
    | Add(i: nat, width: nat, now: real)
    | Choose(c: nat)
    | Start
    | Complete(i: nat, j: nat, actual: real)
    | Expel(i: nat, j: nat)

  function Initial(n: nat): Scheduler {
    Scheduler(seq(n, _ => EMPTY), None, 0)
  }

  // ----- seats -----

  function Occupied(queues: seq<Queue>): nat {
    if queues == [] then 0 else Widths(queues[0].executing) + Occupied(queues[1..])
  }

  function Running(queues: seq<Queue>): nat {
    if queues == [] then 0 else |queues[0].executing| + Running(queues[1..])
  }

  lemma {:induction false} Replace(queues: seq<Queue>, i: nat, q: Queue)
    requires i < |queues|
    ensures Occupied(queues[i := q]) + Widths(queues[i].executing) == Occupied(queues) + Widths(q.executing)
    ensures Running(queues[i := q]) + |queues[i].executing| == Running(queues) + |q.executing|
  {
    if i == 0 {
      assert queues[0 := q][1..] == queues[1..];
    } else {
      assert queues[i := q][1..] == queues[1..][i - 1 := q];
      Replace(queues[1..], i - 1, q);
    }
  }

  // ----- choosing a queue -----

  /** The queue at distance k after the one last dispatched from. */
  function Turn(last: nat, k: nat, n: nat): (i: nat)
    requires k < n
    ensures i < n
  {
    var first := if last + 1 < n then last + 1 else 0;
    if first + k < n then first + k else first + k - n
  }

  predicate Waits(queues: seq<Queue>, i: nat) {
    i < |queues| && queues[i].waiting != []
  }

  function NextFinish(queues: seq<Queue>, i: nat, guess: real): real
    requires Waits(queues, i)
  {
    ComputedFinish(queues[i], 0, guess)
  }

  /** The k-th queue in turn has the least next finish among the first m in turn, and is the
      first of those. */
  ghost predicate LeastInTurn(queues: seq<Queue>, last: nat, guess: real, k: nat, m: nat)
    requires m <= |queues|
  {
    && k < m && Waits(queues, Turn(last, k, |queues|))
    && forall p: nat {:trigger Turn(last, p, |queues|)} ::
         p < m && Waits(queues, Turn(last, p, |queues|)) ==>
           && NextFinish(queues, Turn(last, k, |queues|), guess) <= NextFinish(queues, Turn(last, p, |queues|), guess)
           && (p < k ==>
               NextFinish(queues, Turn(last, k, |queues|), guess) < NextFinish(queues, Turn(last, p, |queues|), guess))
  }

  ghost predicate IsPick(queues: seq<Queue>, last: nat, guess: real, c: nat) {
    queues != [] && exists k :: LeastInTurn(queues, last, guess, k, |queues|) && c == Turn(last, k, |queues|)
  }

  /** Iterates through all the queues, in turn, keeping the one with the least next finish. */
  method SelectQueue(queues: seq<Queue>, last: nat, guess: real) returns (r: Option<nat>)
    ensures r.Some? ==> IsPick(queues, last, guess, r.value)
    ensures r.None? ==> forall i: nat :: i < |queues| ==> queues[i].waiting == []
  {
    r := None;
    var n := |queues|;
    if n == 0 {
      return;
    }
    ghost var best := 0;
    var k := 0;
    while k < n
      invariant 0 <= k <= n
      invariant r.None? ==> forall p: nat {:trigger Turn(last, p, n)} :: p < k ==> !Waits(queues, Turn(last, p, n))
      invariant r.Some? ==> LeastInTurn(queues, last, guess, best, k) && r.value == Turn(last, best, n)
    {
      var i := Turn(last, k, n);
      if queues[i].waiting != [] {
        if r.None? || NextFinish(queues, i, guess) < NextFinish(queues, r.value, guess) {
          r := Some(i);
          best := k;
        }
      }
      k := k + 1;
    }
    forall i: nat | i < n
      ensures r.None? ==> queues[i].waiting == []
    {
      var p := TurnOf(last, i, n);
      assert r.None? ==> !Waits(queues, Turn(last, p, n));
    }
  }

  /** Every queue has its turn. */
  lemma TurnOf(last: nat, i: nat, n: nat) returns (p: nat)
    requires i < n
    ensures p < n && Turn(last, p, n) == i
  {
    var first := if last + 1 < n then last + 1 else 0;
    p := if first <= i then i - first else i + n - first;
  }

  /** The pick has the least next finish of all queues with a waiting request. */
  lemma PickIsLeast(queues: seq<Queue>, last: nat, guess: real, c: nat, i: nat)
    requires IsPick(queues, last, guess, c) && Waits(queues, i)
    ensures Waits(queues, c) && NextFinish(queues, c, guess) <= NextFinish(queues, i, guess)
  {
    var k :| LeastInTurn(queues, last, guess, k, |queues|) && c == Turn(last, k, |queues|);
    var p := TurnOf(last, i, |queues|);
  }

  /** There is only one pick: ties go to the queue whose turn comes first. */
  lemma PickIsUnique(queues: seq<Queue>, last: nat, guess: real, c: nat, c': nat)
    requires IsPick(queues, last, guess, c) && IsPick(queues, last, guess, c')
    ensures c == c'
  {
    var k :| LeastInTurn(queues, last, guess, k, |queues|) && c == Turn(last, k, |queues|);
    var k' :| LeastInTurn(queues, last, guess, k', |queues|) && c' == Turn(last, k', |queues|);
  }

  // ----- round robin -----

  /** How many queues come between the one last dispatched from and queue i, going round. */
  lemma DistanceOf(last: nat, k: nat, n: nat)
    requires last < n && k < n
    ensures (Turn(last, k, n) + n - last - 1) % n == k
  {
    var v := Turn(last, k, n) + n - last - 1;
    if v < n {
      EuclidUnique(v, n, k, 0);
    } else {
      EuclidUnique(v, n, k, 1);
    }
  }

  /** Among queues that are level, the pick is the first one after the queue last dispatched from,
      going round. */
  lemma TiesGoRound(queues: seq<Queue>, last: nat, guess: real, c: nat, i: nat)
    requires last < |queues| && IsPick(queues, last, guess, c) && Waits(queues, c) && Waits(queues, i) && i != c
    requires NextFinish(queues, i, guess) == NextFinish(queues, c, guess)
    ensures var n := |queues|; c < n && (c + n - last - 1) % n < (i + n - last - 1) % n
  {
    var n := |queues|;
    var k :| LeastInTurn(queues, last, guess, k, n) && c == Turn(last, k, n);
    var p := TurnOf(last, i, n);
    DistanceOf(last, k, n);
    DistanceOf(last, p, n);
  }

  /** The queue last dispatched from is not picked while another one is level with it. */
  lemma NotAgainWhileLevel(queues: seq<Queue>, last: nat, guess: real, i: nat)
    requires Waits(queues, last) && Waits(queues, i) && i != last
    requires NextFinish(queues, i, guess) == NextFinish(queues, last, guess)
    ensures !IsPick(queues, last, guess, last)
  {
    var n := |queues|;
    if IsPick(queues, last, guess, last) {
      TiesGoRound(queues, last, guess, last, i);
      EuclidUnique(n - 1, n, n - 1, 0);
    }
  }

  // ----- what the guess changes about the choice -----

  /** What every queue has been through, as runs under guess zero. */
  ghost predicate AreRuns(histories: seq<seq<Event>>) {
    forall i :: 0 <= i < |histories| ==> FairQueue.IsRun(EMPTY, histories[i], 0.0)
  }

  lemma {:induction false} RunUnderGuess(events: seq<Event>, guess: real)
    requires FairQueue.IsRun(EMPTY, events, 0.0)
    ensures FairQueue.IsRun(EMPTY, events, guess)
    ensures Shifted(FairQueue.Run(EMPTY, events, guess), FairQueue.Run(EMPTY, events, 0.0), guess)
  {
    NoWork(0, guess);
    ShiftedRun(EMPTY, EMPTY, events, guess);
  }

  /** The queues that the same histories lead to under a guess. */
  ghost function QueuesAfter(histories: seq<seq<Event>>, guess: real): (queues: seq<Queue>)
    requires AreRuns(histories)
    ensures |queues| == |histories|
    ensures forall i :: 0 <= i < |histories| ==>
      (FairQueue.IsRun(EMPTY, histories[i], guess) && queues[i] == FairQueue.Run(EMPTY, histories[i], guess))
  {
    if histories == [] then []
    else
      RunUnderGuess(histories[0], guess);
      [FairQueue.Run(EMPTY, histories[0], guess)] + QueuesAfter(histories[1..], guess)
  }

  lemma {:induction false} FinishAfterHistories(histories: seq<seq<Event>>, i: nat, guess: real)
    requires AreRuns(histories)
    ensures Waits(QueuesAfter(histories, guess), i) <==> Waits(QueuesAfter(histories, 0.0), i)
    ensures Waits(QueuesAfter(histories, 0.0), i) ==>
      var q := QueuesAfter(histories, 0.0)[i];
      NextFinish(QueuesAfter(histories, guess), i, guess) == q.virtualStart + Work(GuessedSeats(q), guess)
  {
    if i < |histories| {
      RunUnderGuess(histories[i], guess);
      if Waits(QueuesAfter(histories, 0.0), i) {
        NextFinishUnderGuess(histories[i], guess);
      }
    }
  }

  /** The pick of guess zero, with no more guessed seats than any other queue with a waiting
      request. */
  ghost predicate FewestGuessed(queues: seq<Queue>, c: nat) {
    Waits(queues, c) && forall i: nat :: Waits(queues, i) ==> GuessedSeats(queues[c]) <= GuessedSeats(queues[i])
  }

  lemma {:induction false} StaysPicked(histories: seq<seq<Event>>, last: nat, c: nat, guess: real)
    requires AreRuns(histories) && guess >= 0.0
    requires IsPick(QueuesAfter(histories, 0.0), last, 0.0, c) && FewestGuessed(QueuesAfter(histories, 0.0), c)
    ensures IsPick(QueuesAfter(histories, guess), last, guess, c)
  {
    var q0, q, n := QueuesAfter(histories, 0.0), QueuesAfter(histories, guess), |histories|;
    var k :| LeastInTurn(q0, last, 0.0, k, n) && c == Turn(last, k, n);
    FinishAfterHistories(histories, c, guess);
    FinishAfterHistories(histories, c, 0.0);
    forall p: nat | p < n && Waits(q, Turn(last, p, n))
      ensures NextFinish(q, c, guess) <= NextFinish(q, Turn(last, p, n), guess)
      ensures p < k ==> NextFinish(q, c, guess) < NextFinish(q, Turn(last, p, n), guess)
    {
      var i := Turn(last, p, n);
      FinishAfterHistories(histories, i, guess);
      FinishAfterHistories(histories, i, 0.0);
      ZeroDuration(GuessedSeats(q0[c]), 0.0);
      ZeroDuration(GuessedSeats(q0[i]), 0.0);
      WorkMono(GuessedSeats(q0[c]), GuessedSeats(q0[i]), guess);
    }
    assert LeastInTurn(q, last, guess, k, n);
  }

  lemma {:induction false} LosesPick(histories: seq<seq<Event>>, last: nat, c: nat, i: nat) returns (guess: real)
    requires AreRuns(histories) && IsPick(QueuesAfter(histories, 0.0), last, 0.0, c)
    requires Waits(QueuesAfter(histories, 0.0), c) && Waits(QueuesAfter(histories, 0.0), i)
    requires GuessedSeats(QueuesAfter(histories, 0.0)[i]) < GuessedSeats(QueuesAfter(histories, 0.0)[c])
    ensures guess >= 0.0 && !IsPick(QueuesAfter(histories, guess), last, guess, c)
  {
    var q0 := QueuesAfter(histories, 0.0);
    PickIsLeast(q0, last, 0.0, c, i);
    FinishAfterHistories(histories, c, 0.0);
    FinishAfterHistories(histories, i, 0.0);
    ZeroDuration(GuessedSeats(q0[c]), 0.0);
    ZeroDuration(GuessedSeats(q0[i]), 0.0);
    guess := Overtaken(q0[c].virtualStart, GuessedSeats(q0[c]), q0[i].virtualStart, GuessedSeats(q0[i]));
    FinishAfterHistories(histories, c, guess);
    FinishAfterHistories(histories, i, guess);
    if IsPick(QueuesAfter(histories, guess), last, guess, c) {
      PickIsLeast(QueuesAfter(histories, guess), last, guess, c, i);
    }
  }

  /** Among any number of queues, wherever the round robin stands: every guess leads to the
      same choice exactly when the queue chosen under guess zero has the fewest guessed seats
      of all queues with a waiting request. */
  lemma {:induction false} ChoiceIgnoresGuessExactlyWhen(histories: seq<seq<Event>>, last: nat, c: nat)
    requires AreRuns(histories) && IsPick(QueuesAfter(histories, 0.0), last, 0.0, c)
    ensures (forall g :: g >= 0.0 ==> IsPick(QueuesAfter(histories, g), last, g, c))
       <==> FewestGuessed(QueuesAfter(histories, 0.0), c)
  {
    var q0 := QueuesAfter(histories, 0.0);
    var k :| LeastInTurn(q0, last, 0.0, k, |q0|) && c == Turn(last, k, |q0|);
    if FewestGuessed(q0, c) {
      forall g | g >= 0.0
        ensures IsPick(QueuesAfter(histories, g), last, g, c)
      {
        StaysPicked(histories, last, c, g);
      }
    } else {
      var i: nat :| Waits(q0, i) && GuessedSeats(q0[i]) < GuessedSeats(q0[c]);
      var g := LosesPick(histories, last, c, i);
      assert !IsPick(QueuesAfter(histories, g), last, g, c);
    }
  }

  /** Of two queues, the one that is due before the other is picked, wherever the round robin
      stands. */
  lemma {:induction false} PickOfTwo(first: seq<Event>, second: seq<Event>, last: nat, guess: real)
    requires FairQueue.IsRun(EMPTY, first, 0.0) && FairQueue.IsRun(EMPTY, second, 0.0)
    requires FairQueue.Run(EMPTY, first, 0.0).waiting != [] && FairQueue.Run(EMPTY, second, 0.0).waiting != []
    ensures AreRuns([first, second])
    ensures Precedes(first, second, guess) ==> IsPick(QueuesAfter([first, second], guess), last, guess, 0)
    ensures Precedes(second, first, guess) ==> IsPick(QueuesAfter([first, second], guess), last, guess, 1)
  {
    var histories := [first, second];
    var queues := QueuesAfter(histories, guess);
    NextFinishUnderGuess(first, guess);
    NextFinishUnderGuess(second, guess);
    assert queues[0] == FairQueue.Run(EMPTY, histories[0], guess);
    assert queues[1] == FairQueue.Run(EMPTY, histories[1], guess);
    if Precedes(first, second, guess) {
      StrictlyAhead(queues, last, guess, 0);
    }
    if Precedes(second, first, guess) {
      StrictlyAhead(queues, last, guess, 1);
    }
  }

  /** Two queues of requests that all take one seat: guess 0 chooses the first, guess 10 the
      second, wherever the round robin stands. */
  lemma ChoiceCanTurn(last: nat)
    ensures var histories := [[Arrive(1, 0.0), Arrive(1, 0.0), Dispatch], [Arrive(1, 5.0)]];
      && AreRuns(histories)
      && IsPick(QueuesAfter(histories, 0.0), last, 0.0, 0)
      && IsPick(QueuesAfter(histories, 10.0), last, 10.0, 1)
  {
    GuessCanMatter();
    PickOfTwo([Arrive(1, 0.0), Arrive(1, 0.0), Dispatch], [Arrive(1, 5.0)], last, 0.0);
    PickOfTwo([Arrive(1, 0.0), Arrive(1, 0.0), Dispatch], [Arrive(1, 5.0)], last, 10.0);
  }

  ghost predicate OneSeatEach(r: seq<Request>) {
    forall i :: 0 <= i < |r| ==> r[i].width == 1
  }

  lemma {:induction false} OneSeatWidths(r: seq<Request>)
    requires OneSeatEach(r)
    ensures Widths(r) == |r|
  {
    if r != [] {
      OneSeatWidths(r[1..]);
    }
  }

  /** When all requests have width one: the guess plays no part in a choice exactly when no
      other queue with a waiting request has fewer requests executing. */
  lemma {:induction false} OneSeatChoiceIgnoresGuessExactlyWhen(histories: seq<seq<Event>>, last: nat, c: nat)
    requires AreRuns(histories) && IsPick(QueuesAfter(histories, 0.0), last, 0.0, c)
    requires forall i :: 0 <= i < |histories| ==>
      (OneSeatEach(QueuesAfter(histories, 0.0)[i].waiting) && OneSeatEach(QueuesAfter(histories, 0.0)[i].executing))
    ensures var q0 := QueuesAfter(histories, 0.0);
      (forall g :: g >= 0.0 ==> IsPick(QueuesAfter(histories, g), last, g, c)) <==>
      (forall i: nat :: Waits(q0, i) ==> |q0[c].executing| <= |q0[i].executing|)
  {
    var q0 := QueuesAfter(histories, 0.0);
    ChoiceIgnoresGuessExactlyWhen(histories, last, c);
    forall i: nat | Waits(q0, i)
      ensures GuessedSeats(q0[i]) == |q0[i].executing| + 1
    {
      OneSeatWidths(q0[i].executing);
    }
    var k :| LeastInTurn(q0, last, 0.0, k, |q0|) && c == Turn(last, k, |q0|);
    assert Waits(q0, c);
  }

  // ----- steps -----

  /** The seats a request would need are there, or it would be alone. */
  predicate Fits(queues: seq<Queue>, width: nat, limit: nat) {
    Occupied(queues) == 0 || Occupied(queues) + width <= limit
  }

  ghost predicate Enabled(s: Scheduler, a: Action, guess: real, limit: nat) {
    match a
    case Add(i, width, _) => i < |s.queues| && width >= 1
    case Choose(c) =>
      && s.chosen.None?
      && (Occupied(s.queues) == 0 || Occupied(s.queues) < limit)
      && IsPick(s.queues, s.last, guess, c)
    case Start =>
      && s.chosen.Some? && Waits(s.queues, s.chosen.value)
      && Fits(s.queues, s.queues[s.chosen.value].waiting[0].width, limit)
    case Complete(i, j, _) => i < |s.queues| && Has(s.queues[i].executing, j)
    case Expel(i, j) => i < |s.queues| && Has(s.queues[i].waiting, j)
  }

  /** The event that an action is for the queue it concerns. */
  function Local(a: Action): Option<Event> {
    match a
    case Add(_, width, now) => Some(Arrive(width, now))
    case Choose(_) => None
    case Start => Some(Dispatch)
    case Complete(_, j, actual) => Some(Finish(j, actual))
    case Expel(_, j) => Some(Eject(j))
  }

  /** The queue an action concerns. */
  function Concerns(s: Scheduler, a: Action): nat
    requires a.Start? ==> s.chosen.Some?
  {
    match a
    case Add(i, _, _) => i
    case Choose(c) => c
    case Start => s.chosen.value
    case Complete(i, _, _) => i
    case Expel(i, _) => i
  }

  /** The action makes sense for the queue it concerns. */
  predicate Applicable(s: Scheduler, a: Action) {
    && (a.Start? ==> s.chosen.Some?)
    && (a.Choose? || (Concerns(s, a) < |s.queues| && FairQueue.Enabled(s.queues[Concerns(s, a)], Local(a).value)))
  }

  /** Ejecting the request that has been chosen undoes the choice. */
  predicate Unchoose(s: Scheduler, a: Action) {
    a.Expel? && s.chosen == Some(a.i) && a.i < |s.queues| && Find(s.queues[a.i].waiting, a.j) == 0
  }

  function Next(s: Scheduler, a: Action, guess: real): Scheduler
    requires Applicable(s, a)
  {
    var i := Concerns(s, a);
    var queues := if Local(a).None? then s.queues
                  else s.queues[i := Step(s.queues[i], Local(a).value, guess)];
    if a.Choose? then Scheduler(queues, Some(a.c), s.last)
    else if a.Start? then Scheduler(queues, None, i)
    else Scheduler(queues, if Unchoose(s, a) then None else s.chosen, s.last)
  }

  /** What each action does: an event of one queue, with what the action says of it, and nothing
      to the other queues; only a choice and a start move the choice, unless the chosen request is
      ejected; only a start moves the round robin, to the queue that is dispatched from. */
  lemma ActionIs(s: Scheduler, a: Action, guess: real)
    requires Applicable(s, a)
    ensures var s' := Next(s, a, guess);
      && |s'.queues| == |s.queues| && s'.last == (if a.Start? then s.chosen.value else s.last)
      && (forall k :: 0 <= k < |s.queues| && (a.Choose? || k != Concerns(s, a)) ==> s'.queues[k] == s.queues[k])
      && match a
         case Add(i, width, now) =>
           s'.chosen == s.chosen && s'.queues[i] == Step(s.queues[i], Arrive(width, now), guess)
         case Choose(c) => s'.chosen == Some(c)
         case Start =>
           s'.chosen == None && s'.queues[s.chosen.value] == Step(s.queues[s.chosen.value], Dispatch, guess)
         case Complete(i, j, actual) =>
           s'.chosen == s.chosen && s'.queues[i] == Step(s.queues[i], Finish(j, actual), guess)
         case Expel(i, j) => s'.queues[i] == Step(s.queues[i], Eject(j), guess)
  {
  }

  lemma EnabledIsLocal(s: Scheduler, a: Action, guess: real, limit: nat)
    requires Enabled(s, a, guess, limit)
    ensures Applicable(s, a)
  {
  }

  // ----- runs -----

  ghost predicate IsRun(s: Scheduler, actions: seq<Action>, guess: real, limit: nat)
    decreases |actions|
  {
    actions == [] ||
    (Enabled(s, actions[0], guess, limit)
     && (EnabledIsLocal(s, actions[0], guess, limit); IsRun(Next(s, actions[0], guess), actions[1..], guess, limit)))
  }

  ghost function Run(s: Scheduler, actions: seq<Action>, guess: real, limit: nat): Scheduler
    requires IsRun(s, actions, guess, limit)
    decreases |actions|
  {
    if actions == [] then s
    else
      EnabledIsLocal(s, actions[0], guess, limit);
      Run(Next(s, actions[0], guess), actions[1..], guess, limit)
  }

  // ----- seat safety -----

  ghost predicate Positive(r: seq<Request>) {
    forall i :: 0 <= i < |r| ==> r[i].width >= 1
  }

  /** The seats in use stay within the limit, or one request alone is wider than it. */
  ghost predicate SeatSafe(queues: seq<Queue>, limit: nat) {
    Occupied(queues) <= limit || Running(queues) == 1
  }

  ghost predicate Inv(s: Scheduler, limit: nat) {
    && (forall i :: 0 <= i < |s.queues| ==> Positive(s.queues[i].waiting) && Positive(s.queues[i].executing))
    && (s.chosen.Some? ==> Waits(s.queues, s.chosen.value))
    && SeatSafe(s.queues, limit)
  }

  lemma {:induction false} PositiveWidths(r: seq<Request>)
    requires Positive(r)
    ensures Widths(r) >= |r|
  {
    if r != [] {
      assert Positive(r[1..]) by {
        assert forall i :: 0 <= i < |r[1..]| ==> r[1..][i] == r[i + 1];
      }
      PositiveWidths(r[1..]);
    }
  }

  lemma {:induction false} NoneRunning(queues: seq<Queue>)
    requires forall i :: 0 <= i < |queues| ==> Positive(queues[i].executing)
    ensures Occupied(queues) >= Running(queues)
  {
    if queues != [] {
      PositiveWidths(queues[0].executing);
      assert forall i :: 0 <= i < |queues[1..]| ==> queues[1..][i] == queues[i + 1];
      NoneRunning(queues[1..]);
    }
  }

  lemma StepPositive(q: Queue, e: Event, guess: real)
    requires FairQueue.Enabled(q, e) && Positive(q.waiting) && Positive(q.executing)
    requires e.Arrive? ==> e.width >= 1
    ensures Positive(Step(q, e, guess).waiting) && Positive(Step(q, e, guess).executing)
  {
  }

  lemma StartKeepsSeats(s: Scheduler, guess: real, limit: nat)
    requires Inv(s, limit) && Enabled(s, Start, guess, limit)
    ensures SeatSafe(Next(s, Start, guess).queues, limit)
  {
    var i := s.chosen.value;
    var q := s.queues[i];
    var q' := Step(q, Dispatch, guess);
    Replace(s.queues, i, q');
    WidthsAppend(q.executing, q.waiting[0]);
    NoneRunning(s.queues);
  }

  lemma CompleteKeepsSeats(s: Scheduler, i: nat, j: nat, actual: real, guess: real, limit: nat)
    requires Inv(s, limit) && i < |s.queues| && Has(s.queues[i].executing, j)
    ensures SeatSafe(Next(s, Complete(i, j, actual), guess).queues, limit)
  {
    var q := s.queues[i];
    var q' := Step(q, Finish(j, actual), guess);
    Replace(s.queues, i, q');
    WidthsRemove(q.executing, Find(q.executing, j));
    if Running(s.queues) == 1 {
      NoneRunningThen(Next(s, Complete(i, j, actual), guess).queues);
    }
  }

  lemma {:induction false} NoneRunningThen(queues: seq<Queue>)
    ensures Running(queues) == 0 ==> Occupied(queues) == 0
  {
    if queues != [] {
      NoneRunningThen(queues[1..]);
    }
  }

  /** Every enabled step keeps the invariant. */
  lemma StepKeepsInv(s: Scheduler, a: Action, guess: real, limit: nat)
    requires Inv(s, limit) && Enabled(s, a, guess, limit)
    ensures Applicable(s, a)
    ensures Inv(Next(s, a, guess), limit)
  {
    EnabledIsLocal(s, a, guess, limit);
    if Local(a).Some? {
      StepPositive(s.queues[Concerns(s, a)], Local(a).value, guess);
    }
    match a
    case Add(i, width, now) => Replace(s.queues, i, Step(s.queues[i], Arrive(width, now), guess));
    case Choose(_) =>
    case Start => StartKeepsSeats(s, guess, limit);
    case Complete(i, j, actual) => CompleteKeepsSeats(s, i, j, actual, guess, limit);
    case Expel(i, j) => Replace(s.queues, i, Step(s.queues[i], Eject(j), guess));
  }

  lemma {:induction false} RunKeepsInv(s: Scheduler, actions: seq<Action>, guess: real, limit: nat)
    requires Inv(s, limit) && IsRun(s, actions, guess, limit)
    ensures Inv(Run(s, actions, guess, limit), limit)
    decreases |actions|
  {
    if actions != [] {
      StepKeepsInv(s, actions[0], guess, limit);
      RunKeepsInv(Next(s, actions[0], guess), actions[1..], guess, limit);
    }
  }

  lemma {:induction false} InitialUnoccupied(queues: seq<Queue>)
    requires forall i :: 0 <= i < |queues| ==> queues[i] == EMPTY
    ensures Occupied(queues) == 0
  {
    if queues != [] {
      assert forall i :: 0 <= i < |queues[1..]| ==> queues[1..][i] == queues[i + 1];
      InitialUnoccupied(queues[1..]);
    }
  }

  /** In every reachable state the seats in use are within the limit, or exactly one request
      is executing. */
  lemma {:induction false} SeatSafety(n: nat, actions: seq<Action>, guess: real, limit: nat)
    requires IsRun(Initial(n), actions, guess, limit)
    ensures SeatSafe(Run(Initial(n), actions, guess, limit).queues, limit)
  {
    InitialUnoccupied(Initial(n).queues);
    RunKeepsInv(Initial(n), actions, guess, limit);
  }

  /** The round robin always stands at one of the queues, and a start moves it to the queue that
      the started request came from. */
  lemma {:induction false} CursorIsLastStarted(s: Scheduler, actions: seq<Action>, guess: real, limit: nat)
    requires IsRun(s, actions, guess, limit) && s.last < |s.queues|
    ensures var s' := Run(s, actions, guess, limit); s'.last < |s'.queues| == |s.queues|
    ensures actions != [] ==>
      var before := actions[..|actions| - 1];
      && IsRun(s, before, guess, limit)
      && var b := Run(s, before, guess, limit);
         Run(s, actions, guess, limit).last ==
           if actions[|actions| - 1] == Start && b.chosen.Some? then b.chosen.value else b.last
    decreases |actions|
  {
    if actions != [] {
      var a, rest := actions[0], actions[1..];
      EnabledIsLocal(s, a, guess, limit);
      var s1 := Next(s, a, guess);
      CursorIsLastStarted(s1, rest, guess, limit);
      if rest == [] {
        assert actions[..0] == [];
      } else {
        assert actions[..|actions| - 1] == [a] + rest[..|rest| - 1];
        ConsRun(s, a, rest[..|rest| - 1], guess, limit);
      }
    }
  }

  // ----- every queue keeps its own books -----

  /** What a run of the scheduler is for queue i. */
  ghost function Project(s: Scheduler, actions: seq<Action>, i: nat, guess: real, limit: nat): seq<Event>
    requires IsRun(s, actions, guess, limit)
    decreases |actions|
  {
    if actions == [] then []
    else
      EnabledIsLocal(s, actions[0], guess, limit);
      var rest := Project(Next(s, actions[0], guess), actions[1..], i, guess, limit);
      if !actions[0].Choose? && Concerns(s, actions[0]) == i then [Local(actions[0]).value] + rest else rest
  }

  /** A run of the scheduler is a run of each of its queues, so whatever holds of a queue
      after every run of its own holds of it here. */
  lemma {:induction false} RunProjects(s: Scheduler, actions: seq<Action>, i: nat, guess: real, limit: nat)
    requires IsRun(s, actions, guess, limit) && i < |s.queues|
    ensures i < |Run(s, actions, guess, limit).queues|
    ensures FairQueue.IsRun(s.queues[i], Project(s, actions, i, guess, limit), guess)
    ensures FairQueue.Run(s.queues[i], Project(s, actions, i, guess, limit), guess)
         == Run(s, actions, guess, limit).queues[i]
    decreases |actions|
  {
    if actions != [] {
      var a := actions[0];
      EnabledIsLocal(s, a, guess, limit);
      var s' := Next(s, a, guess);
      RunProjects(s', actions[1..], i, guess, limit);
      if !a.Choose? && Concerns(s, a) == i {
        RunCons(s.queues[i], Local(a).value, Project(s', actions[1..], i, guess, limit), guess);
      }
    }
  }

  lemma {:induction false} RunCons(q: Queue, e: Event, events: seq<Event>, guess: real)
    requires FairQueue.Enabled(q, e) && FairQueue.IsRun(Step(q, e, guess), events, guess)
    ensures FairQueue.IsRun(q, [e] + events, guess)
    ensures FairQueue.Run(q, [e] + events, guess) == FairQueue.Run(Step(q, e, guess), events, guess)
  {
    assert ([e] + events)[1..] == events;
  }

  // ----- the choice follows the explicit virtual finish times -----

  /** The account, request by request, of queue i in a run of the scheduler. */
  ghost function AccountOf(n: nat, actions: seq<Action>, i: nat, guess: real, limit: nat): (a: Account)
    requires IsRun(Initial(n), actions, guess, limit) && i < n
    ensures i < |Run(Initial(n), actions, guess, limit).queues|
    ensures FairQueue.Refines(Run(Initial(n), actions, guess, limit).queues[i], a, guess)
  {
    RunProjects(Initial(n), actions, i, guess, limit);
    var events := Project(Initial(n), actions, i, guess, limit);
    RunRefines(EMPTY, Account(0, 0.0, [], []), events, guess);
    AccountRun(Account(0, 0.0, [], []), events, guess)
  }

  /** r_finish_virtual of the oldest request waiting in queue i, chained over all requests
      that the queue dispatched in its busy period. */
  ghost function ChainedFinish(n: nat, actions: seq<Action>, i: nat, guess: real, limit: nat): real
    requires IsRun(Initial(n), actions, guess, limit)
    requires i < n && Waits(Run(Initial(n), actions, guess, limit).queues, i)
  {
    var a := AccountOf(n, actions, i, guess, limit);
    RFinish(a.start, Schedule(a, guess), |a.served|)
  }

  lemma {:induction false} NextFinishIsChained(n: nat, actions: seq<Action>, i: nat, guess: real, limit: nat)
    requires IsRun(Initial(n), actions, guess, limit)
    requires i < n && Waits(Run(Initial(n), actions, guess, limit).queues, i)
    ensures NextFinish(Run(Initial(n), actions, guess, limit).queues, i, guess)
         == ChainedFinish(n, actions, i, guess, limit)
  {
    var a := AccountOf(n, actions, i, guess, limit);
    ComputedFinishIsChained(Run(Initial(n), actions, guess, limit).queues[i], a, 0, guess);
  }

  lemma {:induction false} RunKeepsCount(s: Scheduler, actions: seq<Action>, guess: real, limit: nat)
    requires IsRun(s, actions, guess, limit)
    ensures |Run(s, actions, guess, limit).queues| == |s.queues|
    decreases |actions|
  {
    if actions != [] {
      EnabledIsLocal(s, actions[0], guess, limit);
      RunKeepsCount(Next(s, actions[0], guess), actions[1..], guess, limit);
    }
  }

  /** After every run, whatever may be chosen has the least explicit virtual finish of all
      requests at the head of a queue, although no queue keeps more than virtualStart. */
  lemma {:induction false} ChoiceHasLeastChainedFinish(n: nat, actions: seq<Action>, c: nat, i: nat,
                                                       guess: real, limit: nat)
    requires IsRun(Initial(n), actions, guess, limit)
    requires Enabled(Run(Initial(n), actions, guess, limit), Choose(c), guess, limit)
    requires Waits(Run(Initial(n), actions, guess, limit).queues, i)
    ensures c < n && i < n && Waits(Run(Initial(n), actions, guess, limit).queues, c)
    ensures ChainedFinish(n, actions, c, guess, limit) <= ChainedFinish(n, actions, i, guess, limit)
    ensures var seats := Occupied(Run(Initial(n), actions, guess, limit).queues); seats == 0 || seats < limit
  {
    var s := Run(Initial(n), actions, guess, limit);
    RunKeepsCount(Initial(n), actions, guess, limit);
    PickIsLeast(s.queues, s.last, guess, c, i);
    NextFinishIsChained(n, actions, c, guess, limit);
    NextFinishIsChained(n, actions, i, guess, limit);
  }

  // ----- nothing overtakes the chosen request -----

  /** Request r, at the head of queue i, has been chosen. */
  ghost predicate Chosen(s: Scheduler, i: nat, r: Request) {
    s.chosen == Some(i) && Waits(s.queues, i) && s.queues[i].waiting[0] == r
  }

  /** Nothing executes now that did not execute before. */
  ghost predicate OnlyFewer(s: Scheduler, s': Scheduler) {
    |s.queues| == |s'.queues| &&
    forall i, r :: 0 <= i < |s.queues| && r in s'.queues[i].executing ==> r in s.queues[i].executing
  }

  lemma HeadStays(s: Scheduler, a: Action, i: nat, r: Request, guess: real, limit: nat)
    requires Enabled(s, a, guess, limit) && Chosen(s, i, r) && !a.Start? && a != Expel(i, r.j)
    ensures Applicable(s, a) && Chosen(Next(s, a, guess), i, r) && OnlyFewer(s, Next(s, a, guess))
  {
    EnabledIsLocal(s, a, guess, limit);
    if a.Expel? && a.i == i {
      assert Find(s.queues[i].waiting, a.j) != 0;
    }
  }

  /** The chosen request is the next to start. */
  lemma StartsTheChosen(s: Scheduler, i: nat, r: Request, guess: real, limit: nat)
    requires Chosen(s, i, r) && Enabled(s, Start, guess, limit)
    ensures Begins(s, Next(s, Start, guess), i, r)
  {
  }

  /** Between the two states request r began to execute, and nothing else changed queues. */
  ghost predicate Begins(s: Scheduler, s': Scheduler, i: nat, r: Request) {
    && i < |s.queues| == |s'.queues|
    && s'.queues[i].executing == s.queues[i].executing + [r]
    && s.queues[i].waiting == [r] + s'.queues[i].waiting
    && forall k :: 0 <= k < |s.queues| && k != i ==> s'.queues[k] == s.queues[k]
  }

  lemma {:induction false} ConsRun(s: Scheduler, a: Action, rest: seq<Action>, guess: real, limit: nat)
    requires Enabled(s, a, guess, limit) && Applicable(s, a) && IsRun(Next(s, a, guess), rest, guess, limit)
    ensures IsRun(s, [a] + rest, guess, limit)
    ensures Run(s, [a] + rest, guess, limit) == Run(Next(s, a, guess), rest, guess, limit)
  {
    assert ([a] + rest)[1..] == rest;
  }

  /** In every run after a request is chosen, as long as it is not ejected, nothing begins to
      execute before it does: up to some point k it stays chosen and the executing requests
      only get fewer, and the action at k, if there is one, starts or ejects that very request. */
  lemma {:induction false} NoOvertaking(s: Scheduler, actions: seq<Action>, i: nat, r: Request, guess: real, limit: nat)
      returns (k: nat)
    requires IsRun(s, actions, guess, limit) && Chosen(s, i, r)
    ensures k <= |actions| && IsRun(s, actions[..k], guess, limit)
    ensures var s' := Run(s, actions[..k], guess, limit); Chosen(s', i, r) && OnlyFewer(s, s')
    ensures k < |actions| ==> actions[k] in {Start, Expel(i, r.j)} && IsRun(s, actions[..k + 1], guess, limit)
    ensures k < |actions| && actions[k] == Start ==>
      Begins(Run(s, actions[..k], guess, limit), Run(s, actions[..k + 1], guess, limit), i, r)
    decreases |actions|
  {
    if actions == [] {
      k := 0;
    } else if actions[0] == Start || actions[0] == Expel(i, r.j) {
      k := 0;
      EnabledIsLocal(s, actions[0], guess, limit);
      ConsRun(s, actions[0], [], guess, limit);
      assert actions[..1] == [actions[0]] + [];
      if actions[0] == Start {
        StartsTheChosen(s, i, r, guess, limit);
      }
    } else {
      var a, rest := actions[0], actions[1..];
      HeadStays(s, a, i, r, guess, limit);
      var k' := NoOvertaking(Next(s, a, guess), rest, i, r, guess, limit);
      k := k' + 1;
      ConsRun(s, a, rest[..k'], guess, limit);
      assert actions[..k] == [a] + rest[..k'];
      if k < |actions| {
        ConsRun(s, a, rest[..k' + 1], guess, limit);
        assert actions[..k + 1] == [a] + rest[..k' + 1];
      }
    }
  }

  // ----- and it does start -----

  lemma {:induction false} SomeoneRuns(queues: seq<Queue>) returns (i: nat)
    requires Running(queues) > 0
    ensures i < |queues| && queues[i].executing != []
  {
    if queues[0].executing != [] {
      i := 0;
    } else {
      i := SomeoneRuns(queues[1..]);
      i := i + 1;
    }
  }

  /** A chosen request never deadlocks: once the executing requests complete, it starts. */
  lemma {:induction false} ChosenCanStart(s: Scheduler, i: nat, r: Request, guess: real,
                                          limit: nat) returns (actions: seq<Action>)
    requires Chosen(s, i, r)
    ensures forall k :: 0 <= k < |actions| ==> actions[k].Complete?
    ensures IsRun(s, actions, guess, limit)
    ensures Chosen(Run(s, actions, guess, limit), i, r) && Enabled(Run(s, actions, guess, limit), Start, guess, limit)
    decreases Running(s.queues)
  {
    if Running(s.queues) == 0 {
      NoneRunningThen(s.queues);
      actions := [];
    } else {
      var k := SomeoneRuns(s.queues);
      var q := s.queues[k];
      var a := Complete(k, q.executing[0].j, 0.0);
      HeadStays(s, a, i, r, guess, limit);
      Replace(s.queues, k, Step(q, Finish(a.j, a.actual), guess));
      var rest := ChosenCanStart(Next(s, a, guess), i, r, guess, limit);
      actions := [a] + rest;
      assert actions[1..] == rest;
    }
  }

  // ----- seats are not wasted -----

  lemma {:induction false} PickExists(queues: seq<Queue>, last: nat, guess: real, m: nat, p: nat) returns (k: nat)
    requires p < m <= |queues| && Waits(queues, Turn(last, p, |queues|))
    ensures LeastInTurn(queues, last, guess, k, m)
    decreases m
  {
    var n := |queues|;
    if q: nat :| q < m - 1 && Waits(queues, Turn(last, q, n)) {
      k := PickExists(queues, last, guess, m - 1, q);
      var i := Turn(last, m - 1, n);
      if Waits(queues, i) && NextFinish(queues, i, guess) < NextFinish(queues, Turn(last, k, n), guess) {
        k := m - 1;
      }
    } else {
      k := p;
    }
  }

  /** Nothing can be chosen or started. */
  ghost predicate Quiet(s: Scheduler, guess: real, limit: nat) {
    !Enabled(s, Start, guess, limit) && forall c :: !Enabled(s, Choose(c), guess, limit)
  }

  /** A queue strictly ahead of all others is picked, wherever the round robin stands. */
  lemma StrictlyAhead(queues: seq<Queue>, last: nat, guess: real, c: nat)
    requires Waits(queues, c)
    requires forall i: nat :: i != c && Waits(queues, i) ==> NextFinish(queues, c, guess) < NextFinish(queues, i, guess)
    ensures IsPick(queues, last, guess, c)
  {
    var n := |queues|;
    var p := TurnOf(last, c, n);
    var k := PickExists(queues, last, guess, n, p);
    assert NextFinish(queues, Turn(last, k, n), guess) <= NextFinish(queues, Turn(last, p, n), guess);
  }

  /** When the scheduler holds requests back, fewer seats are free than the widest one needs;
      with requests of one seat each, none is free. */
  lemma SeatsNotWasted(s: Scheduler, i: nat, widest: nat, guess: real, limit: nat)
    requires Inv(s, limit) && Quiet(s, guess, limit) && Waits(s.queues, i)
    requires forall k, p :: 0 <= k < |s.queues| && 0 <= p < |s.queues[k].waiting| ==>
      s.queues[k].waiting[p].width <= widest
    ensures 0 < Occupied(s.queues) && limit < Occupied(s.queues) + widest
  {
    if s.chosen.None? {
      var p := TurnOf(s.last, i, |s.queues|);
      var k := PickExists(s.queues, s.last, guess, |s.queues|, p);
      assert !Enabled(s, Choose(Turn(s.last, k, |s.queues|)), guess, limit);
      assert s.queues[i].waiting[0].width <= widest;
    } else {
      assert s.queues[s.chosen.value].waiting[0].width <= widest;
    }
  }
}
