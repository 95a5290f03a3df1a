/** When the scheduler leaves seats idle that a waiting request could use, and a run that does. */
module IdleSeats {
  import opened Options
  import opened FairQueue
  import opened Dispatching = Scheduler

  /** The p-th waiting request of queue i could execute now without exceeding the limit, or
      alone. */
  predicate CouldExecute(queues: seq<Queue>, i: nat, p: nat, limit: nat) {
    i < |queues| && p < |queues[i].waiting| && Fits(queues, queues[i].waiting[p].width, limit)
  }

  /** The p-th waiting request of queue i needs no more seats than are free. */
  predicate FitsFreeSeats(queues: seq<Queue>, i: nat, p: nat, limit: nat) {
    && i < |queues| && p < |queues[i].waiting|
    && Occupied(queues) + queues[i].waiting[p].width <= limit
  }

  /** Whenever nothing is chosen and nothing can be, no waiting request could execute. */
  lemma {:induction false} UnchosenIsFull(s: Scheduler, i: nat, p: nat, guess: real, limit: nat)
    requires Inv(s, limit) && Quiet(s, guess, limit) && s.chosen.None?
    ensures !CouldExecute(s.queues, i, p, limit)
  {
    if i < |s.queues| && p < |s.queues[i].waiting| {
      var q := TurnOf(s.last, i, |s.queues|);
      var k := PickExists(s.queues, s.last, guess, |s.queues|, q);
      assert !Dispatching.Enabled(s, Choose(Turn(s.last, k, |s.queues|)), guess, limit);
      assert s.queues[i].waiting[p].width >= 1;
    }
  }

  /** Once nothing can be chosen or started, seats that a waiting request could use stay idle
      exactly when they are being accumulated for a chosen request and some other waiting
      request needs no more than the free ones. */
  lemma {:induction false} SeatsIdleExactlyWhen(s: Scheduler, guess: real, limit: nat)
    requires Inv(s, limit) && Quiet(s, guess, limit)
    ensures (exists i: nat, p: nat :: CouldExecute(s.queues, i, p, limit))
       <==> s.chosen.Some? && exists i: nat, p: nat :: FitsFreeSeats(s.queues, i, p, limit)
  {
    if i: nat, p: nat :| CouldExecute(s.queues, i, p, limit) {
      if s.chosen.None? {
        UnchosenIsFull(s, i, p, guess, limit);
      } else {
        assert FitsFreeSeats(s.queues, i, p, limit);
      }
    }
    if i: nat, p: nat :| FitsFreeSeats(s.queues, i, p, limit) {
      assert CouldExecute(s.queues, i, p, limit);
    }
  }

  /** So the occupancy is as high as it can be whenever no waiting request is narrower than the
      chosen one. */
  lemma {:induction false} FullUnlessNarrower(s: Scheduler, i: nat, p: nat, guess: real, limit: nat)
    requires Inv(s, limit) && Quiet(s, guess, limit)
    requires s.chosen.Some? ==> forall k: nat, q: nat :: k < |s.queues| && q < |s.queues[k].waiting| ==>
      s.queues[s.chosen.value].waiting[0].width <= s.queues[k].waiting[q].width
    ensures !CouldExecute(s.queues, i, p, limit)
  {
    if s.chosen.None? {
      UnchosenIsFull(s, i, p, guess, limit);
    }
  }

  // ----- an instance -----

  /** One step of a run that is written out. */
  ghost predicate Leads(s: Scheduler, a: Action, s': Scheduler, guess: real, limit: nat) {
    Dispatching.Enabled(s, a, guess, limit) && Applicable(s, a) && Next(s, a, guess) == s'
  }

  lemma {:induction false} OneMoreStep(s: Scheduler, a: Action, s': Scheduler, rest: seq<Action>, end: Scheduler,
                                       guess: real, limit: nat)
    requires Leads(s, a, s', guess, limit) && Reaches(s', rest, end, guess, limit)
    ensures Reaches(s, [a] + rest, end, guess, limit)
  {
    ConsRun(s, a, rest, guess, limit);
  }

  ghost predicate Reaches(s: Scheduler, actions: seq<Action>, end: Scheduler, guess: real, limit: nat) {
    Dispatching.IsRun(s, actions, guess, limit) && Dispatching.Run(s, actions, guess, limit) == end
  }

  /** Two seats are in use and one is free of three. */
  function Crowded(waiting: seq<Request>, executing: seq<Request>, chosen: Option<nat>): Scheduler {
    Scheduler([Queue(2, 0.0, waiting, executing), Queue(1, 5.0, [Request(0, 1)], [])], chosen, 0)
  }

  /** What the first queue goes through while the second waits. */
  lemma CrowdedSteps()
    ensures var r0, r1 := Request(0, 2), Request(1, 2);
      && Leads(Crowded([r0, r1], [], None), Choose(0), Crowded([r0, r1], [], Some(0)), 0.0, 3)
      && Leads(Crowded([r0, r1], [], Some(0)), Start, Crowded([r1], [r0], None), 0.0, 3)
      && Leads(Crowded([r1], [r0], None), Choose(0), Crowded([r1], [r0], Some(0)), 0.0, 3)
  {
    var r0, r1 := Request(0, 2), Request(1, 2);
    CrowdedChoice([r0, r1], []);
    CrowdedChoice([r1], [r0]);
    ZeroDuration(2, 0.0);
    assert [r0, r1][1..] == [r1] && [r1][1..] == [] && [r0][1..] == [];
    var s := Crowded([r0, r1], [], Some(0));
    var q := s.queues[0];
    assert Step(q, Dispatch, 0.0) == Queue(2, 0.0, [r1], [r0]);
    assert s.queues[0 := Queue(2, 0.0, [r1], [r0])] == Crowded([r1], [r0], None).queues;
    CrowdedSeats([r0, r1], []);
    CrowdedSeats([r1], [r0]);
  }

  lemma {:induction false} CrowdedSeats(waiting: seq<Request>, executing: seq<Request>)
    ensures Occupied(Crowded(waiting, executing, None).queues) == Widths(executing)
  {
    var queues := Crowded(waiting, executing, None).queues;
    assert queues[1..] == [queues[1]];
    assert [queues[1]][1..] == [];
    assert Occupied(queues) == Widths(executing) + Occupied([queues[1]]);
    assert Occupied([queues[1]]) == Widths([]) + Occupied([]);
  }

  lemma {:induction false} CrowdedChoice(waiting: seq<Request>, executing: seq<Request>)
    requires waiting != []
    ensures IsPick(Crowded(waiting, executing, None).queues, 0, 0.0, 0)
  {
    var queues := Crowded(waiting, executing, None).queues;
    ZeroDuration(Widths(waiting[..1]), 0.0);
    ZeroDuration(Widths([Request(0, 1)][..1]), 0.0);
    StrictlyAhead(queues, 0, 0.0, 0);
  }

  /** The lead-in: three arrivals. */
  lemma CrowdedArrivals()
    ensures var s1 := Scheduler([Queue(1, 0.0, [Request(0, 2)], []), EMPTY], None, 0);
      var s2 := Scheduler([Queue(2, 0.0, [Request(0, 2), Request(1, 2)], []), EMPTY], None, 0);
      && Leads(Initial(2), Add(0, 2, 0.0), s1, 0.0, 3) && Leads(s1, Add(0, 2, 0.0), s2, 0.0, 3)
      && Leads(s2, Add(1, 1, 5.0), Crowded([Request(0, 2), Request(1, 2)], [], None), 0.0, 3)
  {
    assert Initial(2).queues == [EMPTY, EMPTY];
    var q1, q2 := Queue(1, 0.0, [Request(0, 2)], []), Queue(2, 0.0, [Request(0, 2), Request(1, 2)], []);
    assert Step(EMPTY, Arrive(2, 0.0), 0.0) == q1;
    assert [Request(0, 2)] + [Request(1, 2)] == [Request(0, 2), Request(1, 2)];
    assert Step(q1, Arrive(2, 0.0), 0.0) == q2;
    assert [EMPTY, EMPTY][0 := q1] == [q1, EMPTY] && [q1, EMPTY][0 := q2] == [q2, EMPTY];
    assert Step(EMPTY, Arrive(1, 5.0), 0.0) == Queue(1, 5.0, [Request(0, 1)], []);
  }

  /** Some run of n queues ends in s. */
  ghost predicate Reachable(n: nat, s: Scheduler, guess: real, limit: nat) {
    exists actions :: Reaches(Initial(n), actions, s, guess, limit)
  }

  lemma {:induction false} ReachedIsReachable(n: nat, actions: seq<Action>, s: Scheduler, guess: real, limit: nat)
    requires Reaches(Initial(n), actions, s, guess, limit)
    ensures Reachable(n, s, guess, limit)
  {
  }

  /** A crowded state that a run leads to. */
  lemma CrowdedIsReachable(r0: Request, r1: Request, s: Scheduler)
    requires r0 == Request(0, 2) && r1 == Request(1, 2) && s == Crowded([r1], [r0], Some(0))
    ensures Reachable(2, s, 0.0, 3)
  {
    var s1 := Scheduler([Queue(1, 0.0, [r0], []), EMPTY], None, 0);
    var s2 := Scheduler([Queue(2, 0.0, [r0, r1], []), EMPTY], None, 0);
    CrowdedArrivals();
    CrowdedSteps();
    assert Reaches(s, [], s, 0.0, 3);
    OneMoreStep(Crowded([r1], [r0], None), Choose(0), s, [], s, 0.0, 3);
    var actions := [Choose(0)] + [];
    OneMoreStep(Crowded([r0, r1], [], Some(0)), Start, Crowded([r1], [r0], None), actions, s, 0.0, 3);
    actions := [Start] + actions;
    OneMoreStep(Crowded([r0, r1], [], None), Choose(0), Crowded([r0, r1], [], Some(0)), actions, s, 0.0, 3);
    actions := [Choose(0)] + actions;
    OneMoreStep(s2, Add(1, 1, 5.0), Crowded([r0, r1], [], None), actions, s, 0.0, 3);
    actions := [Add(1, 1, 5.0)] + actions;
    OneMoreStep(s1, Add(0, 2, 0.0), s2, actions, s, 0.0, 3);
    actions := [Add(0, 2, 0.0)] + actions;
    OneMoreStep(Initial(2), Add(0, 2, 0.0), s1, actions, s, 0.0, 3);
    ReachedIsReachable(2, [Add(0, 2, 0.0)] + actions, s, 0.0, 3);
  }

  /** With three seats, a run leads to this: a two-seat request is executing, another one has been
      chosen, and the third seat stays idle although a one-seat request is waiting in the other
      queue. */
  lemma SeatsCanIdle(s: Scheduler)
    requires s == Crowded([Request(1, 2)], [Request(0, 2)], Some(0))
    ensures Reachable(2, s, 0.0, 3) && Quiet(s, 0.0, 3)
    ensures CouldExecute(s.queues, 1, 0, 3) && Occupied(s.queues) == 2
  {
    CrowdedIsReachable(Request(0, 2), Request(1, 2), s);
    CrowdedSeats([Request(1, 2)], [Request(0, 2)]);
    assert [Request(0, 2)][1..] == [];
  }
}
