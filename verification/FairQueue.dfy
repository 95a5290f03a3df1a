/** The bookkeeping of one queue: a single `virtualStart` stands in for the virtual start and
    finish of every request, and is proved to agree with writing all of those out. */
module FairQueue {
  import opened Sequences

  /** The j-th request to go into its queue, and the seats it occupies. */
  datatype Request = Request(j: nat, width: nat)

  /** What the implementation keeps. */
  datatype Queue = Queue(next: nat, virtualStart: real, waiting: seq<Request>, executing: seq<Request>)

  /** What happens to a queue; `now` is the progress meter R, `actual` the duration learned
      at the end of a request, extra latency included. */
  datatype Event =
    | Arrive(width: nat, now: real)
    | Dispatch
    | Finish(j: nat, actual: real)
    | Eject(j: nat)

  const EMPTY := Queue(0, 0.0, [], [])

  // ----- requests in a list -----

  /** The position of request j, or the length if it is not there. */
  function Find(s: seq<Request>, j: nat): (i: nat)
    ensures i <= |s| && (i < |s| ==> s[i].j == j)
  {
    if s == [] then 0
    else if s[0].j == j then 0
    else 1 + Find(s[1..], j)
  }

  predicate Has(s: seq<Request>, j: nat) {
    Find(s, j) < |s|
  }

  function Widths(s: seq<Request>): nat {
    if s == [] then 0 else s[0].width + Widths(s[1..])
  }

  lemma {:induction false} WidthsConcat(a: seq<Request>, b: seq<Request>)
    ensures Widths(a + b) == Widths(a) + Widths(b)
  {
    if a == [] {
      assert a + b == b;
    } else {
      assert (a + b)[1..] == a[1..] + b;
      WidthsConcat(a[1..], b);
    }
  }

  lemma {:induction false} WidthsAppend(s: seq<Request>, r: Request)
    ensures Widths(s + [r]) == Widths(s) + r.width
  {
    WidthsConcat(s, [r]);
    assert [r][1..] == [];
  }

  lemma {:induction false} WidthsRemove(s: seq<Request>, i: nat)
    requires i < |s|
    ensures Widths(s) == Widths(RemoveAt(s, i)) + s[i].width
  {
    if i == 0 {
      assert RemoveAt(s, 0) == s[1..];
    } else {
      WidthsRemove(s[1..], i - 1);
      assert RemoveAt(s, i) == [s[0]] + RemoveAt(s[1..], i - 1);
    }
  }

  // ----- one step of the implementation -----

  predicate Idle(q: Queue) {
    q.waiting == [] && q.executing == []
  }

  predicate Enabled(q: Queue, e: Event) {
    match e
    case Arrive(_, _) => true
    case Dispatch => q.waiting != []
    case Finish(j, _) => Has(q.executing, j)
    case Eject(j) => Has(q.waiting, j)
  }

  /** The effect of an event, given the guess for the duration of every request. */
  function Step(q: Queue, e: Event, guess: real): Queue
    requires Enabled(q, e)
  {
    match e
    case Arrive(width, now) =>
      Queue(q.next + 1, if Idle(q) then now else q.virtualStart, q.waiting + [Request(q.next, width)], q.executing)
    case Dispatch =>
      var r := q.waiting[0];
      Queue(q.next, q.virtualStart + Work(r.width, guess), q.waiting[1..], q.executing + [r])
    case Finish(j, actual) =>
      var i := Find(q.executing, j);
      Queue(q.next, q.virtualStart + Work(q.executing[i].width, actual - guess), q.waiting, RemoveAt(q.executing, i))
    case Eject(j) =>
      q.(waiting := RemoveAt(q.waiting, Find(q.waiting, j)))
  }

  /** Seats times duration. */
  function Work(width: nat, duration: real): real {
    width as real * duration
  }

  /** The work of several requests of the same duration. */
  function WorkOf(s: seq<Request>, duration: real): real {
    Work(Widths(s), duration)
  }

  /** The virtual finish the implementation computes for the k-th waiting request. */
  function ComputedFinish(q: Queue, k: nat, guess: real): real
    requires k < |q.waiting|
  {
    q.virtualStart + WorkOf(q.waiting[..k + 1], guess)
  }

  lemma WorkAdd(a: nat, b: nat, d: real)
    ensures Work(a + b, d) == Work(a, d) + Work(b, d)
  {
    assert (a + b) as real == a as real + b as real;
  }

  // ----- runs -----

  predicate IsRun(q: Queue, events: seq<Event>, guess: real)
    decreases |events|
  {
    events == [] || (Enabled(q, events[0]) && IsRun(Step(q, events[0], guess), events[1..], guess))
  }

  function Run(q: Queue, events: seq<Event>, guess: real): Queue
    requires IsRun(q, events, guess)
    decreases |events|
  {
    if events == [] then q else Run(Step(q, events[0], guess), events[1..], guess)
  }

  // ----- the explicit account -----

  /** A request that has been dispatched, with what is known of its duration. */
  datatype Served = Served(request: Request, len: real, done: bool)

  /** A busy period written out: the progress meter at its start, every request dispatched
      in it so far, in order, and those still waiting. */
  datatype Account = Account(next: nat, start: real, served: seq<Served>, waiting: seq<Request>)

  function Undone(s: seq<Served>): seq<Request> {
    if s == [] then []
    else (if s[0].done then [] else [s[0].request]) + Undone(s[1..])
  }

  /** The position of the executing request j, or the length if there is none. */
  function FindUndone(s: seq<Served>, j: nat): (i: nat)
    ensures i <= |s| && (i < |s| ==> !s[i].done && s[i].request.j == j)
  {
    if s == [] then 0
    else if !s[0].done && s[0].request.j == j then 0
    else 1 + FindUndone(s[1..], j)
  }

  predicate AccountEnabled(a: Account, e: Event) {
    match e
    case Arrive(_, _) => true
    case Dispatch => a.waiting != []
    case Finish(j, _) => FindUndone(a.served, j) < |a.served|
    case Eject(j) => Has(a.waiting, j)
  }

  function AccountStep(a: Account, e: Event, guess: real): Account
    requires AccountEnabled(a, e)
  {
    match e
    case Arrive(width, now) =>
      var r := Request(a.next, width);
      if a.waiting == [] && Undone(a.served) == []
      then Account(a.next + 1, now, [], [r])
      else Account(a.next + 1, a.start, a.served, a.waiting + [r])
    case Dispatch =>
      Account(a.next, a.start, a.served + [Served(a.waiting[0], guess, false)], a.waiting[1..])
    case Finish(j, actual) =>
      var i := FindUndone(a.served, j);
      a.(served := MarkDone(a.served, i, actual))
    case Eject(j) =>
      a.(waiting := RemoveAt(a.waiting, Find(a.waiting, j)))
  }

  /** Every request of the busy period in order, those waiting with the guessed duration. */
  function Schedule(a: Account, guess: real): seq<Served> {
    a.served + seq(|a.waiting|, i requires 0 <= i < |a.waiting| => Served(a.waiting[i], guess, false))
  }

  /** r_dispatch_virtual of the k-th request: the start of the busy period, or the finish of
      the request before. */
  function RDispatch(start: real, s: seq<Served>, k: nat): real
    requires k <= |s|
    decreases k, 0
  {
    if k == 0 then start else RFinish(start, s, k - 1)
  }

  /** r_finish_virtual = r_dispatch_virtual + len * width. */
  function RFinish(start: real, s: seq<Served>, k: nat): real
    requires k < |s|
    decreases k, 1
  {
    RDispatch(start, s, k) + Work(s[k].request.width, s[k].len)
  }

  /** Each request is dispatched at the finish of the one before, the first at the start of the busy
      period, and finishes width times length later. */
  lemma FinishIsChained(start: real, s: seq<Served>, k: nat)
    requires k < |s|
    ensures RFinish(start, s, k) == RDispatch(start, s, k) + s[k].request.width as real * s[k].len
    ensures RDispatch(start, s, 0) == start && RDispatch(start, s, k + 1) == RFinish(start, s, k)
  {
  }

  function TotalWork(s: seq<Served>): real {
    if s == [] then 0.0 else Work(s[0].request.width, s[0].len) + TotalWork(s[1..])
  }

  lemma {:induction false} TotalWorkConcat(a: seq<Served>, b: seq<Served>)
    ensures TotalWork(a + b) == TotalWork(a) + TotalWork(b)
  {
    if a == [] {
      assert a + b == b;
    } else {
      assert (a + b)[1..] == a[1..] + b;
      TotalWorkConcat(a[1..], b);
    }
  }

  lemma TotalWorkOne(x: Served)
    ensures TotalWork([x]) == Work(x.request.width, x.len)
  {
    assert [x][1..] == [];
  }

  /** Chaining finishes adds up the work. */
  lemma {:induction false} ChainIsTotal(start: real, s: seq<Served>, k: nat)
    requires k <= |s|
    ensures RDispatch(start, s, k) == start + TotalWork(s[..k])
    decreases k
  {
    if k > 0 {
      ChainIsTotal(start, s, k - 1);
      assert s[..k] == s[..k - 1] + [s[k - 1]];
      TotalWorkConcat(s[..k - 1], [s[k - 1]]);
      TotalWorkOne(s[k - 1]);
    }
  }

  lemma {:induction false} TotalWorkUpdate(s: seq<Served>, i: nat, x: Served)
    requires i < |s|
    ensures TotalWork(s[i := x]) == TotalWork(s) - Work(s[i].request.width, s[i].len) + Work(x.request.width, x.len)
  {
    if i == 0 {
      assert s[0 := x][1..] == s[1..];
    } else {
      assert s[i := x][1..] == s[1..][i - 1 := x];
      TotalWorkUpdate(s[1..], i - 1, x);
    }
  }

  // ----- refinement -----

  ghost predicate Guessed(s: seq<Served>, guess: real) {
    forall i :: 0 <= i < |s| && !s[i].done ==> s[i].len == guess
  }

  /** The compact state agrees with the account. */
  ghost predicate Refines(q: Queue, a: Account, guess: real) {
    && q.next == a.next && q.waiting == a.waiting && q.executing == Undone(a.served)
    && Guessed(a.served, guess)
    && q.virtualStart == a.start + TotalWork(a.served)
  }

  lemma {:induction false} UndoneConcat(a: seq<Served>, b: seq<Served>)
    ensures Undone(a + b) == Undone(a) + Undone(b)
  {
    if a == [] {
      assert a + b == b;
    } else {
      assert (a + b)[1..] == a[1..] + b;
      UndoneConcat(a[1..], b);
    }
  }

  lemma {:induction false} UndoneAppend(s: seq<Served>, x: Served)
    requires !x.done
    ensures Undone(s + [x]) == Undone(s) + [x.request]
  {
    UndoneConcat(s, [x]);
    assert [x][1..] == [];
  }

  function MarkDone(s: seq<Served>, i: nat, actual: real): seq<Served>
    requires i < |s|
  {
    s[i := Served(s[i].request, actual, true)]
  }

  lemma {:induction false} MarkFirst(s: seq<Served>, actual: real)
    requires s != [] && !s[0].done
    ensures Undone(MarkDone(s, 0, actual)) == Undone(s)[1..] && Undone(s)[0] == s[0].request
  {
    assert MarkDone(s, 0, actual)[1..] == s[1..];
  }

  lemma MarkLater(s: seq<Served>, i: nat, actual: real)
    requires 0 < i < |s|
    ensures Undone(MarkDone(s, i, actual))
         == (if s[0].done then [] else [s[0].request]) + Undone(MarkDone(s[1..], i - 1, actual))
  {
    assert MarkDone(s, i, actual)[1..] == MarkDone(s[1..], i - 1, actual);
  }

  lemma {:induction false} FindCons(r: Request, s: seq<Request>, j: nat)
    requires Has(s, j) && r.j != j
    ensures Find([r] + s, j) == 1 + Find(s, j)
    ensures RemoveAt([r] + s, 1 + Find(s, j)) == [r] + RemoveAt(s, Find(s, j))
  {
    assert ([r] + s)[1..] == s;
  }

  lemma {:induction false} FoundInBoth(s: seq<Served>, j: nat)
    ensures Has(Undone(s), j) <==> FindUndone(s, j) < |s|
  {
    if s != [] {
      FoundInBoth(s[1..], j);
      if !s[0].done {
        assert Undone(s)[1..] == Undone(s[1..]);
      } else {
        assert Undone(s) == Undone(s[1..]);
      }
    }
  }

  /** Marking request j as done takes it out of the executing requests. */
  lemma {:induction false} UndoneFinish(s: seq<Served>, j: nat, actual: real)
    requires FindUndone(s, j) < |s|
    ensures Has(Undone(s), j)
    ensures Undone(s)[Find(Undone(s), j)] == s[FindUndone(s, j)].request
    ensures Undone(MarkDone(s, FindUndone(s, j), actual)) == RemoveAt(Undone(s), Find(Undone(s), j))
  {
    FoundInBoth(s, j);
    if !s[0].done && s[0].request.j == j {
      MarkFirst(s, actual);
    } else {
      UndoneFinish(s[1..], j, actual);
      MarkLater(s, FindUndone(s, j), actual);
      if !s[0].done {
        FindCons(s[0].request, Undone(s[1..]), j);
      } else {
        assert Undone(s) == Undone(s[1..]);
      }
    }
  }

  lemma DispatchRefines(q: Queue, a: Account, guess: real)
    requires Refines(q, a, guess) && q.waiting != []
    ensures Refines(Step(q, Dispatch, guess), AccountStep(a, Dispatch, guess), guess)
  {
    var x := Served(a.waiting[0], guess, false);
    UndoneAppend(a.served, x);
    TotalWorkConcat(a.served, [x]);
    TotalWorkOne(x);
  }

  lemma FinishRefines(q: Queue, a: Account, j: nat, actual: real, guess: real)
    requires Refines(q, a, guess) && Has(q.executing, j)
    ensures AccountEnabled(a, Finish(j, actual))
    ensures Refines(Step(q, Finish(j, actual), guess), AccountStep(a, Finish(j, actual), guess), guess)
  {
    FoundInBoth(a.served, j);
    UndoneFinish(a.served, j, actual);
    FinishWork(a.served, FindUndone(a.served, j), actual, guess);
  }

  lemma {:induction false} FinishWork(s: seq<Served>, i: nat, actual: real, guess: real)
    requires i < |s| && s[i].len == guess
    ensures TotalWork(MarkDone(s, i, actual)) == TotalWork(s) + Work(s[i].request.width, actual - guess)
  {
    TotalWorkUpdate(s, i, Served(s[i].request, actual, true));
    Correction(s[i].request.width, actual, guess, s[i].len);
  }

  lemma Correction(w: nat, actual: real, guess: real, len: real)
    requires len == guess
    ensures Work(w, actual - guess) == Work(w, actual) - Work(w, len)
  {
  }

  /** Every step keeps the compact state in agreement with the account. */
  lemma StepRefines(q: Queue, a: Account, e: Event, guess: real)
    requires Refines(q, a, guess) && Enabled(q, e)
    ensures AccountEnabled(a, e) && Refines(Step(q, e, guess), AccountStep(a, e, guess), guess)
  {
    match e
    case Arrive(_, _) =>
    case Dispatch => DispatchRefines(q, a, guess);
    case Finish(j, actual) => FinishRefines(q, a, j, actual, guess);
    case Eject(_) =>
  }

  ghost predicate IsAccountRun(a: Account, events: seq<Event>, guess: real)
    decreases |events|
  {
    events == [] || (AccountEnabled(a, events[0]) && IsAccountRun(AccountStep(a, events[0], guess), events[1..], guess))
  }

  ghost function AccountRun(a: Account, events: seq<Event>, guess: real): Account
    requires IsAccountRun(a, events, guess)
    decreases |events|
  {
    if events == [] then a else AccountRun(AccountStep(a, events[0], guess), events[1..], guess)
  }

  /** Whatever happens, the compact state agrees with the account. */
  lemma {:induction false} RunRefines(q: Queue, a: Account, events: seq<Event>, guess: real)
    requires Refines(q, a, guess) && IsRun(q, events, guess)
    ensures IsAccountRun(a, events, guess)
    ensures Refines(Run(q, events, guess), AccountRun(a, events, guess), guess)
    decreases |events|
  {
    if events != [] {
      StepRefines(q, a, events[0], guess);
      RunRefines(Step(q, events[0], guess), AccountStep(a, events[0], guess), events[1..], guess);
    }
  }

  /** The work of the requests of the busy period that have finished. */
  function DoneWork(s: seq<Served>): real {
    if s == [] then 0.0
    else (if s[0].done then Work(s[0].request.width, s[0].len) else 0.0) + DoneWork(s[1..])
  }

  lemma {:induction false} WorkSplit(s: seq<Served>, guess: real)
    requires Guessed(s, guess)
    ensures TotalWork(s) == DoneWork(s) + WorkOf(Undone(s), guess)
  {
    if s == [] {
      NoWork(0, guess);
    } else {
      assert forall i :: 0 <= i < |s[1..]| ==> s[1..][i] == s[i + 1];
      WorkSplit(s[1..], guess);
      if !s[0].done {
        assert Undone(s)[1..] == Undone(s[1..]);
        WorkAdd(s[0].request.width, Widths(Undone(s[1..])), guess);
        assert s[0].len == guess;
      } else {
        assert Undone(s) == Undone(s[1..]);
      }
    }
  }

  lemma NoWork(w: nat, d: real)
    requires w == 0
    ensures Work(w, d) == 0.0
  {
  }

  /** virtualStart, after every run: R at the start of the busy period, plus seats times
      actual duration for every finished request, plus seats times the guess for every
      executing one. */
  lemma {:induction false} VirtualStartAfterRun(events: seq<Event>, guess: real)
    requires IsRun(EMPTY, events, guess)
    ensures IsAccountRun(Account(0, 0.0, [], []), events, guess)
    ensures var q, a := Run(EMPTY, events, guess), AccountRun(Account(0, 0.0, [], []), events, guess);
      q.virtualStart == a.start + DoneWork(a.served) + WorkOf(q.executing, guess)
  {
    var a0 := Account(0, 0.0, [], []);
    RunRefines(EMPTY, a0, events, guess);
    WorkSplit(AccountRun(a0, events, guess).served, guess);
  }

  lemma {:induction false} WaitingWork(waiting: seq<Request>, guess: real, s: seq<Served>)
    requires |s| == |waiting| && forall i :: 0 <= i < |s| ==> s[i] == Served(waiting[i], guess, false)
    ensures TotalWork(s) == WorkOf(waiting, guess)
    decreases |s|
  {
    if s == [] {
      NoWork(0, guess);
    } else {
      assert forall i :: 0 <= i < |s[1..]| ==> s[1..][i] == s[i + 1] && waiting[1..][i] == waiting[i + 1];
      WaitingWork(waiting[1..], guess, s[1..]);
      WorkAdd(waiting[0].width, Widths(waiting[1..]), guess);
    }
  }

  /** The finish computed from virtualStart and the position in the queue is the finish that
      chaining all requests of the busy period gives. */
  lemma {:induction false} ComputedFinishIsChained(q: Queue, a: Account, k: nat, guess: real)
    requires Refines(q, a, guess) && k < |q.waiting|
    ensures ComputedFinish(q, k, guess) == RFinish(a.start, Schedule(a, guess), |a.served| + k)
  {
    var all, n := Schedule(a, guess), |a.served|;
    ChainIsTotal(a.start, all, n + k + 1);
    var ahead := all[n..n + k + 1];
    assert all[..n + k + 1] == a.served + ahead;
    TotalWorkConcat(a.served, ahead);
    WaitingWork(q.waiting[..k + 1], guess, ahead);
  }

  /** ... at every point of every run. */
  lemma {:induction false} FinishAfterRun(events: seq<Event>, k: nat, guess: real)
    requires IsRun(EMPTY, events, guess) && k < |Run(EMPTY, events, guess).waiting|
    ensures IsAccountRun(Account(0, 0.0, [], []), events, guess)
    ensures var q, a := Run(EMPTY, events, guess), AccountRun(Account(0, 0.0, [], []), events, guess);
      q.waiting == a.waiting
      && ComputedFinish(q, k, guess) == RFinish(a.start, Schedule(a, guess), |a.served| + k)
  {
    var a0 := Account(0, 0.0, [], []);
    RunRefines(EMPTY, a0, events, guess);
    ComputedFinishIsChained(Run(EMPTY, events, guess), AccountRun(a0, events, guess), k, guess);
  }

  // ----- the queue as the program keeps it -----

  /** A queue updated in place. */
  class LiveQueue {
    const guess: real
    var next: nat
    var virtualStart: real
    var waiting: seq<Request>
    var executing: seq<Request>

    function State(): Queue
      reads this
    {
      Queue(next, virtualStart, waiting, executing)
    }

    constructor (guess: real)
      ensures State() == EMPTY && this.guess == guess
    {
      this.guess := guess;
      next, virtualStart, waiting, executing := 0, 0.0, [], [];
    }

    method Arrive(width: nat, now: real) returns (r: Request)
      modifies this
      ensures State() == Step(old(State()), Event.Arrive(width, now), guess)
      ensures r == Request(old(next), width)
    {
      if waiting == [] && executing == [] {
        virtualStart := now;
      }
      r := Request(next, width);
      waiting := waiting + [r];
      next := next + 1;
    }

    method Dispatch() returns (r: Request)
      requires waiting != []
      modifies this
      ensures State() == Step(old(State()), Event.Dispatch, guess)
      ensures r == old(waiting)[0]
    {
      r := waiting[0];
      waiting := waiting[1..];
      executing := executing + [r];
      virtualStart := virtualStart + Work(r.width, guess);
    }

    method Finish(j: nat, actual: real)
      requires Has(executing, j)
      modifies this
      ensures State() == Step(old(State()), Event.Finish(j, actual), guess)
    {
      var i := Find(executing, j);
      virtualStart := virtualStart + Work(executing[i].width, actual - guess);
      executing := RemoveAt(executing, i);
    }

    method Eject(j: nat)
      requires Has(waiting, j)
      modifies this
      ensures State() == Step(old(State()), Event.Eject(j), guess)
    {
      waiting := RemoveAt(waiting, Find(waiting, j));
    }
  }

  // ----- what the guess changes -----

  /** The same queue under a guess and under the guess zero. */
  ghost predicate Shifted(q: Queue, q0: Queue, guess: real) {
    && q.next == q0.next && q.waiting == q0.waiting && q.executing == q0.executing
    && q.virtualStart == q0.virtualStart + WorkOf(q0.executing, guess)
  }

  lemma ShiftedDispatch(q: Queue, q0: Queue, guess: real)
    requires Shifted(q, q0, guess) && q0.waiting != []
    ensures Shifted(Step(q, Dispatch, guess), Step(q0, Dispatch, 0.0), guess)
  {
    var r := q0.waiting[0];
    WidthsAppend(q0.executing, r);
    WorkAdd(Widths(q0.executing), r.width, guess);
    ZeroDuration(r.width, 0.0);
  }

  lemma ZeroDuration(w: nat, d: real)
    requires d == 0.0
    ensures Work(w, d) == 0.0
  {
  }

  lemma ShiftedFinish(q: Queue, q0: Queue, j: nat, actual: real, guess: real)
    requires Shifted(q, q0, guess) && Has(q0.executing, j)
    ensures Shifted(Step(q, Finish(j, actual), guess), Step(q0, Finish(j, actual), 0.0), guess)
  {
    var i := Find(q0.executing, j);
    var w := q0.executing[i].width;
    WidthsRemove(q0.executing, i);
    WorkAdd(Widths(RemoveAt(q0.executing, i)), w, guess);
    Correction(w, actual, guess, guess);
    Correction(w, actual, 0.0, 0.0);
    ZeroDuration(w, 0.0);
  }

  lemma ShiftedStep(q: Queue, q0: Queue, e: Event, guess: real)
    requires Shifted(q, q0, guess) && Enabled(q0, e)
    ensures Enabled(q, e) && Shifted(Step(q, e, guess), Step(q0, e, 0.0), guess)
  {
    match e
    case Arrive(_, _) => NoWork(0, guess);
    case Dispatch => ShiftedDispatch(q, q0, guess);
    case Finish(j, actual) => ShiftedFinish(q, q0, j, actual, guess);
    case Eject(_) =>
  }

  /** Through any run, the guess shifts virtualStart by the guessed work still executing,
      and changes nothing else. */
  lemma {:induction false} ShiftedRun(q: Queue, q0: Queue, events: seq<Event>, guess: real)
    requires Shifted(q, q0, guess) && IsRun(q0, events, 0.0)
    ensures IsRun(q, events, guess) && Shifted(Run(q, events, guess), Run(q0, events, 0.0), guess)
    decreases |events|
  {
    if events != [] {
      ShiftedStep(q, q0, events[0], guess);
      ShiftedRun(Step(q, events[0], guess), Step(q0, events[0], 0.0), events[1..], guess);
    }
  }

  /** The seats whose duration is still guessed when the oldest waiting request is considered. */
  function GuessedSeats(q: Queue): nat
    requires q.waiting != []
  {
    Widths(q.executing) + q.waiting[0].width
  }

  lemma {:induction false} NextFinishUnderGuess(events: seq<Event>, guess: real)
    requires IsRun(EMPTY, events, 0.0) && Run(EMPTY, events, 0.0).waiting != []
    ensures IsRun(EMPTY, events, guess) && Run(EMPTY, events, guess).waiting != []
    ensures var q0 := Run(EMPTY, events, 0.0);
      ComputedFinish(Run(EMPTY, events, guess), 0, guess) == q0.virtualStart + Work(GuessedSeats(q0), guess)
  {
    NoWork(0, guess);
    ShiftedRun(EMPTY, EMPTY, events, guess);
    var q, q0 := Run(EMPTY, events, guess), Run(EMPTY, events, 0.0);
    assert q.waiting[..1] == [q.waiting[0]];
    assert [q.waiting[0]][1..] == [];
    WorkAdd(Widths(q0.executing), q0.waiting[0].width, guess);
  }

  /** Under this guess, the head of the first queue is due before the head of the second. */
  ghost predicate Precedes(first: seq<Event>, second: seq<Event>, guess: real)
    requires IsRun(EMPTY, first, 0.0) && Run(EMPTY, first, 0.0).waiting != []
    requires IsRun(EMPTY, second, 0.0) && Run(EMPTY, second, 0.0).waiting != []
  {
    NextFinishUnderGuess(first, guess);
    NextFinishUnderGuess(second, guess);
    ComputedFinish(Run(EMPTY, first, guess), 0, guess) < ComputedFinish(Run(EMPTY, second, guess), 0, guess)
  }

  /** x + m*g < y + n*g. */
  predicate Before(x: real, m: nat, y: real, n: nat, g: real) {
    x + Work(m, g) < y + Work(n, g)
  }

  /** The guess leaves the order of the two queues, ties included, as it is under guess zero. */
  ghost predicate SameOrder(first: seq<Event>, second: seq<Event>, guess: real)
    requires IsRun(EMPTY, first, 0.0) && Run(EMPTY, first, 0.0).waiting != []
    requires IsRun(EMPTY, second, 0.0) && Run(EMPTY, second, 0.0).waiting != []
  {
    && Precedes(first, second, guess) == Precedes(first, second, 0.0)
    && Precedes(second, first, guess) == Precedes(second, first, 0.0)
  }

  /** No guess changes the order of two queues exactly when the queue that is ahead on
      completed work has no more guessed seats than the other, and queues that are level
      have equally many. */
  lemma {:induction false} GuessIrrelevantExactlyWhen(first: seq<Event>, second: seq<Event>)
    requires IsRun(EMPTY, first, 0.0) && Run(EMPTY, first, 0.0).waiting != []
    requires IsRun(EMPTY, second, 0.0) && Run(EMPTY, second, 0.0).waiting != []
    ensures (forall g :: g >= 0.0 ==> SameOrder(first, second, g))
       <==> var a, b := Run(EMPTY, first, 0.0), Run(EMPTY, second, 0.0);
            && (a.virtualStart <= b.virtualStart ==> GuessedSeats(a) <= GuessedSeats(b))
            && (b.virtualStart <= a.virtualStart ==> GuessedSeats(b) <= GuessedSeats(a))
  {
    OneWayExactlyWhen(first, second);
    OneWayExactlyWhen(second, first);
    if forall g :: g >= 0.0 ==> SameOrder(first, second, g) {
      forall g | g >= 0.0
        ensures Precedes(first, second, g) == Precedes(first, second, 0.0)
        ensures Precedes(second, first, g) == Precedes(second, first, 0.0)
      {
        assert SameOrder(first, second, g);
      }
    }
  }

  lemma {:induction false} OneWayExactlyWhen(first: seq<Event>, second: seq<Event>)
    requires IsRun(EMPTY, first, 0.0) && Run(EMPTY, first, 0.0).waiting != []
    requires IsRun(EMPTY, second, 0.0) && Run(EMPTY, second, 0.0).waiting != []
    ensures (forall g :: g >= 0.0 ==> Precedes(first, second, g) == Precedes(first, second, 0.0))
       <==> var a, b := Run(EMPTY, first, 0.0), Run(EMPTY, second, 0.0);
            if a.virtualStart < b.virtualStart then GuessedSeats(a) <= GuessedSeats(b)
            else GuessedSeats(a) >= GuessedSeats(b)
  {
    var a, b := Run(EMPTY, first, 0.0), Run(EMPTY, second, 0.0);
    var x, m, y, n := a.virtualStart, GuessedSeats(a), b.virtualStart, GuessedSeats(b);
    forall g
      ensures Precedes(first, second, g) == Before(x, m, y, n, g)
    {
      NextFinishUnderGuess(first, g);
      NextFinishUnderGuess(second, g);
    }
    OrderIrrelevantExactlyWhen(x, m, y, n);
    if forall g :: g >= 0.0 ==> Precedes(first, second, g) == Precedes(first, second, 0.0) {
      forall g | g >= 0.0
        ensures Before(x, m, y, n, g) == Before(x, m, y, n, 0.0)
      {
        assert Precedes(first, second, g) == Precedes(first, second, 0.0);
      }
    }
  }

  lemma OrderIrrelevantExactlyWhen(x: real, m: nat, y: real, n: nat)
    ensures (forall g :: g >= 0.0 ==> Before(x, m, y, n, g) == Before(x, m, y, n, 0.0))
       <==> if x < y then m <= n else m >= n
  {
    ZeroDuration(m, 0.0);
    ZeroDuration(n, 0.0);
    assert Before(x, m, y, n, 0.0) == (x < y);
    if x < y && m > n {
      var g := Swap(x, m, y, n);
      assert !Before(x, m, y, n, g);
    } else if x >= y && m < n {
      var g := Overtaken(y, n, x, m);
    } else {
      forall g | g >= 0.0
        ensures Before(x, m, y, n, g) == (x < y)
      {
        if x < y { WorkMono(m, n, g); } else { WorkMono(n, m, g); }
      }
    }
  }

  /** The guess at which a queue that is ahead but guesses more falls level. */
  lemma Swap(x: real, m: nat, y: real, n: nat) returns (g: real)
    requires x <= y && m > n
    ensures g >= 0.0 && x + Work(m, g) == y + Work(n, g)
  {
    var d := (m - n) as real;
    g := (y - x) / d;
    assert d * g == y - x;
    WorkAdd(m - n, n, g);
  }

  /** Some guess puts a queue behind one that has fewer guessed seats. */
  lemma Overtaken(x: real, m: nat, y: real, n: nat) returns (g: real)
    requires x <= y && m > n
    ensures g >= 0.0 && Before(y, n, x, m, g)
  {
    g := Swap(x, m, y, n);
    WorkMore(n, m, g);
    g := g + 1.0;
  }

  lemma WorkMono(m: nat, n: nat, g: real)
    requires m <= n && g >= 0.0
    ensures Work(m, g) <= Work(n, g)
  {
    WorkAdd(m, n - m, g);
  }

  lemma WorkMore(m: nat, n: nat, g: real)
    requires m < n
    ensures Work(n, g + 1.0) - Work(m, g + 1.0) > Work(n, g) - Work(m, g)
  {
    WorkAdd(m, n - m, g);
    WorkAdd(m, n - m, g + 1.0);
  }

  /** Two queues of requests that all take one seat: with guess 0 the first goes first, with
      guess 10 the second does. */
  lemma GuessCanMatter()
    ensures var first := [Arrive(1, 0.0), Arrive(1, 0.0), Dispatch];
      var second := [Arrive(1, 5.0)];
      && IsRun(EMPTY, first, 0.0) && Run(EMPTY, first, 0.0).waiting != []
      && IsRun(EMPTY, second, 0.0) && Run(EMPTY, second, 0.0).waiting != []
      && Precedes(first, second, 0.0) && Precedes(second, first, 10.0)
  {
    var first := [Arrive(1, 0.0), Arrive(1, 0.0), Dispatch];
    var second := [Arrive(1, 5.0)];
    BusyExample();
    ExampleSeats();
    OrderTurns(first, second);
  }

  lemma ExampleSeats()
    ensures GuessedSeats(Queue(2, 0.0, [Request(1, 1)], [Request(0, 1)])) == 2
    ensures GuessedSeats(Queue(1, 5.0, [Request(0, 1)], [])) == 1
  {
    assert [Request(0, 1)][1..] == [];
  }

  lemma {:induction false} OrderTurns(first: seq<Event>, second: seq<Event>)
    requires IsRun(EMPTY, first, 0.0) && Run(EMPTY, first, 0.0).waiting != []
    requires IsRun(EMPTY, second, 0.0) && Run(EMPTY, second, 0.0).waiting != []
    requires Run(EMPTY, first, 0.0).virtualStart == 0.0 && GuessedSeats(Run(EMPTY, first, 0.0)) == 2
    requires Run(EMPTY, second, 0.0).virtualStart == 5.0 && GuessedSeats(Run(EMPTY, second, 0.0)) == 1
    ensures Precedes(first, second, 0.0) && Precedes(second, first, 10.0)
  {
    NextFinishUnderGuess(first, 0.0);
    NextFinishUnderGuess(second, 0.0);
    NextFinishUnderGuess(first, 10.0);
    NextFinishUnderGuess(second, 10.0);
  }

  lemma BusyExample()
    ensures var first := [Arrive(1, 0.0), Arrive(1, 0.0), Dispatch];
      IsRun(EMPTY, first, 0.0) && Run(EMPTY, first, 0.0) == Queue(2, 0.0, [Request(1, 1)], [Request(0, 1)])
    ensures var second := [Arrive(1, 5.0)];
      IsRun(EMPTY, second, 0.0) && Run(EMPTY, second, 0.0) == Queue(1, 5.0, [Request(0, 1)], [])
  {
    var first := [Arrive(1, 0.0), Arrive(1, 0.0), Dispatch];
    var second := [Arrive(1, 5.0)];
    var q1 := Step(EMPTY, first[0], 0.0);
    var q2 := Step(q1, first[1], 0.0);
    var q3 := Step(q2, first[2], 0.0);
    assert first[1..][1..] == [Dispatch] && first[1..][1..][1..] == [] && second[1..] == [];
    ZeroDuration(1, 0.0);
    assert Run(EMPTY, first, 0.0) == q3;
    assert q3 == Queue(2, 0.0, [Request(1, 1)], [Request(0, 1)]);
    assert Run(EMPTY, second, 0.0) == Step(EMPTY, second[0], 0.0);
  }
}
