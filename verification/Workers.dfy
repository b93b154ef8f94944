/**
 * The workers of src/scheduler.cpp running the coroutines of src/coroutine.cpp. A step is a
 * dequeue, a switch into a coroutine, a switch back together with what the worker does about
 * it, an entry into or return from the idle coroutine, or somebody scheduling a task; the
 * steps of the workers interleave freely.
 */
module Workers {
  import opened Prelude
  import opened TaskQueues

  /** Coroutine::State. */
  datatype CoState = INIT | HOLD | EXEC | TERM | READY | EXCEPT

  /** A worker: between tasks; with a task in hand, already counted; inside a coroutine, with the
      work it stands for; inside its idle coroutine. */
  datatype Worker = Free | Holding(task: Task) | Running(co: Coroutine, work: Work) | Idling

  datatype State = State(queue: seq<Task>, states: map<Coroutine, CoState>, workers: seq<Worker>, active: int,
                         // Every piece of work ever put on the list, and every one that has come back.
                         scheduled: multiset<Work>, returned: multiset<Work>)

  function Start(workers: nat): State {
    State([], map[], seq(workers, _ => Free), 0, multiset{}, multiset{})
  }

  /** How a coroutine gives control back. */
  datatype Outcome = Yielded(ready: bool) | Ended(thrown: bool)

  datatype Action =
    | Create(co: Coroutine)
    | Schedule(task: Task)
    | Dequeue(w: nat)
    | SwapIn(w: nat, made: Coroutine)
    | Return(w: nat, outcome: Outcome)
    | IdleEnter(w: nat)
    | IdleReturn(w: nat)

  function Executing(s: State): set<Coroutine> {
    set co | co in s.states && s.states[co] == EXEC
  }

  predicate Finished(st: CoState) { st == TERM || st == EXCEPT }

  // ----- Counts over the list and the workers ----------------------------------

  /** How often the work is on the list. */
  function Queued(q: seq<Task>, x: Work): nat {
    if q == [] then 0 else Queued(q[..|q| - 1], x) + if q[|q| - 1].work == x then 1 else 0
  }

  /** In a worker's hand; being run by it; inside it, as a coroutine; keeping it busy at all. */
  datatype Role = Held | Run | Inside | Busy

  function Plays(w: Worker, r: Role, x: Work): nat {
    match r
    case Held => if w.Holding? && w.task.work == x then 1 else 0
    case Run => if w.Running? && w.work == x then 1 else 0
    case Inside => if w.Running? && Co(w.co) == x then 1 else 0
    case Busy => if w.Free? then 0 else 1
  }

  function Count(ws: seq<Worker>, r: Role, x: Work): nat {
    if ws == [] then 0 else Count(ws[..|ws| - 1], r, x) + Plays(ws[|ws| - 1], r, x)
  }

  lemma {:induction false} CountUpdate(ws: seq<Worker>, i: nat, w: Worker, r: Role, x: Work)
    requires i < |ws|
    ensures Plays(ws[i], r, x) <= Count(ws, r, x)
    ensures Count(ws[i := w], r, x) == Count(ws, r, x) - Plays(ws[i], r, x) + Plays(w, r, x)
  {
    hide Plays;
    var n := |ws| - 1;
    if i == n {
      assert ws[i := w][..n] == ws[..n];
    } else {
      assert ws[i := w][..n] == ws[..n][i := w];
      CountUpdate(ws[..n], i, w, r, x);
    }
  }

  lemma QueuedAppend(q: seq<Task>, task: Task, x: Work)
    ensures Queued(q + [task], x) == Queued(q, x) + if task.work == x then 1 else 0
  {
    assert (q + [task])[..|q|] == q;
  }

  lemma {:induction false} QueuedWithout(q: seq<Task>, i: nat, x: Work)
    requires i < |q|
    ensures Queued(Without(q, i), x) == Queued(q, x) - if q[i].work == x then 1 else 0
  {
    var n := |q| - 1;
    if i == n {
      assert Without(q, i) == q[..n];
    } else {
      assert Without(q, i) == Without(q[..n], i) + [q[n]];
      QueuedAppend(Without(q[..n], i), q[n], x);
      QueuedWithout(q[..n], i, x);
    }
  }

  // ----- Steps -----------------------------------------------------------------

  predicate IsHolding(s: State, w: nat) { w < |s.workers| && s.workers[w].Holding? }
  predicate IsRunning(s: State, w: nat) { w < |s.workers| && s.workers[w].Running? }

  predicate Enabled(s: State, a: Action) {
    match a
    case Create(co) => co !in s.states
    case Schedule(task) => task.work.Co? ==> task.work.co in s.states
    case Dequeue(w) => w < |s.workers| && s.workers[w].Free? && Pick(s.queue, w, Executing(s)).Some?
    case SwapIn(w, made) =>
      IsHolding(s, w) && (if s.workers[w].task.work.Co? then s.workers[w].task.work.co in s.states else made !in s.states)
    case Return(w, _) => IsRunning(s, w) && s.workers[w].co in s.states
    case IdleEnter(w) => w < |s.workers| && s.workers[w].Free? && Pick(s.queue, w, Executing(s)).None?
    case IdleReturn(w) => w < |s.workers| && s.workers[w].Idling?
  }

  function Put(s: State, task: Task): State {
    s.(queue := s.queue + [task], scheduled := s.scheduled + multiset{task.work})
  }

  function Step(s: State, a: Action): State
    requires Enabled(s, a)
  {
    match a
    case Create(co) => s.(states := s.states[co := INIT])
    case Schedule(task) => Put(s, task)
    case Dequeue(w) =>
      var i := Pick(s.queue, w, Executing(s)).value;
      s.(queue := Without(s.queue, i), workers := s.workers[w := Holding(s.queue[i])], active := s.active + 1)
    case SwapIn(w, made) =>
      var work := s.workers[w].task.work;
      if work.Cb? then
        s.(states := s.states[made := EXEC], workers := s.workers[w := Running(made, work)])
      else if !Finished(s.states[work.co]) then
        s.(states := s.states[work.co := EXEC], workers := s.workers[w := Running(work.co, work)])
      else
        // Neither runnable nor a callback: the scan's count stays, and the idle coroutine runs.
        s.(workers := s.workers[w := Idling], active := s.active + 1)
    case Return(w, outcome) =>
      var co, work := s.workers[w].co, s.workers[w].work;
      var back := s.(workers := s.workers[w := Free], active := s.active - 1, returned := s.returned + multiset{work});
      (match outcome
       case Yielded(true) => Put(back.(states := s.states[co := READY]), Task(Co(co), None))
       case Yielded(false) => back.(states := s.states[co := HOLD])
       case Ended(thrown) =>
         if work.Cb? then back.(states := s.states - {co})
         else back.(states := s.states[co := if thrown then EXCEPT else TERM]))
    case IdleEnter(w) => s.(workers := s.workers[w := Idling], active := s.active + 1)
    case IdleReturn(w) => s.(workers := s.workers[w := Free], active := s.active - 1)
  }

  /** How often the work is on the list or in some worker's hand. */
  function Pending(s: State, x: Work): nat { Queued(s.queue, x) + Count(s.workers, Held, x) }

  /** One schedule per suspension: a coroutine is scheduled only while it has no pending task and has
      not ended; it makes itself ready, or ends, only while it has no pending task. */
  predicate Disciplined(s: State, a: Action)
    requires Enabled(s, a)
  {
    match a
    case Schedule(task) =>
      task.work.Co? ==> Pending(s, task.work) == 0 && !Finished(s.states[task.work.co])
    case Return(w, outcome) => outcome != Yielded(false) ==> Pending(s, Co(s.workers[w].co)) == 0
    case _ => true
  }

  // ----- What every disciplined step keeps -------------------------------------

  /** A coroutine has at most one pending task, and only while it can still run; it is inside exactly
      one worker while its state is EXEC and inside none otherwise; what is in a worker's hand does
      not run anywhere. */
  ghost predicate Orderly(s: State, c: Coroutine) {
    && Pending(s, Co(c)) <= 1
    && (Pending(s, Co(c)) > 0 ==> c in s.states && !Finished(s.states[c]))
    && Count(s.workers, Inside, Co(c)) == (if c in s.states && s.states[c] == EXEC then 1 else 0)
    && (Count(s.workers, Held, Co(c)) > 0 ==> s.states[c] != EXEC)
  }

  /** Every piece of work ever scheduled is on the list, in a hand, being run, or has come back. */
  ghost predicate Conserved(s: State, x: Work) {
    s.scheduled[x] == Queued(s.queue, x) + Count(s.workers, Held, x) + Count(s.workers, Run, x) + s.returned[x]
  }

  /** m_activeCoroutineCount is the number of workers between a dequeue, or an entry into the idle
      coroutine, and the return from it. */
  ghost predicate Counted(s: State) { s.active == Count(s.workers, Busy, Cb(0)) }

  ghost predicate Inv(s: State) {
    (forall c :: Orderly(s, c)) && (forall x :: Conserved(s, x)) && Counted(s)
  }

  /** A worker changes: what that does to every count. */
  lemma WorkerChange(ws: seq<Worker>, i: nat, w: Worker, x: Work)
    requires i < |ws|
    ensures forall r :: Plays(ws[i], r, x) <= Count(ws, r, x)
    ensures forall r :: Count(ws[i := w], r, x) == Count(ws, r, x) - Plays(ws[i], r, x) + Plays(w, r, x)
  {
    forall r
      ensures Plays(ws[i], r, x) <= Count(ws, r, x)
      ensures Count(ws[i := w], r, x) == Count(ws, r, x) - Plays(ws[i], r, x) + Plays(w, r, x)
    {
      CountUpdate(ws, i, w, r, x);
    }
  }

  lemma DequeueKeepsInv(s: State, w: nat)
    requires Inv(s) && Enabled(s, Dequeue(w))
    ensures Inv(Step(s, Dequeue(w)))
  {
    var i := Pick(s.queue, w, Executing(s)).value;
    var n := Step(s, Dequeue(w));
    hide Queued, Count, Without;
    forall x ensures Conserved(n, x) && Pending(n, x) == Pending(s, x) && Count(n.workers, Inside, x) == Count(s.workers, Inside, x)
    {
      assert Conserved(s, x);
      QueuedWithout(s.queue, i, x);
      WorkerChange(s.workers, w, Holding(s.queue[i]), x);
    }
    forall c ensures Orderly(n, c) {
      assert Orderly(s, c);
      QueuedWithout(s.queue, i, Co(c));
      WorkerChange(s.workers, w, Holding(s.queue[i]), Co(c));
    }
    WorkerChange(s.workers, w, Holding(s.queue[i]), Cb(0));
  }

  lemma SwapInKeepsInv(s: State, w: nat, made: Coroutine)
    requires Inv(s) && Enabled(s, SwapIn(w, made))
    ensures Inv(Step(s, SwapIn(w, made)))
  {
    var n := Step(s, SwapIn(w, made));
    hide Queued, Count;
    if s.workers[w].task.work.Co? {
      HeldCanRun(s, w);
    }
    forall x ensures Conserved(n, x) {
      assert Conserved(s, x);
      WorkerChange(s.workers, w, n.workers[w], x);
    }
    forall c ensures Orderly(n, c) {
      assert Orderly(s, c);
      WorkerChange(s.workers, w, n.workers[w], Co(c));
    }
    WorkerChange(s.workers, w, n.workers[w], Cb(0));
  }

  /** What a return adds to the list, and to what has been scheduled. */
  function Again(s: State, w: nat, outcome: Outcome, x: Work): nat
    requires IsRunning(s, w)
  {
    if outcome == Yielded(true) && x == Co(s.workers[w].co) then 1 else 0
  }

  lemma ReturnCounts(s: State, w: nat, outcome: Outcome, x: Work)
    requires Enabled(s, Return(w, outcome))
    ensures var n := Step(s, Return(w, outcome));
            && n.workers == s.workers[w := Free] && n.active == s.active - 1
            && Queued(n.queue, x) == Queued(s.queue, x) + Again(s, w, outcome, x)
            && n.scheduled[x] == s.scheduled[x] + Again(s, w, outcome, x)
            && n.returned[x] == s.returned[x] + if x == s.workers[w].work then 1 else 0
  {
    QueuedAppend(s.queue, Task(Co(s.workers[w].co), None), x);
    hide Queued;
  }

  lemma ReturnConservesOne(s: State, w: nat, outcome: Outcome, x: Work)
    requires Enabled(s, Return(w, outcome)) && Conserved(s, x)
    ensures Conserved(Step(s, Return(w, outcome)), x)
  {
    ReturnCounts(s, w, outcome, x);
    CountUpdate(s.workers, w, Free, Held, x);
    CountUpdate(s.workers, w, Free, Run, x);
    hide Queued, Count, Step, Again;
  }

  lemma ReturnConserves(s: State, w: nat, outcome: Outcome)
    requires Enabled(s, Return(w, outcome)) && Counted(s) && forall x :: Conserved(s, x)
    ensures Counted(Step(s, Return(w, outcome))) && forall x :: Conserved(Step(s, Return(w, outcome)), x)
  {
    forall x ensures Conserved(Step(s, Return(w, outcome)), x) {
      ReturnConservesOne(s, w, outcome, x);
    }
    ReturnCounts(s, w, outcome, Cb(0));
    CountUpdate(s.workers, w, Free, Busy, Cb(0));
    hide Queued, Count, Conserved, Step;
  }

  /** What a return makes of the coroutine: one that has ended is known as that, or no more. */
  lemma ReturnStates(s: State, w: nat, outcome: Outcome, c: Coroutine)
    requires Enabled(s, Return(w, outcome))
    ensures var n, co := Step(s, Return(w, outcome)), s.workers[w].co;
            && (c != co ==> (c in n.states <==> c in s.states) && (c in s.states ==> n.states[c] == s.states[c]))
            && (co in n.states ==> n.states[co] != EXEC)
            && (outcome.Yielded? ==> co in n.states && !Finished(n.states[co]))
  {
  }

  lemma ReturnKeepsOrder(s: State, w: nat, outcome: Outcome, c: Coroutine)
    requires Enabled(s, Return(w, outcome)) && Disciplined(s, Return(w, outcome)) && Orderly(s, c)
    ensures Orderly(Step(s, Return(w, outcome)), c)
  {
    ReturnCounts(s, w, outcome, Co(c));
    ReturnStates(s, w, outcome, c);
    CountUpdate(s.workers, w, Free, Held, Co(c));
    CountUpdate(s.workers, w, Free, Inside, Co(c));
    hide Queued, Count, Step, Finished;
  }

  lemma ReturnKeepsInv(s: State, w: nat, outcome: Outcome)
    requires Inv(s) && Enabled(s, Return(w, outcome)) && Disciplined(s, Return(w, outcome))
    ensures Inv(Step(s, Return(w, outcome)))
  {
    ReturnConserves(s, w, outcome);
    forall c ensures Orderly(Step(s, Return(w, outcome)), c) {
      ReturnKeepsOrder(s, w, outcome, c);
    }
    hide Step, Orderly, Conserved, Counted;
  }

  lemma ScheduleKeepsInv(s: State, task: Task)
    requires Inv(s) && Enabled(s, Schedule(task)) && Disciplined(s, Schedule(task))
    ensures Inv(Step(s, Schedule(task)))
  {
    var n := Step(s, Schedule(task));
    hide Queued, Count;
    forall x ensures Conserved(n, x) {
      assert Conserved(s, x);
      QueuedAppend(s.queue, task, x);
    }
    forall c ensures Orderly(n, c) {
      assert Orderly(s, c);
      QueuedAppend(s.queue, task, Co(c));
    }
  }

  lemma IdleKeepsInv(s: State, a: Action)
    requires Inv(s) && Enabled(s, a) && (a.IdleEnter? || a.IdleReturn?)
    ensures Inv(Step(s, a))
  {
    var n := Step(s, a);
    hide Queued, Count;
    forall x ensures Conserved(n, x) {
      assert Conserved(s, x);
      WorkerChange(s.workers, a.w, n.workers[a.w], x);
    }
    forall c ensures Orderly(n, c) {
      assert Orderly(s, c);
      WorkerChange(s.workers, a.w, n.workers[a.w], Co(c));
    }
    WorkerChange(s.workers, a.w, n.workers[a.w], Cb(0));
  }

  lemma CreateKeepsInv(s: State, co: Coroutine)
    requires Inv(s) && Enabled(s, Create(co))
    ensures Inv(Step(s, Create(co)))
  {
    var n := Step(s, Create(co));
    hide Queued, Count;
    forall x ensures Conserved(n, x) {
      assert Conserved(s, x);
    }
    forall c ensures Orderly(n, c) {
      assert Orderly(s, c);
    }
  }

  lemma StepKeepsInv(s: State, a: Action)
    requires Inv(s) && Enabled(s, a) && Disciplined(s, a)
    ensures Inv(Step(s, a))
  {
    hide Inv, Step;
    match a
    case Create(co) => CreateKeepsInv(s, co);
    case Schedule(task) => ScheduleKeepsInv(s, task);
    case Dequeue(w) => DequeueKeepsInv(s, w);
    case SwapIn(w, made) => SwapInKeepsInv(s, w, made);
    case Return(w, outcome) => ReturnKeepsInv(s, w, outcome);
    case IdleEnter(w) => IdleKeepsInv(s, a);
    case IdleReturn(w) => IdleKeepsInv(s, a);
  }

  // ----- Every run -------------------------------------------------------------

  /** swapIn's assertion: the coroutine is not running already. The third branch of `run`, a task that
      is neither runnable nor a callback, is not taken either. */
  lemma HeldCanRun(s: State, w: nat)
    requires Inv(s) && IsHolding(s, w) && s.workers[w].task.work.Co?
    ensures var co := s.workers[w].task.work.co;
            co in s.states && s.states[co] != EXEC && !Finished(s.states[co])
  {
    var co := s.workers[w].task.work.co;
    assert Orderly(s, co);
    CountUpdate(s.workers, w, Free, Held, Co(co));
  }

  /** The state after a disciplined run; None if some step was not enabled or not disciplined. */
  function After(workers: nat, actions: seq<Action>): Option<State> {
    if actions == [] then Some(Start(workers))
    else
      match After(workers, actions[..|actions| - 1])
      case None => None
      case Some(s) =>
        var a := actions[|actions| - 1];
        if Enabled(s, a) && Disciplined(s, a) then Some(Step(s, a)) else None
  }

  lemma {:induction false} AllFree(ws: seq<Worker>, r: Role, x: Work)
    requires forall w <- ws :: w.Free?
    ensures Count(ws, r, x) == 0
  {
    if ws != [] {
      assert ws[|ws| - 1] in ws && forall w <- ws[..|ws| - 1] :: w in ws;
      AllFree(ws[..|ws| - 1], r, x);
    }
  }

  lemma {:induction false} RunKeepsInv(workers: nat, actions: seq<Action>)
    requires After(workers, actions).Some?
    ensures Inv(After(workers, actions).value)
  {
    if actions == [] {
      var s := Start(workers);
      forall r, x ensures Count(s.workers, r, x) == 0 {
        AllFree(s.workers, r, x);
      }
    } else {
      RunKeepsInv(workers, actions[..|actions| - 1]);
      StepKeepsInv(After(workers, actions[..|actions| - 1]).value, actions[|actions| - 1]);
    }
  }

  /** In every reachable state two workers are never inside, or about to enter, the same coroutine. */
  lemma NeverOnTwoWorkers(workers: nat, actions: seq<Action>, v: nat, w: nat)
    requires After(workers, actions).Some?
    requires var s := After(workers, actions).value; v < |s.workers| && w < |s.workers| && v != w
    ensures var s := After(workers, actions).value;
            && (s.workers[v].Running? && s.workers[w].Running? ==> s.workers[v].co != s.workers[w].co)
            && (s.workers[v].Running? && s.workers[w].Holding? ==> s.workers[w].task.work != Co(s.workers[v].co))
            && (s.workers[v].Holding? && s.workers[w].Holding? && s.workers[v].task.work.Co? ==>
                  s.workers[v].task.work != s.workers[w].task.work)
  {
    RunKeepsInv(workers, actions);
    var s := After(workers, actions).value;
    if s.workers[v].Running? && s.workers[w].Running? && s.workers[v].co == s.workers[w].co {
      assert Orderly(s, s.workers[v].co);
      TwoPlayers(s.workers, v, w, Inside, Co(s.workers[v].co));
    }
    if s.workers[v].Running? && s.workers[w].Holding? {
      CountUpdate(s.workers, v, Free, Inside, Co(s.workers[v].co));
      assert Orderly(s, s.workers[v].co);
      CountUpdate(s.workers, w, Free, Held, s.workers[w].task.work);
    }
    if s.workers[v].Holding? && s.workers[w].Holding? && s.workers[v].task.work.Co?
       && s.workers[v].task.work == s.workers[w].task.work {
      assert Orderly(s, s.workers[v].task.work.co);
      TwoPlayers(s.workers, v, w, Held, s.workers[v].task.work);
    }
  }

  lemma TwoPlayers(ws: seq<Worker>, v: nat, w: nat, r: Role, x: Work)
    requires v < |ws| && w < |ws| && v != w && Plays(ws[v], r, x) == Plays(ws[w], r, x) == 1
    ensures Count(ws, r, x) >= 2
  {
    CountUpdate(ws, v, Free, r, x);
    CountUpdate(ws[v := Free], w, Free, r, x);
  }

  /** A task in hand whose coroutine has ended is dropped, and the worker is counted twice from then
      on; that is the only way the count and the ledger go wrong on the way into a coroutine. */
  lemma EndedTaskLeaksTheCount(s: State, w: nat, made: Coroutine)
    requires Counted(s) && Enabled(s, SwapIn(w, made)) && (forall x :: Conserved(s, x))
    ensures var work := s.workers[w].task.work;
            var n := Step(s, SwapIn(w, made));
            var ended := work.Co? && Finished(s.states[work.co]);
            && (Counted(n) <==> !ended)
            && (Conserved(n, work) <==> !ended)
  {
    var n := Step(s, SwapIn(w, made));
    var work := s.workers[w].task.work;
    WorkerChange(s.workers, w, n.workers[w], Cb(0));
    WorkerChange(s.workers, w, n.workers[w], work);
    assert Conserved(s, work);
    hide Queued, Count;
  }

  /** A run without the discipline of one schedule per suspension. */
  function Undisciplined(workers: nat, actions: seq<Action>): Option<State> {
    if actions == [] then Some(Start(workers))
    else
      match Undisciplined(workers, actions[..|actions| - 1])
      case None => None
      case Some(s) => if Enabled(s, actions[|actions| - 1]) then Some(Step(s, actions[|actions| - 1])) else None
  }

  lemma Go(run: seq<Action>, s: State, a: Action) returns (more: seq<Action>, next: State)
    requires Undisciplined(1, run) == Some(s) && Enabled(s, a)
    ensures more == run + [a] && next == Step(s, a) && Undisciplined(1, more) == Some(next)
  {
    more, next := run + [a], Step(s, a);
    assert more[..|run|] == run;
  }

  lemma ScheduledTwice() returns (run: seq<Action>, s: State)
    ensures Undisciplined(1, run) == Some(s)
    ensures s == State([Task(Co(0), None), Task(Co(0), None)], map[0 := INIT], [Free], 0, multiset{Co(0), Co(0)}, multiset{})
  {
    var task := Task(Co(0), None);
    assert Undisciplined(1, []) == Some(Start(1));
    hide Undisciplined;
    run, s := Go([], Start(1), Create(0));
    run, s := Go(run, s, Schedule(task));
    run, s := Go(run, s, Schedule(task));
    assert s.queue == [task, task];
  }

  lemma TakenInHand() returns (run: seq<Action>, s: State)
    ensures Undisciplined(1, run) == Some(s)
    ensures s == State([Task(Co(0), None)], map[0 := INIT], [Holding(Task(Co(0), None))], 1,
                       multiset{Co(0), Co(0)}, multiset{})
  {
    run, s := ScheduledTwice();
    hide Undisciplined;
    run, s := Go(run, s, Dequeue(0));
    assert s.queue == [Task(Co(0), None)] && s.workers == [Holding(Task(Co(0), None))];
  }

  /** A coroutine scheduled twice is entered. */
  lemma EnteredOnce() returns (run: seq<Action>, s: State)
    ensures Undisciplined(1, run) == Some(s)
    ensures s == State([Task(Co(0), None)], map[0 := EXEC], [Running(0, Co(0))], 1, multiset{Co(0), Co(0)}, multiset{})
  {
    run, s := TakenInHand();
    hide Undisciplined;
    run, s := Go(run, s, SwapIn(0, 1));
    assert s.states == map[0 := EXEC] && s.workers == [Running(0, Co(0))];
  }

  /** It runs to its end, and its second task is taken in hand. */
  lemma EndedTaskInHand() returns (run: seq<Action>, s: State)
    ensures Undisciplined(1, run) == Some(s)
    ensures s.workers == [Holding(Task(Co(0), None))] && s.states == map[0 := TERM] && s.active == 1
  {
    run, s := EnteredOnce();
    hide Undisciplined;
    run, s := Go(run, s, Return(0, Ended(false)));
    assert s.states == map[0 := TERM] && s.workers == [Free] && s.queue == [Task(Co(0), None)];
    run, s := Go(run, s, Dequeue(0));
  }

  /** So the leak happens: dropping that task leaves the count one too high. */
  lemma LeakHappens() returns (run: seq<Action>, s: State, n: State)
    ensures Undisciplined(1, run) == Some(s) && Counted(s)
    ensures Enabled(s, SwapIn(0, 1)) && n == Step(s, SwapIn(0, 1)) && !Counted(n)
  {
    run, s := EndedTaskInHand();
    hide Undisciplined;
    n := Step(s, SwapIn(0, 1));
    OneWorker(s.workers[0]);
    OneWorker(n.workers[0]);
  }

  lemma OneWorker(w: Worker)
    ensures Count([w], Busy, Cb(0)) == Plays(w, Busy, Cb(0))
  {
    assert [w][..0] == [];
  }
}
