/**
 * The active count and the ledger of src/scheduler.cpp over runs without any discipline: what they are
 * off by, step by step.
 */
module WorkerLeaks {
  import opened Prelude
  import opened TaskQueues
  import opened Workers

  /** The work that the step drops: a task in hand whose coroutine has ended. */
  function DropOf(s: State, a: Action): multiset<Work>
    requires Enabled(s, a)
  {
    if !a.SwapIn? then multiset{}
    else
      var work := s.workers[a.w].task.work;
      if work.Co? && Finished(s.states[work.co]) then multiset{work} else multiset{}
  }

  /** All that a run has dropped. */
  function Dropped(workers: nat, actions: seq<Action>): multiset<Work>
    requires Undisciplined(workers, actions).Some?
  {
    if actions == [] then multiset{}
    else
      var before := actions[..|actions| - 1];
      Dropped(workers, before) + DropOf(Undisciplined(workers, before).value, actions[|actions| - 1])
  }

  /** How far the active count is above the number of busy workers. */
  function Excess(s: State): int { s.active - Count(s.workers, Busy, Cb(0)) }

  /** How much of the work has been scheduled but is neither on the list, nor with a worker, nor back. */
  function Missing(s: State, x: Work): int {
    s.scheduled[x] - Queued(s.queue, x) - Count(s.workers, Held, x) - Count(s.workers, Run, x) - s.returned[x]
  }

  lemma DequeueLoses(s: State, w: nat, x: Work)
    requires Enabled(s, Dequeue(w))
    ensures var n := Step(s, Dequeue(w)); Excess(n) == Excess(s) && Missing(n, x) == Missing(s, x)
  {
    var i := Pick(s.queue, w, Executing(s)).value;
    var n := Step(s, Dequeue(w));
    QueuedWithout(s.queue, i, x);
    WorkerChange(s.workers, w, n.workers[w], x);
    WorkerChange(s.workers, w, n.workers[w], Cb(0));
    hide Queued, Count, Without, Pick, Executing;
  }

  lemma SwapInLoses(s: State, w: nat, made: Coroutine, x: Work)
    requires Enabled(s, SwapIn(w, made))
    ensures var n, drop := Step(s, SwapIn(w, made)), DropOf(s, SwapIn(w, made));
            Excess(n) == Excess(s) + |drop| && Missing(n, x) == Missing(s, x) + drop[x]
  {
    var n := Step(s, SwapIn(w, made));
    WorkerChange(s.workers, w, n.workers[w], x);
    WorkerChange(s.workers, w, n.workers[w], Cb(0));
    hide Queued, Count;
  }

  lemma ReturnLoses(s: State, w: nat, outcome: Outcome, x: Work)
    requires Enabled(s, Return(w, outcome))
    ensures var n := Step(s, Return(w, outcome)); Excess(n) == Excess(s) && Missing(n, x) == Missing(s, x)
  {
    ReturnCounts(s, w, outcome, x);
    WorkerChange(s.workers, w, Free, x);
    WorkerChange(s.workers, w, Free, Cb(0));
    hide Queued, Count, Step, Again;
  }

  lemma IdleLoses(s: State, a: Action, x: Work)
    requires Enabled(s, a) && (a.IdleEnter? || a.IdleReturn?)
    ensures var n := Step(s, a); Excess(n) == Excess(s) && Missing(n, x) == Missing(s, x)
  {
    var n := Step(s, a);
    WorkerChange(s.workers, a.w, n.workers[a.w], x);
    WorkerChange(s.workers, a.w, n.workers[a.w], Cb(0));
    hide Queued, Count;
  }

  lemma ScheduleLoses(s: State, task: Task, x: Work)
    requires Enabled(s, Schedule(task))
    ensures var n := Step(s, Schedule(task)); Excess(n) == Excess(s) && Missing(n, x) == Missing(s, x)
  {
    QueuedAppend(s.queue, task, x);
    hide Queued, Count;
  }

  /** A step moves the count and the ledger apart by exactly what it drops. */
  lemma StepLoses(s: State, a: Action, x: Work)
    requires Enabled(s, a)
    ensures var n, drop := Step(s, a), DropOf(s, a);
            Excess(n) == Excess(s) + |drop| && Missing(n, x) == Missing(s, x) + drop[x]
  {
    match a
    case Create(co) =>
    case Schedule(task) => ScheduleLoses(s, task, x);
    case Dequeue(w) => DequeueLoses(s, w, x);
    case SwapIn(w, made) => SwapInLoses(s, w, made, x);
    case Return(w, outcome) => ReturnLoses(s, w, outcome, x);
    case IdleEnter(w) => IdleLoses(s, a, x);
    case IdleReturn(w) => IdleLoses(s, a, x);
  }

  /** After every run the active count is the number of busy workers and of tasks dropped, and what has
      been scheduled is on the list, with a worker, back, or dropped. */
  lemma {:induction false} RunLoses(workers: nat, actions: seq<Action>, x: Work)
    requires Undisciplined(workers, actions).Some?
    ensures var s := Undisciplined(workers, actions).value;
            Excess(s) == |Dropped(workers, actions)| && Missing(s, x) == Dropped(workers, actions)[x]
  {
    if actions == [] {
      var s := Start(workers);
      forall r, y ensures Count(s.workers, r, y) == 0 {
        AllFree(s.workers, r, y);
      }
    } else {
      var before, a := actions[..|actions| - 1], actions[|actions| - 1];
      RunLoses(workers, before, x);
      StepLoses(Undisciplined(workers, before).value, a, x);
      hide Step, Enabled, Excess, Missing, DropOf;
    }
  }

  /** The count is right iff nothing has been dropped, and so is the ledger. */
  lemma RightIffNothingDropped(workers: nat, actions: seq<Action>)
    requires Undisciplined(workers, actions).Some?
    ensures var s, dropped := Undisciplined(workers, actions).value, Dropped(workers, actions);
            && (Counted(s) <==> dropped == multiset{})
            && ((forall x :: Conserved(s, x)) <==> dropped == multiset{})
  {
    var s, dropped := Undisciplined(workers, actions).value, Dropped(workers, actions);
    forall x ensures Excess(s) == |dropped| && (Conserved(s, x) <==> dropped[x] == 0) {
      RunLoses(workers, actions, x);
    }
    assert dropped == multiset{} <==> forall x :: dropped[x] == 0;
    assert Excess(s) == |dropped| by {
      RunLoses(workers, actions, Cb(0));
    }
  }
}
