/**
 * The list of src/scheduler.cpp in the runs of its workers: every step moves it as one event of the task
 * list, so that what is proved about waiting holds of the workers' own runs.
 */
module WorkerQueues {
  import opened Prelude
  import Q = TaskQueues
  import opened Workers

  /** What a step does to the list, as events of the task list. */
  function EventsOf(s: State, a: Action): seq<Q.Event>
    requires Enabled(s, a)
  {
    match a
    case Schedule(task) => [Q.Append(task)]
    case Dequeue(w) => [Q.Scan(w, Executing(s))]
    case Return(w, outcome) =>
      // A coroutine that is ready again goes to the end of the list, free to run anywhere.
      if outcome == Yielded(true) then [Q.Append(Q.Task(Q.Co(s.workers[w].co), None))] else []
    case _ => []
  }

  lemma StepMovesList(s: State, a: Action)
    requires Enabled(s, a)
    ensures Step(s, a).queue == Q.After(s.queue, EventsOf(s, a))
  {
    if EventsOf(s, a) != [] {
      assert EventsOf(s, a)[1..] == [];
    }
  }

  /** The state after some more steps, disciplined or not; None if one of them was not enabled. */
  function Onward(s: State, actions: seq<Action>): Option<State>
    decreases |actions|
  {
    if actions == [] then Some(s)
    else if Enabled(s, actions[0]) then Onward(Step(s, actions[0]), actions[1..])
    else None
  }

  /** The events of the list in a run. */
  function Events(s: State, actions: seq<Action>): seq<Q.Event>
    requires Onward(s, actions).Some?
    decreases |actions|
  {
    if actions == [] then [] else EventsOf(s, actions[0]) + Events(Step(s, actions[0]), actions[1..])
  }

  lemma {:induction false} ListAppend(q: seq<Q.Task>, a: seq<Q.Event>, b: seq<Q.Event>)
    ensures Q.After(q, a + b) == Q.After(Q.After(q, a), b)
    decreases |a|
  {
    if a == [] {
      assert a + b == b;
    } else {
      assert (a + b)[0] == a[0] && (a + b)[1..] == a[1..] + b;
      ListAppend(Q.Apply(q, a[0]), a[1..], b);
    }
  }

  /** In every run the list is moved by its events alone. */
  lemma {:induction false} RunMovesList(s: State, actions: seq<Action>)
    requires Onward(s, actions).Some?
    ensures Onward(s, actions).value.queue == Q.After(s.queue, Events(s, actions))
    decreases |actions|
  {
    if actions != [] {
      var n := Step(s, actions[0]);
      StepMovesList(s, actions[0]);
      RunMovesList(n, actions[1..]);
      ListAppend(s.queue, EventsOf(s, actions[0]), Events(n, actions[1..]));
    }
  }

  lemma {:induction false} OnwardMore(s: State, actions: seq<Action>, a: Action)
    requires Onward(s, actions).Some?
    ensures Onward(s, actions + [a]) ==
            var n := Onward(s, actions).value; if Enabled(n, a) then Some(Step(n, a)) else None
    decreases |actions|
  {
    hide Step, Enabled;
    if actions == [] {
      assert actions + [a] == [a];
      if Enabled(s, a) {
        assert Onward(Step(s, a), [a][1..]) == Some(Step(s, a));
      }
    } else {
      assert (actions + [a])[0] == actions[0] && (actions + [a])[1..] == actions[1..] + [a];
      OnwardMore(Step(s, actions[0]), actions[1..], a);
    }
  }

  /** The runs of the workers are such runs, and so are those with discipline. */
  lemma {:induction false} RunsAreOnward(workers: nat, actions: seq<Action>)
    ensures Undisciplined(workers, actions).Some? ==> Undisciplined(workers, actions) == Onward(Start(workers), actions)
    ensures After(workers, actions).Some? ==> After(workers, actions) == Undisciplined(workers, actions)
  {
    if actions != [] {
      var before, a := actions[..|actions| - 1], actions[|actions| - 1];
      assert actions == before + [a];
      RunsAreOnward(workers, before);
      if Undisciplined(workers, before).Some? {
        OnwardMore(Start(workers), before, a);
      }
      hide Step, Enabled, Disciplined;
    }
  }

  // ----- Bounded waiting in the workers' runs ----------------------------------

  /** After `before`, the worker's next step takes exactly this task in hand. */
  predicate Takes(s: State, before: seq<Action>, w: nat, task: Q.Task) {
    var m := Onward(s, before);
    && m.Some? && Enabled(m.value, Dequeue(w))
    && w < |Step(m.value, Dequeue(w)).workers| && Step(m.value, Dequeue(w)).workers[w] == Holding(task)
  }

  /** The scans of a run that could have taken the task, had it come first. */
  function Chances(s: State, actions: seq<Action>, task: Q.Task): nat
    requires Onward(s, actions).Some?
    decreases |actions|
  {
    if actions == [] then 0
    else
      var a := actions[0];
      Chances(Step(s, a), actions[1..], task)
      + if a.Dequeue? && Q.Eligible(task, a.w, Executing(s)) then 1 else 0
  }

  lemma {:induction false} ChancesAppend(task: Q.Task, a: seq<Q.Event>, b: seq<Q.Event>)
    ensures Q.Chances(task, a + b) == Q.Chances(task, a) + Q.Chances(task, b)
    decreases |a|
  {
    if a == [] {
      assert a + b == b;
    } else {
      assert (a + b)[0] == a[0] && (a + b)[1..] == a[1..] + b;
      ChancesAppend(task, a[1..], b);
    }
  }

  lemma {:induction false} ChancesAreScans(s: State, actions: seq<Action>, task: Q.Task)
    requires Onward(s, actions).Some?
    ensures Chances(s, actions, task) == Q.Chances(task, Events(s, actions))
    decreases |actions|
  {
    if actions != [] {
      ChancesAreScans(Step(s, actions[0]), actions[1..], task);
      ChancesAppend(task, EventsOf(s, actions[0]), Events(Step(s, actions[0]), actions[1..]));
      if EventsOf(s, actions[0]) != [] {
        assert EventsOf(s, actions[0])[1..] == [];
      }
      hide Step, Enabled;
    }
  }

  /** In a run of the workers too, a waiting task is where its fate says, and has moved forward with
      every scan that could have taken it. */
  lemma WaitingInRuns(s: State, actions: seq<Action>, k: nat)
    requires Onward(s, actions).Some? && k < |s.queue| && Q.FateOf(s.queue, k, Events(s, actions)).Waiting?
    ensures var i, q := Q.FateOf(s.queue, k, Events(s, actions)).index, Onward(s, actions).value.queue;
            i < |q| && q[i] == s.queue[k] && i + Chances(s, actions, s.queue[k]) <= k
  {
    RunMovesList(s, actions);
    ChancesAreScans(s, actions, s.queue[k]);
    Q.FateTracks(s.queue, k, Events(s, actions));
    Q.WaitingMovesForward(s.queue, k, Events(s, actions));
  }

  /** One step of the run, and the task at index k: still there, perhaps one place forward, or taken. */
  lemma StepMovesTask(s: State, a: Action, k: nat) returns (j: nat)
    requires Enabled(s, a) && k < |s.queue| && (a.Dequeue? ==> !Takes(s, [], a.w, s.queue[k]))
    ensures j < |Step(s, a).queue| && Step(s, a).queue[j] == s.queue[k] && j <= k
    ensures a.Dequeue? && Q.Eligible(s.queue[k], a.w, Executing(s)) ==> j < k
  {
    j := k;
    if a.Dequeue? {
      var i := Q.Pick(s.queue, a.w, Executing(s)).value;
      if i == k {
        assert Onward(s, []) == Some(s);
      }
      j := if i < k then k - 1 else k;
    }
  }

  /** A task at index k of the workers' list is taken in hand by a worker, unless fewer than k + 1 scans
      could have taken it, whatever else happens meanwhile. */
  lemma {:induction false} TakenInHand(s: State, actions: seq<Action>, k: nat) returns (i: nat, w: nat)
    requires Onward(s, actions).Some? && k < |s.queue| && k < Chances(s, actions, s.queue[k])
    ensures i < |actions| && actions[i] == Dequeue(w) && Takes(s, actions[..i], w, s.queue[k])
    ensures s.queue[k].pin.Some? ==> s.queue[k].pin.value == w
    decreases |actions|
  {
    var a := actions[0];
    if a.Dequeue? && Takes(s, [], a.w, s.queue[k]) {
      i, w := 0, a.w;
      assert actions[..0] == [];
    } else {
      var j := StepMovesTask(s, a, k);
      i, w := TakenInHand(Step(s, a), actions[1..], j);
      TakesLater(s, actions, i, w, s.queue[k]);
      i := i + 1;
    }
  }

  lemma TakesLater(s: State, actions: seq<Action>, i: nat, w: nat, task: Q.Task)
    requires actions != [] && Enabled(s, actions[0]) && i < |actions[1..]|
    requires Takes(Step(s, actions[0]), actions[1..][..i], w, task)
    ensures Takes(s, actions[..i + 1], w, task) && actions[i + 1] == actions[1..][i]
  {
    assert actions[..i + 1][1..] == actions[1..][..i];
    hide Step, Enabled;
  }

  // ----- Coroutines that are ready again ---------------------------------------

  /** A return puts the coroutine at the end of the list iff it leaves it READY; one that is left at all
      is READY, in HOLD, or ended, as it gave control back. */
  lemma ReadyIffQueued(s: State, w: nat, outcome: Outcome)
    requires Enabled(s, Return(w, outcome))
    ensures var n, co := Step(s, Return(w, outcome)), s.workers[w].co;
            var ready := co in n.states && n.states[co] == READY;
            && n.queue == s.queue + (if ready then [Q.Task(Q.Co(co), None)] else [])
            && (ready <==> outcome == Yielded(true))
            && (outcome == Yielded(false) <==> co in n.states && n.states[co] == HOLD)
            && (co !in n.states <==> outcome.Ended? && s.workers[w].work.Cb?)
            && (co in n.states && Finished(n.states[co]) ==> (n.states[co] == EXCEPT <==> outcome == Ended(true)))
  {
  }

  /** In a disciplined run a READY coroutine has its one task pending. */
  ghost predicate ReadyPending(s: State, c: Q.Coroutine) {
    c in s.states && s.states[c] == READY ==> Pending(s, Q.Co(c)) == 1
  }

  lemma DequeueKeepsPending(s: State, w: nat, x: Q.Work)
    requires Enabled(s, Dequeue(w))
    ensures Pending(Step(s, Dequeue(w)), x) == Pending(s, x)
  {
    var i := Q.Pick(s.queue, w, Executing(s)).value;
    QueuedWithout(s.queue, i, x);
    CountUpdate(s.workers, w, Holding(s.queue[i]), Held, x);
    hide Queued, Count;
  }

  lemma SwapInKeepsPending(s: State, w: nat, made: Q.Coroutine, x: Q.Work)
    requires Enabled(s, SwapIn(w, made)) && s.workers[w].task.work != x
    ensures Pending(Step(s, SwapIn(w, made)), x) == Pending(s, x)
  {
    CountUpdate(s.workers, w, Step(s, SwapIn(w, made)).workers[w], Held, x);
    hide Queued, Count;
  }

  lemma ReturnAddsPending(s: State, w: nat, outcome: Outcome, x: Q.Work)
    requires Enabled(s, Return(w, outcome))
    ensures Pending(Step(s, Return(w, outcome)), x) == Pending(s, x) + Again(s, w, outcome, x)
  {
    ReturnCounts(s, w, outcome, x);
    CountUpdate(s.workers, w, Free, Held, x);
    hide Queued, Count, Step, Again;
  }

  lemma OthersKeepPending(s: State, a: Action, x: Q.Work)
    requires Enabled(s, a) && (a.Create? || a.Schedule? || a.IdleEnter? || a.IdleReturn?)
    ensures Pending(Step(s, a), x) >= Pending(s, x)
  {
    if a.Schedule? {
      QueuedAppend(s.queue, a.task, x);
    } else if !a.Create? {
      CountUpdate(s.workers, a.w, Step(s, a).workers[a.w], Held, x);
    }
    hide Queued, Count;
  }

  /** A coroutine is READY only by its own return, and no longer once a worker enters it. */
  lemma ReadyBefore(s: State, a: Action, c: Q.Coroutine)
    requires Enabled(s, a) && c in Step(s, a).states && Step(s, a).states[c] == READY
    ensures (c in s.states && s.states[c] == READY)
            || (a.Return? && a.outcome == Yielded(true) && s.workers[a.w].co == c)
    ensures a.SwapIn? && s.workers[a.w].task.work == Q.Co(c) ==> Finished(s.states[c])
  {
  }

  lemma StepKeepsReady(s: State, a: Action, c: Q.Coroutine)
    requires Inv(s) && Enabled(s, a) && Disciplined(s, a) && ReadyPending(s, c)
    ensures ReadyPending(Step(s, a), c)
  {
    var n := Step(s, a);
    if c in n.states && n.states[c] == READY {
      StepKeepsInv(s, a);
      assert Orderly(n, c);
      ReadyBefore(s, a, c);
      match a
      case Dequeue(w) => DequeueKeepsPending(s, w, Q.Co(c));
      case SwapIn(w, made) =>
        if s.workers[w].task.work == Q.Co(c) {
          HeldCanRun(s, w);
        } else {
          SwapInKeepsPending(s, w, made, Q.Co(c));
        }
      case Return(w, outcome) => ReturnAddsPending(s, w, outcome, Q.Co(c));
      case _ => OthersKeepPending(s, a, Q.Co(c));
    }
    hide Step, Pending, Inv, Enabled, Disciplined;
  }

  /** In every state a disciplined run reaches, a coroutine that is READY has exactly one task waiting or
      in hand. */
  lemma {:induction false} ReadyIsPending(workers: nat, actions: seq<Action>, c: Q.Coroutine)
    requires After(workers, actions).Some?
    ensures ReadyPending(After(workers, actions).value, c)
  {
    if actions != [] {
      var before := actions[..|actions| - 1];
      RunKeepsInv(workers, before);
      ReadyIsPending(workers, before, c);
      StepKeepsReady(After(workers, before).value, actions[|actions| - 1], c);
      hide Step, Enabled, Disciplined, ReadyPending;
    }
  }

  // ----- Going on --------------------------------------------------------------

  /** A worker between tasks takes one iff some task on the list is eligible for it, the first such one,
      and enters its idle coroutine otherwise. */
  lemma FreeWorkerTakes(s: State, w: nat)
    requires w < |s.workers| && s.workers[w].Free?
    ensures Enabled(s, Dequeue(w)) <==> exists k :: 0 <= k < |s.queue| && Q.Eligible(s.queue[k], w, Executing(s))
    ensures Enabled(s, IdleEnter(w)) <==> !Enabled(s, Dequeue(w))
    ensures Enabled(s, Dequeue(w)) ==>
              exists k :: 0 <= k < |s.queue| && Step(s, Dequeue(w)).workers[w] == Holding(s.queue[k])
                && Q.Eligible(s.queue[k], w, Executing(s))
                && forall j | 0 <= j < k :: !Q.Eligible(s.queue[j], w, Executing(s))
  {
    var r := Q.Pick(s.queue, w, Executing(s));
    if r.Some? {
      assert Q.Eligible(s.queue[r.value], w, Executing(s));
      assert Step(s, Dequeue(w)).workers[w] == Holding(s.queue[r.value]);
    }
  }

  /** What a worker can do next, its coroutine yielding if it is inside one; `made` is a coroutine that is not there yet. */
  function NextOf(s: State, w: nat, made: Q.Coroutine): Action
    requires w < |s.workers|
  {
    match s.workers[w]
    case Free => if Q.Pick(s.queue, w, Executing(s)).Some? then Dequeue(w) else IdleEnter(w)
    case Holding(_) => SwapIn(w, made)
    case Running(_, _) => Return(w, Yielded(false))
    case Idling => IdleReturn(w)
  }

  /** What discipline asks of those who schedule, and of a coroutine that gives control back. */
  lemma DisciplineIs(s: State, a: Action)
    requires Enabled(s, a)
    ensures !Disciplined(s, a) <==>
            || (a.Schedule? && a.task.work.Co? && (Pending(s, a.task.work) > 0 || Finished(s.states[a.task.work.co])))
            || (a.Return? && a.outcome != Yielded(false) && Pending(s, Q.Co(s.workers[a.w].co)) > 0)
  {
  }

  /** A coroutine that a worker is inside is known. */
  lemma RunningIsKnown(s: State, w: nat)
    requires Inv(s) && IsRunning(s, w)
    ensures s.workers[w].co in s.states
  {
    assert Orderly(s, s.workers[w].co);
    CountUpdate(s.workers, w, Free, Inside, Q.Co(s.workers[w].co));
    hide Count, Pending;
  }

  lemma WorkerGoesOn(s: State, w: nat, made: Q.Coroutine)
    requires Inv(s) && w < |s.workers| && made !in s.states
    ensures Enabled(s, NextOf(s, w, made)) && Disciplined(s, NextOf(s, w, made))
  {
    hide Inv;
    match s.workers[w]
    case Holding(task) => if task.work.Co? { HeldCanRun(s, w); }
    case Running(_, _) => RunningIsKnown(s, w);
    case _ =>
  }

  /** In every state a disciplined run reaches, every worker can take a step
      that keeps the run disciplined: nothing blocks for good. */
  lemma WorkersGoOn(workers: nat, actions: seq<Action>, w: nat, made: Q.Coroutine)
    requires After(workers, actions).Some?
    requires var s := After(workers, actions).value; w < |s.workers| && made !in s.states
    ensures After(workers, actions + [NextOf(After(workers, actions).value, w, made)]).Some?
  {
    RunKeepsInv(workers, actions);
    var a := NextOf(After(workers, actions).value, w, made);
    assert (actions + [a])[..|actions|] == actions;
    hide Inv, Enabled, NextOf, Disciplined;
    WorkerGoesOn(After(workers, actions).value, w, made);
  }

  lemma {:induction false} InsideSome(ws: seq<Worker>, x: Q.Work)
    requires Count(ws, Inside, x) > 0
    ensures exists w :: 0 <= w < |ws| && ws[w].Running? && Q.Co(ws[w].co) == x
  {
    var n := |ws| - 1;
    if Plays(ws[n], Inside, x) == 0 {
      InsideSome(ws[..n], x);
      var w :| 0 <= w < |ws[..n]| && ws[..n][w].Running? && Q.Co(ws[..n][w].co) == x;
      assert ws[w].Running?;
    }
  }

  /** The coroutines that the scan passes over are those that a worker is inside. */
  lemma ExecutingIsInside(s: State, co: Q.Coroutine)
    requires Inv(s)
    ensures co in Executing(s) <==> exists w :: 0 <= w < |s.workers| && s.workers[w].Running? && s.workers[w].co == co
  {
    assert Orderly(s, co);
    if co in Executing(s) {
      InsideSome(s.workers, Q.Co(co));
    }
    if w :| 0 <= w < |s.workers| && s.workers[w].Running? && s.workers[w].co == co {
      CountUpdate(s.workers, w, Free, Inside, Q.Co(co));
    }
    hide Count, Pending;
  }
}
