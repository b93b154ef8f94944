/**
 * Timeouts of do_io in src/hook.cpp that never come: the callback cancels while its call is not
 * registered, and the call then waits with a mark and nothing that could wake it in time.
 */
module HookedTimeouts {
  import opened Prelude
  import opened HookedIo

  /** Some timer of the call can still bring it to cancel what is armed on its slot. */
  ghost predicate CanStillTimeOut(s: State, c: CallId)
    requires c in s.calls
  {
    exists t :: t in s.timers && s.timers[t].call == c
      && (s.timers[t].stage == Marked || (s.calls[c].cancelled.None? && MayMark(s.timers[t].stage)))
  }

  /** A timed call that waits can still time out iff it is not marked yet, or is marked by a callback
      that has yet to cancel. */
  lemma TimeoutStillComing(s: State, c: CallId)
    requires Inv(s) && c in s.calls && s.calls[c].timed && Waiting(s.calls[c].phase)
    ensures CanStillTimeOut(s, c) <==>
            s.calls[c].cancelled.None? || s.timers[s.calls[c].cancelled.value].stage == Marked
  {
    if s.calls[c].cancelled.None? {
      var t := s.calls[c].timer.value;
      assert s.timers[t].call == c;
    }
  }

  /** After the cancellation none of the call's timers has anything left to do. */
  lemma CancelEndsIt(s: State, t: TimerId)
    requires Inv(s) && Enabled(s, Cancel(t))
    ensures var c := s.timers[t].call;
            Step(s, Cancel(t)).calls[c].cancelled == Some(t) && !CanStillTimeOut(Step(s, Cancel(t)), c)
  {
    hide CurrentCalls, OneWakeUp, TimersOwned, TimeoutPending;
  }

  /** The cancellation is a call's last chance to time out. It wakes the call if that is registered,
      and if it has only set its timer so far, it wakes nobody for it. */
  lemma CancelIsLastChance(s: State, t: TimerId)
    requires Inv(s) && Enabled(s, Cancel(t))
    ensures var c := s.timers[t].call;
            var n := Step(s, Cancel(t));
            && n.calls[c].cancelled == Some(t) && !CanStillTimeOut(n, c)
            && (Waiting(s.calls[c].phase) ==> n.ready[s.calls[c].co] == 1 && !Holds(n.calls[c], n.slots))
            && (s.calls[c].phase.TimerSet? ==> s.calls[c].co !in n.ready)
  {
    var c := s.timers[t].call;
    CancelEndsIt(s, t);
    assert CallWakeUps(s.calls[c], s.slots, s.ready);
    hide CanStillTimeOut, CurrentCalls, TimersOwned, Marks, TimeoutPending;
  }

  // ----- When a timeout is lost, over whole runs -------------------------------

  /** What had happened before the call registered last. */
  function BeforeLastAdd(actions: seq<Action>, c: CallId): seq<Action> {
    if actions == [] then []
    else if actions[|actions| - 1] == AddOk(c) then actions[..|actions| - 1]
    else BeforeLastAdd(actions[..|actions| - 1], c)
  }

  lemma {:induction false} BeforeLastAddIsBefore(actions: seq<Action>, c: CallId, a: Action)
    requires a in BeforeLastAdd(actions, c)
    ensures a in actions
  {
    if actions[|actions| - 1] != AddOk(c) {
      BeforeLastAddIsBefore(actions[..|actions| - 1], c, a);
    }
  }

  lemma BeforeLastAddMore(actions: seq<Action>, a: Action, c: CallId)
    ensures BeforeLastAdd(actions + [a], c) == if a == AddOk(c) then actions else BeforeLastAdd(actions, c)
  {
    assert (actions + [a])[..|actions|] == actions;
  }

  /** A timer has cancelled iff its call is marked by it and its callback is over; as long as the call
      is registered, that was before it registered. */
  ghost predicate CancelHistory(actions: seq<Action>, s: State, t: TimerId) {
    if t !in s.timers || s.timers[t].call !in s.calls then Cancel(t) !in actions
    else
      var c := s.timers[t].call;
      var call, stage := s.calls[c], s.timers[t].stage;
      && (call.cancelled == Some(t) ==> stage == Marked || stage == Over)
      && (Cancel(t) in actions <==> stage == Over && call.cancelled == Some(t))
      && (Cancel(t) in actions && Waiting(call.phase) && Holds(call, s.slots) ==> Cancel(t) in BeforeLastAdd(actions, c))
  }

  /** The steps of timers and of readiness. */
  predicate Outside(a: Action) { a.Wake? || a.Expire? || a.Lock? || a.Check? || a.Cancel? }

  /** The call that takes the step. */
  function Actor(a: Action): CallId
    requires !Outside(a)
  {
    a.c
  }

  /** A call's step at most takes a live timer out of the set. */
  lemma CallsKeepTimer(s: State, a: Action, t: TimerId)
    requires Enabled(s, a) && !Outside(a) && t in s.timers
    ensures var n := Step(s, a);
            && t in n.timers && n.timers[t].call == s.timers[t].call
            && (s.timers[t].stage != Live ==> n.timers[t] == s.timers[t])
  {
  }

  /** A step from outside moves no timer but its own. */
  lemma OutsideMovesTimer(s: State, a: Action, t: TimerId)
    requires Enabled(s, a) && Outside(a) && t in s.timers
    ensures var n := Step(s, a);
            && t in n.timers && n.timers[t].call == s.timers[t].call
            && (a.Wake? || a.t != t ==> n.timers[t] == s.timers[t])
            && (a == Check(t) || a == Cancel(t) ==> n.timers[t].stage == Over || n.timers[t].stage == Marked)
            && (a == Cancel(t) ==> n.timers[t].stage == Over)
  {
    hide InfoAlive;
  }

  lemma StageBefore(s: State, a: Action, t: TimerId)
    requires Enabled(s, a) && t in s.timers
    ensures a == Expire(t) ==> s.timers[t].stage == Live
    ensures a == Lock(t) ==> s.timers[t].stage == Fired
    ensures a == Check(t) ==> s.timers[t].stage == Locked
    ensures a == Cancel(t) ==> s.timers[t].stage == Marked
  {
  }

  /** How a callback goes on; only its own cancellation ends one that has marked its call. */
  lemma StepOfStage(s: State, a: Action, t: TimerId)
    requires Enabled(s, a) && t in s.timers
    ensures var n := Step(s, a);
            && t in n.timers && n.timers[t].call == s.timers[t].call
            && (s.timers[t].stage == Marked ==> n.timers[t].stage == if a == Cancel(t) then Over else Marked)
            && (s.timers[t].stage == Over ==> n.timers[t].stage == Over)
            && (a == Check(t) ==> s.timers[t].stage == Locked)
            && (a == Cancel(t) ==> s.timers[t].stage == Marked)
  {
    StageBefore(s, a, t);
    hide Step, Enabled;
    if Outside(a) {
      OutsideMovesTimer(s, a, t);
    } else {
      CallsKeepTimer(s, a, t);
    }
  }

  lemma OutsideKeepsCall(s: State, a: Action, c: CallId)
    requires Enabled(s, a) && Outside(a)
    ensures var n := Step(s, a); c in n.calls <==> c in s.calls
    ensures var n := Step(s, a); c in s.calls ==> n.calls[c] == s.calls[c].(cancelled := n.calls[c].cancelled)
  {
    hide InfoAlive;
  }

  lemma OthersKeepCall(s: State, a: Action, c: CallId)
    requires Enabled(s, a) && !Outside(a) && Actor(a) != c
    ensures var n := Step(s, a); c in n.calls <==> c in s.calls
    ensures var n := Step(s, a); c in s.calls ==> n.calls[c] == s.calls[c]
  {
  }

  lemma OwnCall(s: State, a: Action)
    requires Enabled(s, a) && !Outside(a)
    ensures var n, c := Step(s, a), Actor(a);
            && c in n.calls
            && (c in s.calls ==> n.calls[c].co == s.calls[c].co && n.calls[c].slot == s.calls[c].slot)
            && (c in s.calls && a != AddOk(c) && Waiting(n.calls[c].phase) ==> Waiting(s.calls[c].phase))
  {
  }

  /** A call keeps its coroutine and its slot, and only its own addEvent makes it wait. */
  lemma StepOfCall(s: State, a: Action, c: CallId)
    requires Enabled(s, a) && c in s.calls
    ensures var n := Step(s, a);
            && c in n.calls && n.calls[c].co == s.calls[c].co && n.calls[c].slot == s.calls[c].slot
            && (a != AddOk(c) && Waiting(n.calls[c].phase) ==> Waiting(s.calls[c].phase))
  {
    hide Step, Enabled;
    if Outside(a) {
      OutsideKeepsCall(s, a, c);
    } else if Actor(a) != c {
      OthersKeepCall(s, a, c);
    } else {
      OwnCall(s, a);
    }
  }

  /** A call is marked once, by the callback that tests it. */
  lemma StepOfMark(s: State, a: Action, c: CallId)
    requires Enabled(s, a) && c in s.calls
    ensures var n := Step(s, a);
            if a.Check? && s.timers[a.t].call == c && s.calls[c].cancelled.None?
            then n.calls[c].cancelled == Some(a.t) && n.timers[a.t].stage == Marked
            else n.calls[c].cancelled == s.calls[c].cancelled
  {
  }

  /** Only addEvent arms a slot, and a cancellation clears its call's slot. */
  lemma StepOfSlot(s: State, a: Action, slot: SlotId)
    requires Enabled(s, a) && slot in Step(s, a).slots
    ensures var n := Step(s, a);
            if slot in s.slots && n.slots[slot] == s.slots[slot]
            then a.Cancel? ==> s.calls[s.timers[a.t].call].slot != slot
            else a.AddOk? && s.calls[a.c].slot == slot && n.slots[slot] == s.calls[a.c].co
  {
  }

  /** Only its own addEvent registers a waiting call, and a cancellation by its own timer ends that. */
  lemma StepOfHold(s: State, a: Action, c: CallId)
    requires CurrentCalls(s.calls, s.current) && Enabled(s, a) && c in s.calls && a != AddOk(c)
    requires var n := Step(s, a); c in n.calls && Waiting(n.calls[c].phase) && Holds(n.calls[c], n.slots)
    ensures Waiting(s.calls[c].phase) && Holds(s.calls[c], s.slots)
    ensures a.Cancel? ==> s.timers[a.t].call != c
  {
    StepOfCall(s, a, c);
    StepOfSlot(s, a, s.calls[c].slot);
    hide Step;
  }

  /** A new timer belongs to a call and is not over. */
  lemma StepOfNewTimer(s: State, a: Action, t: TimerId)
    requires Inv(s) && Enabled(s, a) && t !in s.timers && t in Step(s, a).timers
    ensures var n := Step(s, a); n.timers[t].stage == Live && n.timers[t].call in n.calls
    ensures var n := Step(s, a); n.calls[n.timers[t].call].cancelled != Some(t)
  {
    hide CurrentCalls, OneWakeUp, TimersOwned, TimeoutPending;
  }

  /** A timer that its step creates. */
  lemma StepBeginsHistory(actions: seq<Action>, s: State, a: Action, t: TimerId)
    requires Inv(s) && Enabled(s, a) && CancelHistory(actions, s, t) && t !in s.timers
    ensures CancelHistory(actions + [a], Step(s, a), t)
  {
    assert Cancel(t) in actions + [a] <==> Cancel(t) in actions || a == Cancel(t);
    if t in Step(s, a).timers {
      StepOfNewTimer(s, a, t);
    }
    hide Inv, BeforeLastAdd;
  }

  /** A call that is registered and waits after a step was before, but for its own addEvent. */
  lemma HoldBefore(s: State, a: Action, c: CallId)
    requires Inv(s) && Enabled(s, a) && c in s.calls && c in Step(s, a).calls
    ensures var n := Step(s, a);
            Waiting(n.calls[c].phase) && Holds(n.calls[c], n.slots) ==>
              a == AddOk(c) || (Waiting(s.calls[c].phase) && Holds(s.calls[c], s.slots)
                                && (a.Cancel? ==> s.timers[a.t].call != c))
  {
    var n := Step(s, a);
    if Waiting(n.calls[c].phase) && Holds(n.calls[c], n.slots) && a != AddOk(c) {
      StepOfHold(s, a, c);
    }
    hide Step, OneWakeUp, TimersOwned, Marks, TimeoutPending;
  }

  lemma StepKeepsHistory(actions: seq<Action>, s: State, a: Action, t: TimerId)
    requires Inv(s) && Enabled(s, a) && CancelHistory(actions, s, t)
    ensures CancelHistory(actions + [a], Step(s, a), t)
  {
    if t !in s.timers {
      StepBeginsHistory(actions, s, a, t);
    } else {
      assert Cancel(t) in actions + [a] <==> Cancel(t) in actions || a == Cancel(t);
      var c := s.timers[t].call;
      assert c in s.calls;
      StepOfStage(s, a, t);
      StepOfCall(s, a, c);
      StepOfMark(s, a, c);
      HoldBefore(s, a, c);
      BeforeLastAddMore(actions, a, c);
      hide Inv, Step, Enabled, BeforeLastAdd, Holds, Waiting;
    }
  }

  lemma {:induction false} RunKeepsHistory(actions: seq<Action>, t: TimerId)
    requires Run(actions).Some?
    ensures CancelHistory(actions, Run(actions).value, t)
  {
    if actions != [] {
      var before, a := actions[..|actions| - 1], actions[|actions| - 1];
      assert actions == before + [a];
      RunKeepsInv(before);
      RunKeepsHistory(before, t);
      StepKeepsHistory(before, Run(before).value, a, t);
    }
  }

  /** A timed call's Again creates the timer it names. */
  lemma {:induction false} AgainCreates(actions: seq<Action>, c: CallId, t: TimerId)
    requires Run(actions).Some? && Again(c, t) in actions
    ensures var s := Run(actions).value;
            c in s.calls && (s.calls[c].timed ==> t in s.timers && s.timers[t].call == c)
  {
    var before, a := actions[..|actions| - 1], actions[|actions| - 1];
    assert actions == before + [a];
    if a != Again(c, t) {
      AgainCreates(before, c, t);
    }
  }

  /** In every reachable state a timed call that waits registered will never time out iff one of its
      own timers had already cancelled when it registered. */
  lemma LostIffCancelledTooSoon(actions: seq<Action>, c: CallId)
    requires Run(actions).Some? && At(Run(actions).value, c, Suspended)
    requires var s := Run(actions).value; s.calls[c].timed && Holds(s.calls[c], s.slots)
    ensures !CanStillTimeOut(Run(actions).value, c) <==>
            exists t :: Again(c, t) in actions && Cancel(t) in BeforeLastAdd(actions, c)
  {
    var s := Run(actions).value;
    RunKeepsInv(actions);
    TimeoutStillComing(s, c);
    if !CanStillTimeOut(s, c) {
      var t := s.calls[c].cancelled.value;
      RunKeepsHistory(actions, t);
      TimersHaveHistory(actions, t);
      assert Again(c, t) in actions && Cancel(t) in BeforeLastAdd(actions, c);
    }
    if t :| Again(c, t) in actions && Cancel(t) in BeforeLastAdd(actions, c) {
      BeforeLastAddIsBefore(actions, c, Cancel(t));
      RunKeepsHistory(actions, t);
      AgainCreates(actions, c, t);
    }
  }

  /** A timer that fires before addEvent has nothing to cancel. */
  lemma CancelledTooSoon() returns (run: seq<Action>, s: State)
    ensures Run(run) == Some(s)
    ensures s == State(map[0 := Call(10, 7, true, TimerSet, Some(100), Some(100))], map[100 := Timeout(0, Over, true)],
                       map[], multiset{}, map[10 := 0])
  {
    run, s := TimerIsSet();
    hide Run;
    run, s := Go(run, s, Expire(100));
    run, s := Go(run, s, Lock(100));
    run, s := Go(run, s, Check(100));
    run, s := Go(run, s, Cancel(100));
  }

  /** The call then waits with a mark and no timer. */
  lemma EarlyTimeoutIsLost() returns (run: seq<Action>, s: State)
    ensures Run(run) == Some(s)
    ensures At(s, 0, Suspended) && s.calls[0].timed && Holds(s.calls[0], s.slots) && !CanStillTimeOut(s, 0)
  {
    run, s := CancelledTooSoon();
    hide Run;
    run, s := Go(run, s, AddOk(0));
    run, s := Go(run, s, Yield(0));
  }

  /** Once lost, no step of any of its timers wakes the call, and it stays lost. */
  lemma LostStaysLost(s: State, c: CallId, a: Action)
    requires Inv(s) && Enabled(s, a)
    requires c in s.calls && s.calls[c].timed && s.calls[c].phase.Suspended? && Holds(s.calls[c], s.slots)
    requires !CanStillTimeOut(s, c)
    requires (a.Expire? || a.Lock? || a.Check? || a.Cancel?) && s.timers[a.t].call == c
    ensures var n := Step(s, a);
            n.calls[c] == s.calls[c] && Holds(n.calls[c], n.slots) && !CanStillTimeOut(n, c)
  {
    TimeoutStillComing(s, c);
  }
}
