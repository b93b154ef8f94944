/**
 * What the timeout callbacks of do_io in src/hook.cpp can still do for a call that waits.
 */
module HookedCallbacks {
  import opened Prelude
  import opened HookedIo
  import opened HookedTimeouts

  // ----- What its own timers can do for a waiting call -------------------------

  /** The state after some more steps; None if one of them was not enabled. */
  function RunFrom(s: State, actions: seq<Action>): Option<State>
    decreases |actions|
  {
    if actions == [] then Some(s)
    else if Enabled(s, actions[0]) then RunFrom(Step(s, actions[0]), actions[1..])
    else None
  }

  /** A step of one of the call's own timers. */
  predicate OwnStep(timers: Timers, c: CallId, a: Action) {
    (a.Expire? || a.Lock? || a.Check? || a.Cancel?) && a.t in timers && timers[a.t].call == c
  }

  ghost predicate OwnSteps(timers: Timers, c: CallId, actions: seq<Action>) {
    forall a <- actions :: OwnStep(timers, c, a)
  }

  /** A call that its own timers, with nobody else's help, can bring to be scheduled. */
  ghost predicate CanBeWoken(s: State, c: CallId)
    requires c in s.calls
  {
    exists actions :: OwnSteps(s.timers, c, actions) && WokenBy(s, s.calls[c].co, actions)
  }

  predicate WokenBy(s: State, co: Coroutine, actions: seq<Action>) {
    var n := RunFrom(s, actions);
    n.Some? && co in n.value.ready
  }

  /** A timed call switched out and registered on its slot. */
  predicate WaitsTimed(s: State, c: CallId) {
    At(s, c, Suspended) && s.calls[c].timed && Holds(s.calls[c], s.slots)
  }

  /** Own steps stay own steps. */
  lemma OwnStepsStay(s: State, c: CallId, a: Action, actions: seq<Action>)
    requires Enabled(s, a) && OwnStep(s.timers, c, a)
    ensures var n := Step(s, a); OwnSteps(s.timers, c, actions) <==> OwnSteps(n.timers, c, actions)
  {
    var n := Step(s, a);
    assert forall b :: OwnStep(s.timers, c, b) <==> OwnStep(n.timers, c, b);
  }

  function StepsLeft(stage: Stage): nat {
    match stage
    case Live => 3
    case Fired => 2
    case Locked => 1
    case _ => 0
  }

  /** What a timer does next. */
  function NextStep(t: TimerId, stage: Stage): Action {
    match stage
    case Live => Expire(t)
    case Fired => Lock(t)
    case Locked => Check(t)
    case _ => Cancel(t)
  }

  /** The steps of a timer that can still mark its call, up to the mark. */
  lemma NextStepGoesOn(s: State, c: CallId, t: TimerId)
    requires WaitsTimed(s, c) && t in s.timers && s.timers[t].call == c
    requires MayMark(s.timers[t].stage) && s.calls[c].cancelled.None?
    ensures var stage := s.timers[t].stage;
            var a := NextStep(t, stage);
            && Enabled(s, a) && OwnStep(s.timers, c, a)
            && var n := Step(s, a);
               && WaitsTimed(n, c) && n.calls[c].co == s.calls[c].co && t in n.timers && n.timers[t].call == c
               && StepsLeft(n.timers[t].stage) < StepsLeft(stage)
               && (n.timers[t].stage == Marked || (MayMark(n.timers[t].stage) && n.calls[c].cancelled.None?))
  {
  }

  /** Left to itself, a timer that can still time its call out expires, marks it and wakes it. */
  lemma {:induction false} TimerWakes(s: State, c: CallId, t: TimerId) returns (actions: seq<Action>)
    requires Inv(s) && WaitsTimed(s, c) && t in s.timers && s.timers[t].call == c
    requires s.timers[t].stage == Marked || (MayMark(s.timers[t].stage) && s.calls[c].cancelled.None?)
    ensures OwnSteps(s.timers, c, actions) && WokenBy(s, s.calls[c].co, actions)
    decreases StepsLeft(s.timers[t].stage)
  {
    var a := NextStep(t, s.timers[t].stage);
    if s.timers[t].stage == Marked {
      CancelIsLastChance(s, t);
      actions := [a];
      assert RunFrom(Step(s, a), actions[1..]) == Some(Step(s, a));
    } else {
      NextStepGoesOn(s, c, t);
      StepKeepsInv(s, a);
      var rest := TimerWakes(Step(s, a), c, t);
      OwnStepsStay(s, c, a, rest);
      actions := [a] + rest;
      assert actions[1..] == rest;
    }
  }

  lemma RegisteredNotScheduled(s: State, c: CallId)
    requires Inv(s) && c in s.calls && Waiting(s.calls[c].phase) && Holds(s.calls[c], s.slots)
    ensures s.calls[c].co !in s.ready
  {
    assert CallWakeUps(s.calls[c], s.slots, s.ready);
  }

  /** However many steps its own timers take, a lost call is not scheduled. */
  lemma {:induction false} LostForGood(s: State, c: CallId, actions: seq<Action>)
    requires Inv(s) && WaitsTimed(s, c) && !CanStillTimeOut(s, c) && OwnSteps(s.timers, c, actions)
    ensures !WokenBy(s, s.calls[c].co, actions)
    decreases |actions|
  {
    hide Inv, Step, Enabled, CanStillTimeOut;
    if actions == [] {
      RegisteredNotScheduled(s, c);
    } else if Enabled(s, actions[0]) {
      var a := actions[0];
      assert OwnStep(s.timers, c, a);
      StepOfCall(s, a, c);
      LostStaysLost(s, c, a);
      StepKeepsInv(s, a);
      OwnStepsStay(s, c, a, actions[1..]);
      LostForGood(Step(s, a), c, actions[1..]);
    }
  }

  /** A waiting timed call can still time out iff its own timers alone can bring it to be scheduled. */
  lemma CanStillMeansWillWake(s: State, c: CallId)
    requires Inv(s) && WaitsTimed(s, c)
    ensures CanStillTimeOut(s, c) <==> CanBeWoken(s, c)
  {
    if CanStillTimeOut(s, c) {
      var t :| t in s.timers && s.timers[t].call == c
               && (s.timers[t].stage == Marked || (s.calls[c].cancelled.None? && MayMark(s.timers[t].stage)));
      var actions := TimerWakes(s, c, t);
    } else {
      forall actions | OwnSteps(s.timers, c, actions) ensures !WokenBy(s, s.calls[c].co, actions) {
        LostForGood(s, c, actions);
      }
    }
  }

  /** In every reachable state the timers of a waiting timed call cannot bring it to be scheduled iff one
      of them had already cancelled when the call registered. */
  lemma NeverWokenIffCancelledTooSoon(actions: seq<Action>, c: CallId)
    requires Run(actions).Some? && WaitsTimed(Run(actions).value, c)
    ensures !CanBeWoken(Run(actions).value, c) <==>
            exists t :: Again(c, t) in actions && Cancel(t) in BeforeLastAdd(actions, c)
  {
    RunKeepsInv(actions);
    CanStillMeansWillWake(Run(actions).value, c);
    LostIffCancelledTooSoon(actions, c);
  }
}
