/**
 * What a call of do_io in src/hook.cpp reports, over whole runs: its verdict after a wake-up, how it
 * has ended, and that it can always go on.
 */
module HookedVerdicts {
  import opened Prelude
  import opened HookedIo
  import opened HookedTimeouts
  import opened HookedCallbacks
  import opened HookedLate

  // ----- The verdict -----------------------------------------------------------

  /** A callback of the call has come to its test of the mark. */
  ghost predicate TimeoutCame(actions: seq<Action>, s: State, c: CallId) {
    exists t <- s.timers :: s.timers[t].call == c && Check(t) in actions
  }

  /** What one step does to the mark of a call. */
  lemma StepMarks(s: State, a: Action, c: CallId)
    requires Enabled(s, a) && c in Step(s, a).calls
    ensures var n := Step(s, a);
            n.calls[c].cancelled.Some? <==>
              c in s.calls && (s.calls[c].cancelled.Some? || (a.Check? && s.timers[a.t].call == c))
  {
    if c in s.calls {
      StepOfMark(s, a, c);
      hide Step;
    } else {
      StepOfNewCall(s, a, c);
      hide Step;
    }
  }

  lemma StepOfNewCall(s: State, a: Action, c: CallId)
    requires Enabled(s, a) && c in Step(s, a).calls && c !in s.calls
    ensures a.Begin? && Step(s, a).calls[c].cancelled.None? && Step(s, a).calls[c].phase == Trying
  {
    if Outside(a) {
      OutsideKeepsCall(s, a, c);
    } else if Actor(a) != c {
      OthersKeepCall(s, a, c);
    }
    hide InfoAlive;
  }

  /** A timer belongs to one call for good, and is there before its callback tests. */
  lemma StepKeepsOwner(s: State, a: Action, t: TimerId)
    requires Enabled(s, a)
    ensures t in s.timers ==> t in Step(s, a).timers && Step(s, a).timers[t].call == s.timers[t].call
    ensures a == Check(t) ==> t in s.timers
  {
    if t in s.timers {
      StepOfStage(s, a, t);
    }
    hide Step;
  }

  lemma {:induction false} TestedTimerIsThere(actions: seq<Action>, t: TimerId)
    requires Run(actions).Some? && Check(t) in actions
    ensures t in Run(actions).value.timers
  {
    var before, a := actions[..|actions| - 1], actions[|actions| - 1];
    assert actions == before + [a];
    hide Step, Enabled;
    if a != Check(t) {
      TestedTimerIsThere(before, t);
    }
    StepKeepsOwner(Run(before).value, a, t);
  }

  lemma StepOfTimeoutCame(before: seq<Action>, s: State, a: Action, c: CallId)
    requires Run(before) == Some(s) && Enabled(s, a)
    ensures TimeoutCame(before + [a], Step(s, a), c) <==>
            TimeoutCame(before, s, c) || (a.Check? && s.timers[a.t].call == c)
  {
    var n, actions := Step(s, a), before + [a];
    hide Step, Enabled;
    if t :| t in s.timers && s.timers[t].call == c && Check(t) in before {
      StepKeepsOwner(s, a, t);
      assert t in n.timers && Check(t) in actions;
    }
    if a.Check? && s.timers[a.t].call == c {
      StepKeepsOwner(s, a, a.t);
      assert a.t in n.timers && Check(a.t) in actions;
    }
    if t :| t in n.timers && n.timers[t].call == c && Check(t) in actions {
      if Check(t) in before {
        TestedTimerIsThere(before, t);
      }
      StepKeepsOwner(s, a, t);
    }
  }

  /** In every reachable state a call is marked iff one of its callbacks has come to its test. */
  lemma {:induction false} MarkedIffTimeoutCame(actions: seq<Action>, c: CallId)
    requires Run(actions).Some? && c in Run(actions).value.calls
    ensures Run(actions).value.calls[c].cancelled.Some? <==> TimeoutCame(actions, Run(actions).value, c)
  {
    var before, a := actions[..|actions| - 1], actions[|actions| - 1];
    var s := Run(before).value;
    assert actions == before + [a];
    StepMarks(s, a, c);
    StepOfTimeoutCame(before, s, a, c);
    hide Step, Enabled, TimeoutCame;
    if c in s.calls {
      MarkedIffTimeoutCame(before, c);
    } else {
      NothingTested(before, c);
    }
  }

  /** Nothing has been tested for a call that has not begun. */
  lemma NothingTested(actions: seq<Action>, c: CallId)
    requires Run(actions).Some? && c !in Run(actions).value.calls
    ensures !TimeoutCame(actions, Run(actions).value, c)
    ensures forall t <- Run(actions).value.timers :: Run(actions).value.timers[t].call != c
  {
    RunKeepsInv(actions);
    hide Run;
  }

  /** After a wake-up a call reports ETIMEDOUT iff one of its callbacks has come to its test, and makes
      its system call again otherwise. */
  lemma VerdictIsTimeout(actions: seq<Action>, c: CallId)
    requires Run(actions + [Verdict(c)]).Some?
    ensures Run(actions).Some?
    ensures At(Run(actions + [Verdict(c)]).value, c,
               if TimeoutCame(actions, Run(actions).value, c) then Done(TimedOut) else Trying)
  {
    assert (actions + [Verdict(c)])[..|actions|] == actions;
    MarkedIffTimeoutCame(actions, c);
    hide TimeoutCame;
  }

  // ----- How calls have ended --------------------------------------------------

  lemma StepOfResult(s: State, a: Action, c: CallId)
    requires Enabled(s, a) && c in Step(s, a).calls
    ensures var n := Step(s, a);
            && (n.calls[c].phase == Done(Returned) <==> At(s, c, Done(Returned)) || a == Return(c))
            && (n.calls[c].phase == Done(AddFailed) <==> At(s, c, Done(AddFailed)) || a == AddFail(c))
            && (n.calls[c].phase == Done(TimedOut) ==> At(s, c, Done(TimedOut)) || a == Verdict(c))
  {
    if c !in s.calls {
      StepOfNewCall(s, a, c);
      BegunBefore(s, a, c);
      hide Step, Enabled;
    } else if Outside(a) {
      OutsideKeepsCall(s, a, c);
      hide Step, Enabled;
    } else if Actor(a) != c {
      OthersKeepCall(s, a, c);
      hide Step, Enabled;
    } else {
      OwnResult(s, a);
      hide Step, Enabled;
    }
  }

  lemma BegunBefore(s: State, a: Action, c: CallId)
    requires Enabled(s, a) && c !in s.calls
    ensures a != Return(c) && a != AddFail(c) && a != Verdict(c)
  {
  }

  lemma OwnResult(s: State, a: Action)
    requires Enabled(s, a) && !Outside(a)
    ensures var n, c := Step(s, a), Actor(a);
            && c in n.calls
            && (n.calls[c].phase == Done(Returned) <==> a == Return(c))
            && (n.calls[c].phase == Done(AddFailed) <==> a == AddFail(c))
            && (n.calls[c].phase == Done(TimedOut) ==> a == Verdict(c))
            && (c in s.calls ==> !s.calls[c].phase.Done?)
  {
  }

  /** In every reachable state a call has returned with what the system call said iff that step of its
      has come, and with the failure of addEvent iff that has; it reports ETIMEDOUT only if its timeout
      came. */
  lemma {:induction false} ResultTellsTheEnd(actions: seq<Action>, c: CallId)
    requires Run(actions).Some?
    ensures At(Run(actions).value, c, Done(Returned)) <==> Return(c) in actions
    ensures At(Run(actions).value, c, Done(AddFailed)) <==> AddFail(c) in actions
    ensures At(Run(actions).value, c, Done(TimedOut)) ==> Verdict(c) in actions && TimeoutCame(actions, Run(actions).value, c)
  {
    if actions != [] {
      var before, a := actions[..|actions| - 1], actions[|actions| - 1];
      var s := Run(before).value;
      assert actions == before + [a];
      ResultTellsTheEnd(before, c);
      CallsStay(s, a, c);
      if c in Step(s, a).calls {
        StepOfResult(s, a, c);
        RunKeepsInv(actions);
        MarkedIffTimeoutCame(actions, c);
      }
      hide Step, Enabled, TimeoutCame;
    }
  }

  lemma CallsStay(s: State, a: Action, c: CallId)
    requires Enabled(s, a)
    ensures c in s.calls ==> c in Step(s, a).calls
    ensures a == Return(c) || a == AddFail(c) || a == Verdict(c) ==> c in s.calls
  {
    if c in s.calls {
      StepOfCall(s, a, c);
      hide Step;
    } else {
      BegunBefore(s, a, c);
    }
  }

  // ----- Going on --------------------------------------------------------------

  /** A waiting call whose timeout can still come can be brought by its own timers' steps, and the steps
      of its return, to report it. */
  lemma TimeoutIsReported(s: State, c: CallId) returns (own: seq<Action>, n: State)
    requires Inv(s) && WaitsTimed(s, c) && CanStillTimeOut(s, c)
    ensures OwnSteps(s.timers, c, own)
    ensures RunFrom(s, own + [Resume(c), StopTimer(c), Verdict(c)]) == Some(n) && At(n, c, Done(TimedOut))
  {
    var t :| t in s.timers && s.timers[t].call == c
             && (s.timers[t].stage == Marked || (s.calls[c].cancelled.None? && MayMark(s.timers[t].stage)));
    own := TimerWakes(s, c, t);
    OwnStepsMark(s, c, own);
    var m := RunFrom(s, own).value;
    n := Reports(s, c, own, m);
  }

  /** While only its own timers take steps, a call keeps waiting, and loses its registration only to one
      that has marked it. */
  lemma {:induction false} OwnStepsMark(s: State, c: CallId, own: seq<Action>)
    requires Inv(s) && At(s, c, Suspended) && OwnSteps(s.timers, c, own) && RunFrom(s, own).Some?
    requires s.calls[c].cancelled.None? ==> Holds(s.calls[c], s.slots)
    ensures var n := RunFrom(s, own).value;
            && Inv(n) && At(n, c, Suspended) && n.calls[c].co == s.calls[c].co
            && (n.calls[c].cancelled.None? ==> Holds(n.calls[c], n.slots))
    decreases |own|
  {
    if own != [] {
      var a := own[0];
      assert OwnStep(s.timers, c, a);
      OwnStepMarks(s, c, a);
      StepKeepsInv(s, a);
      OwnStepsStay(s, c, a, own[1..]);
      hide Inv, Step, Enabled, OwnStep;
      OwnStepsMark(Step(s, a), c, own[1..]);
    }
  }

  lemma OwnStepMarks(s: State, c: CallId, a: Action)
    requires Inv(s) && At(s, c, Suspended) && OwnStep(s.timers, c, a) && Enabled(s, a)
    requires s.calls[c].cancelled.None? ==> Holds(s.calls[c], s.slots)
    ensures var n := Step(s, a);
            && At(n, c, Suspended) && n.calls[c].co == s.calls[c].co
            && (n.calls[c].cancelled.None? ==> Holds(n.calls[c], n.slots))
  {
    hide CurrentCalls, OneWakeUp, TimersOwned, TimeoutPending, InfoAlive;
  }

  lemma ResumeGoes(s: State, c: CallId)
    requires At(s, c, Suspended) && s.calls[c].co in s.ready
    ensures Enabled(s, Resume(c)) && Step(s, Resume(c)).calls == s.calls[c := s.calls[c].(phase := Resumed)]
  {
  }

  lemma StopGoes(s: State, c: CallId)
    requires At(s, c, Resumed)
    ensures Enabled(s, StopTimer(c)) && Step(s, StopTimer(c)).calls == s.calls[c := s.calls[c].(phase := Checking)]
  {
  }

  lemma VerdictGoes(s: State, c: CallId)
    requires At(s, c, Checking)
    ensures Enabled(s, Verdict(c))
    ensures At(Step(s, Verdict(c)), c, if s.calls[c].cancelled.Some? then Done(TimedOut) else Trying)
  {
  }

  /** A marked call that has been scheduled returns. */
  lemma Reports(s: State, c: CallId, own: seq<Action>, m: State) returns (n: State)
    requires RunFrom(s, own) == Some(m) && Inv(m) && At(m, c, Suspended) && m.calls[c].co in m.ready
    requires m.calls[c].cancelled.None? ==> Holds(m.calls[c], m.slots)
    ensures RunFrom(s, own + [Resume(c), StopTimer(c), Verdict(c)]) == Some(n) && At(n, c, Done(TimedOut))
  {
    hide Inv, RunFrom, Step, Enabled;
    if Holds(m.calls[c], m.slots) {
      RegisteredNotScheduled(m, c);
    }
    var more;
    ResumeGoes(m, c);
    more, n := GoFrom(s, own, m, Resume(c));
    StopGoes(n, c);
    more, n := GoFrom(s, more, n, StopTimer(c));
    VerdictGoes(n, c);
    more, n := GoFrom(s, more, n, Verdict(c));
    ThreeMore(own, Resume(c), StopTimer(c), Verdict(c));
  }

  lemma ThreeMore(own: seq<Action>, x: Action, y: Action, z: Action)
    ensures own + [x] + [y] + [z] == own + [x, y, z]
  {
  }

  function StepsToEnd(p: Phase): nat {
    match p
    case Armed => 5
    case Suspended => 4
    case Resumed => 3
    case Checking => 2
    case Done(_) => 0
    case _ => 1
  }

  /** What takes a call on towards its end: its own next step, or readiness if it is registered. */
  function Onward(s: State, c: CallId): Action
    requires c in s.calls
  {
    match s.calls[c].phase
    case Armed => Yield(c)
    case Suspended => Resume(c)
    case Resumed => StopTimer(c)
    case Checking => Verdict(c)
    case TimerSet => AddFail(c)
    case _ => Return(c)
  }

  lemma EndsGo(s: State, c: CallId)
    ensures At(s, c, Trying) ==> Enabled(s, Return(c)) && At(Step(s, Return(c)), c, Done(Returned))
    ensures At(s, c, TimerSet) ==> Enabled(s, AddFail(c)) && At(Step(s, AddFail(c)), c, Done(AddFailed))
    ensures At(s, c, Armed) ==> Enabled(s, Yield(c)) && At(Step(s, Yield(c)), c, Suspended)
  {
  }

  lemma ReleasedIsScheduled(s: State, c: CallId)
    requires Inv(s) && At(s, c, Suspended) && !Holds(s.calls[c], s.slots)
    ensures s.calls[c].co in s.ready
  {
    assert CallWakeUps(s.calls[c], s.slots, s.ready);
  }

  lemma OnwardGoes(s: State, c: CallId)
    requires Inv(s) && c in s.calls && !s.calls[c].phase.Done?
    requires s.calls[c].phase == Suspended ==> !Holds(s.calls[c], s.slots)
    ensures var a := Onward(s, c);
            Enabled(s, a) && var n := Step(s, a); c in n.calls && StepsToEnd(n.calls[c].phase) < StepsToEnd(s.calls[c].phase)
  {
    hide Inv, Step, Enabled, Holds;
    match s.calls[c].phase
    case Suspended =>
      ReleasedIsScheduled(s, c);
      ResumeGoes(s, c);
    case Resumed => StopGoes(s, c);
    case Checking => VerdictGoes(s, c);
    case _ => EndsGo(s, c);
  }

  /** A registered call can be woken by readiness. */
  lemma WakeReleases(s: State, c: CallId)
    requires At(s, c, Suspended) && Holds(s.calls[c], s.slots)
    ensures var a := Wake(s.calls[c].slot);
            Enabled(s, a) && Step(s, a).calls == s.calls && !Holds(s.calls[c], Step(s, a).slots)
  {
  }

  /** From every reachable state every call can be brought to its return: nothing deadlocks. */
  lemma {:induction false} CanReturn(s: State, c: CallId) returns (more: seq<Action>, n: State)
    requires Inv(s) && c in s.calls
    ensures RunFrom(s, more) == Some(n) && c in n.calls && n.calls[c].phase.Done?
    decreases StepsToEnd(s.calls[c].phase), if Holds(s.calls[c], s.slots) then 1 else 0
  {
    if s.calls[c].phase.Done? {
      more, n := [], s;
    } else {
      var a := if s.calls[c].phase == Suspended && Holds(s.calls[c], s.slots) then Wake(s.calls[c].slot) else Onward(s, c);
      if a.Wake? {
        WakeReleases(s, c);
      } else {
        OnwardGoes(s, c);
      }
      StepKeepsInv(s, a);
      hide Inv, Step, Enabled, Holds, Onward, StepsToEnd;
      var rest;
      rest, n := CanReturn(Step(s, a), c);
      more := [a] + rest;
      assert more[1..] == rest;
    }
  }
}
