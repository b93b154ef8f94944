/**
 * Where the callback of a timer of do_io (src/hook.cpp) stands in any run, told by the steps taken so far.
 */
module HookedStages {
  import opened Prelude
  import opened HookedIo
  import opened HookedTimeouts

  /** A timer that has expired has its callback handed out, and nothing takes that back: it waits to lock
      `tinfo` until it does. */
  ghost predicate HandedOutTold(actions: seq<Action>, s: State, t: TimerId)
    requires t in s.timers
  {
    var stage := s.timers[t].stage;
    && (s.timers[t].expired <==> Expire(t) in actions)
    && (stage == Live ==> Expire(t) !in actions)
    && (stage == Fired <==> Expire(t) in actions && Lock(t) !in actions)
    && (Lock(t) in actions ==> Expire(t) in actions)
  }

  /** A callback that holds `tinfo` before its test has not come to that, and one that has set the mark
      has yet to cancel until it does. */
  ghost predicate MarkTold(actions: seq<Action>, s: State, t: TimerId)
    requires t in s.timers
  {
    var stage, c := s.timers[t].stage, s.timers[t].call;
    var marks := c in s.calls && s.calls[c].cancelled == Some(t);
    && (stage == Locked ==> Lock(t) in actions && Check(t) !in actions)
    && (stage == Live || stage == Fired ==> Check(t) !in actions)
    && (stage == Marked <==> marks && Cancel(t) !in actions)
    && (marks ==> Check(t) in actions)
    && (Check(t) in actions ==> Lock(t) in actions)
    && (Cancel(t) in actions ==> Check(t) in actions)
  }

  /** How a step moves a timer, whoever takes it. */
  lemma StageMoves(s: State, a: Action, t: TimerId)
    requires Enabled(s, a) && t in s.timers
    ensures t in Step(s, a).timers
    ensures var was, stage := s.timers[t].stage, Step(s, a).timers[t].stage;
            && (a == Expire(t) ==> was == Live && stage == Fired)
            && (a == Lock(t) ==> was == Fired && (stage == Locked || stage == Over))
            && (a == Check(t) ==> was == Locked && (stage == Marked || stage == Over))
            && (a == Cancel(t) ==> was == Marked && stage == Over)
            && (a != Expire(t) && a != Lock(t) && a != Check(t) && a != Cancel(t) ==>
                  stage == was || (was == Live && stage == Over))
            && (Step(s, a).timers[t].expired <==> s.timers[t].expired || a == Expire(t))
            && Step(s, a).timers[t].call == s.timers[t].call
  {
    StageBefore(s, a, t);
    if Outside(a) {
      OutsideStage(s, a, t);
    } else {
      CallStage(s, a, t);
    }
    hide Step, Enabled;
  }

  lemma OutsideStage(s: State, a: Action, t: TimerId)
    requires Enabled(s, a) && Outside(a) && t in s.timers
    ensures t in Step(s, a).timers && Step(s, a).timers[t].call == s.timers[t].call
    ensures Step(s, a).timers[t].expired <==> s.timers[t].expired || a == Expire(t)
    ensures var stage := Step(s, a).timers[t].stage;
            && (a == Expire(t) ==> stage == Fired) && (a == Lock(t) ==> stage == Locked || stage == Over)
            && (a == Check(t) ==> stage == Marked || stage == Over) && (a == Cancel(t) ==> stage == Over)
            && (a.Wake? || a.t != t ==> stage == s.timers[t].stage)
  {
    hide InfoAlive;
  }

  lemma CallStage(s: State, a: Action, t: TimerId)
    requires Enabled(s, a) && !Outside(a) && t in s.timers
    ensures t in Step(s, a).timers && Step(s, a).timers[t].call == s.timers[t].call
    ensures Step(s, a).timers[t].expired <==> s.timers[t].expired
    ensures var was, stage := s.timers[t].stage, Step(s, a).timers[t].stage; stage == was || (was == Live && stage == Over)
  {
  }

  lemma NewTimerIsLive(s: State, a: Action, t: TimerId)
    requires Enabled(s, a) && t !in s.timers && t in Step(s, a).timers
    ensures Step(s, a).timers[t].stage == Live && !Step(s, a).timers[t].expired
    ensures a != Expire(t) && a != Lock(t) && a != Check(t) && a != Cancel(t)
  {
  }

  lemma MarkerIs(s: State, a: Action, t: TimerId)
    requires Inv(s) && Enabled(s, a) && t in s.timers
    ensures var c := s.timers[t].call; c in s.calls && c in Step(s, a).calls
    ensures var c := s.timers[t].call;
            var was, mark := s.calls[c].cancelled, Step(s, a).calls[c].cancelled;
            && (mark == Some(t) <==> was == Some(t) || (a == Check(t) && was.None?))
            && (a == Check(t) ==> (Step(s, a).timers[t].stage == Marked <==> was.None?))
  {
    var c := s.timers[t].call;
    assert c in s.calls;
    StepOfMark(s, a, c);
    StepOfCall(s, a, c);
    hide Inv, InfoAlive;
  }

  lemma {:induction false} TimersAreTold(actions: seq<Action>, t: TimerId)
    requires Run(actions).Some?
    ensures t !in Run(actions).value.timers ==> Untouched(actions, t)
    ensures t in Run(actions).value.timers ==>
              HandedOutTold(actions, Run(actions).value, t) && MarkTold(actions, Run(actions).value, t)
  {
    if actions != [] {
      var before, a := actions[..|actions| - 1], actions[|actions| - 1];
      var s := Run(before).value;
      assert actions == before + [a];
      TimersAreTold(before, t);
      RunKeepsInv(before);
      StageStays(before, s, a, t);
    }
  }

  lemma HandedOutStays(before: seq<Action>, s: State, a: Action, t: TimerId)
    requires Enabled(s, a) && t in s.timers && HandedOutTold(before, s, t)
    ensures t in Step(s, a).timers && HandedOutTold(before + [a], Step(s, a), t)
  {
    assert Expire(t) in before + [a] <==> Expire(t) in before || a == Expire(t);
    assert Lock(t) in before + [a] <==> Lock(t) in before || a == Lock(t);
    StageMoves(s, a, t);
    hide Step, Enabled;
  }

  lemma MarkStays(before: seq<Action>, s: State, a: Action, t: TimerId)
    requires Inv(s) && Enabled(s, a) && t in s.timers && HandedOutTold(before, s, t) && MarkTold(before, s, t)
    ensures t in Step(s, a).timers && MarkTold(before + [a], Step(s, a), t)
  {
    assert Lock(t) in before + [a] <==> Lock(t) in before || a == Lock(t);
    assert Check(t) in before + [a] <==> Check(t) in before || a == Check(t);
    assert Cancel(t) in before + [a] <==> Cancel(t) in before || a == Cancel(t);
    StageMoves(s, a, t);
    MarkerIs(s, a, t);
    hide Step, Enabled, Inv;
  }

  ghost predicate Untouched(actions: seq<Action>, t: TimerId) {
    Expire(t) !in actions && Lock(t) !in actions && Check(t) !in actions && Cancel(t) !in actions
  }

  lemma StageStays(before: seq<Action>, s: State, a: Action, t: TimerId)
    requires Inv(s) && Enabled(s, a)
    requires t !in s.timers ==> Untouched(before, t)
    requires t in s.timers ==> HandedOutTold(before, s, t) && MarkTold(before, s, t)
    ensures t !in Step(s, a).timers ==> Untouched(before + [a], t)
    ensures t in Step(s, a).timers ==> HandedOutTold(before + [a], Step(s, a), t) && MarkTold(before + [a], Step(s, a), t)
  {
    hide Inv, Step, Enabled;
    if t in s.timers {
      HandedOutStays(before, s, a, t);
      MarkStays(before, s, a, t);
      hide HandedOutTold, MarkTold;
    } else {
      StepsNeedTimer(s, a, t);
      if t in Step(s, a).timers {
        NewTimerIsLive(s, a, t);
        StepOfNewTimer(s, a, t);
      }
    }
  }

  lemma StepsNeedTimer(s: State, a: Action, t: TimerId)
    requires Enabled(s, a) && t !in s.timers
    ensures a != Expire(t) && a != Lock(t) && a != Check(t) && a != Cancel(t)
  {
  }

  /** In every reachable state a callback that has been handed out, and has not locked `tinfo` yet, can. */
  lemma HandedOutCallbacksRun(actions: seq<Action>, t: TimerId)
    requires Run(actions).Some? && Expire(t) in actions && Lock(t) !in actions
    ensures Enabled(Run(actions).value, Lock(t))
  {
    TimersAreTold(actions, t);
    RunKeepsInv(actions);
    hide Run;
  }
}
