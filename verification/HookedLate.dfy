/**
 * What the timeout callbacks of do_io in src/hook.cpp can still do after their call has returned.
 */
module HookedLate {
  import opened Prelude
  import opened HookedIo
  import opened HookedTimeouts
  import opened HookedCallbacks

  /** Some callback of the call has locked `tinfo`, and has neither found it marked nor cancelled yet. */
  ghost predicate Held(s: State, c: CallId) {
    exists t <- s.timers :: s.timers[t].call == c && (s.timers[t].stage == Locked || s.timers[t].stage == Marked)
  }

  /** Some callback of the call has set the mark and has yet to cancel, or can still set it. */
  ghost predicate MayCancel(s: State, c: CallId)
    requires c in s.calls
  {
    exists t <- s.timers :: CallbackMayCancel(s, c, t)
  }

  predicate CallbackMayCancel(s: State, c: CallId, t: TimerId)
    requires c in s.calls && t in s.timers
  {
    s.timers[t].call == c
    && (s.timers[t].stage == Marked || (s.timers[t].stage == Locked && s.calls[c].cancelled.None?))
  }

  /** The steps that can end a call. */
  predicate Ends(a: Action, c: CallId) { a == Return(c) || a == AddFail(c) || a == Verdict(c) }

  lemma CallStepsKeepStages(s: State, a: Action, t: TimerId)
    requires Enabled(s, a) && !Outside(a) && t in Step(s, a).timers
    requires Step(s, a).timers[t].stage == Locked || Step(s, a).timers[t].stage == Marked
    ensures t in s.timers && Step(s, a).timers[t] == s.timers[t]
  {
  }

  /** A callback holds `tinfo` after a step iff it did before, or has just locked it. */
  lemma StepOfLock(s: State, a: Action, t: TimerId)
    requires Enabled(s, a) && t in Step(s, a).timers
    requires Step(s, a).timers[t].stage == Locked || Step(s, a).timers[t].stage == Marked
    ensures t in s.timers && Step(s, a).timers[t].call == s.timers[t].call
    ensures if a == Lock(t) then InfoAlive(s, s.timers[t].call)
            else s.timers[t].stage == Locked || s.timers[t].stage == Marked
  {
    hide InfoAlive;
    if !Outside(a) {
      CallStepsKeepStages(s, a, t);
      hide Step;
    }
  }

  /** A call's own step finds it unfinished, and finishes it only if it is one of those that can. */
  lemma OwnPhase(s: State, a: Action)
    requires Enabled(s, a) && !Outside(a)
    ensures var n, c := Step(s, a), Actor(a);
            && (c in s.calls ==> !s.calls[c].phase.Done?)
            && c in n.calls && (n.calls[c].phase.Done? ==> Ends(a, c) && c in s.calls)
  {
  }

  lemma StepOfDone(s: State, a: Action, c: CallId)
    requires Enabled(s, a) && c in s.calls && s.calls[c].phase.Done?
    ensures var n := Step(s, a); c in n.calls && n.calls[c].phase.Done? && !Ends(a, c)
  {
    hide Step, Enabled;
    if Outside(a) {
      OutsideKeepsCall(s, a, c);
    } else {
      OwnPhase(s, a);
      OthersKeepCall(s, a, c);
    }
  }

  /** A call that has returned has no new callback that finds its `tinfo` alive, and returning is no
      lock. */
  lemma StepOfHeld(s: State, a: Action, c: CallId)
    requires Enabled(s, a) && c in s.calls && (s.calls[c].phase.Done? || !a.Lock?)
    ensures Held(Step(s, a), c) ==> Held(s, c)
  {
    var n := Step(s, a);
    if Held(n, c) {
      var t :| t in n.timers && n.timers[t].call == c && (n.timers[t].stage == Locked || n.timers[t].stage == Marked);
      StepOfLock(s, a, t);
    }
    hide Step, Enabled;
  }

  /** A callback that may cancel after a step could before, or has just locked `tinfo`. */
  lemma CallbackCouldCancel(s: State, a: Action, c: CallId, t: TimerId)
    requires Enabled(s, a) && c in s.calls && c in Step(s, a).calls && t in Step(s, a).timers
    requires CallbackMayCancel(Step(s, a), c, t)
    ensures t in s.timers && s.timers[t].call == c
    ensures if a == Lock(t) then InfoAlive(s, c) && s.calls[c].cancelled.None? else CallbackMayCancel(s, c, t)
  {
    StepOfLock(s, a, t);
    StepOfStage(s, a, t);
    StepOfMark(s, a, c);
    hide Step, Enabled, InfoAlive;
  }

  /** A returned call has no new callback that will cancel, and returning makes none. */
  lemma StepOfMayCancel(s: State, a: Action, c: CallId)
    requires Enabled(s, a) && c in s.calls && (s.calls[c].phase.Done? || !a.Lock?)
    ensures c in Step(s, a).calls && (MayCancel(Step(s, a), c) ==> MayCancel(s, c))
  {
    var n := Step(s, a);
    StepOfCall(s, a, c);
    hide Step, Enabled;
    if MayCancel(n, c) {
      var t :| t in n.timers && CallbackMayCancel(n, c, t);
      CallbackCouldCancel(s, a, c, t);
      if a == Lock(t) {
        var u :| u in s.timers && s.timers[u].call == c && (s.timers[u].stage == Locked || s.timers[u].stage == Marked);
        assert CallbackMayCancel(s, c, u);
      }
    }
  }

  /** A callback that comes to its lock gets `tinfo` iff its call has not returned or another callback of
      it holds that. */
  lemma LockSucceedsIff(s: State, t: TimerId)
    requires Enabled(s, Lock(t))
    ensures t in Step(s, Lock(t)).timers
    ensures Step(s, Lock(t)).timers[t].stage ==
            if !s.calls[s.timers[t].call].phase.Done? || Held(s, s.timers[t].call) then Locked else Over
  {
  }

  /** After `more` the timer's callback is about to cancel what another call has armed on the slot. */
  predicate HitsAfter(s: State, c: CallId, more: seq<Action>, t: TimerId) {
    var n := RunFrom(s, more);
    n.Some? && HitsAnother(n.value, c, t)
  }

  predicate HitsAnother(s: State, c: CallId, t: TimerId) {
    && c in s.calls && Enabled(s, Cancel(t)) && s.timers[t].call == c
    && s.calls[c].slot in s.slots && s.slots[s.calls[c].slot] in s.current
    && s.current[s.slots[s.calls[c].slot]] != c
  }

  lemma {:induction false} FreeForGood(s: State, c: CallId, more: seq<Action>, t: TimerId)
    requires c in s.calls && s.calls[c].phase.Done? && !MayCancel(s, c)
    ensures !HitsAfter(s, c, more, t)
    decreases |more|
  {
    if more == [] {
      assert HitsAnother(s, c, t) ==> CallbackMayCancel(s, c, t);
    } else if Enabled(s, more[0]) {
      StepOfDone(s, more[0], c);
      StepOfMayCancel(s, more[0], c);
      hide Step, Enabled, MayCancel;
      FreeForGood(Step(s, more[0]), c, more[1..], t);
    }
  }

  /** A number that is not in the set. */
  lemma {:induction false} Fresh(s: set<nat>) returns (n: nat)
    ensures forall x <- s :: x < n
  {
    if s == {} {
      n := 0;
    } else {
      var x :| x in s;
      var m := Fresh(s - {x});
      n := if x < m then m else x + 1;
      assert forall y <- s :: y == x || y in s - {x};
    }
  }

  lemma RunFromOne(s: State, a: Action)
    requires Enabled(s, a)
    ensures RunFrom(s, [a]) == Some(Step(s, a))
  {
    assert RunFrom(Step(s, a), [a][1..]) == Some(Step(s, a));
  }

  lemma {:induction false} RunFromMore(s: State, more: seq<Action>, a: Action)
    requires RunFrom(s, more).Some? && Enabled(RunFrom(s, more).value, a)
    ensures RunFrom(s, more + [a]) == Some(Step(RunFrom(s, more).value, a))
    decreases |more|
  {
    hide Step, Enabled;
    if more == [] {
      RunFromOne(s, a);
      assert more + [a] == [a];
    } else {
      RunFromMore(Step(s, more[0]), more[1..], a);
      assert (more + [a])[1..] == more[1..] + [a];
    }
  }

  lemma GoFrom(s: State, before: seq<Action>, m: State, a: Action) returns (more: seq<Action>, n: State)
    requires RunFrom(s, before) == Some(m) && Inv(m) && Enabled(m, a)
    ensures more == before + [a] && n == Step(m, a) && RunFrom(s, more) == Some(n) && Inv(n)
  {
    more, n := before + [a], Step(m, a);
    RunFromMore(s, before, a);
    StepKeepsInv(m, a);
  }

  /** In n a call that s does not know, without a timeout, is on its way to the slot; nothing else about
      calls and timers has changed. */
  ghost predicate OnItsWay(s: State, n: State, c: CallId, slot: SlotId, phase: Phase) {
    && At(n, c, phase) && !n.calls[c].timed && n.calls[c].slot == slot && n.timers == s.timers
    && c !in s.calls && forall d <- s.calls :: d in n.calls && n.calls[d] == s.calls[d]
  }

  lemma NewCallBegins(s: State, c: CallId, co: Coroutine, slot: SlotId)
    requires c !in s.calls && co !in s.current
    ensures OnItsWay(s, Step(s, Begin(c, co, slot, false)), c, slot, Trying)
  {
  }

  lemma NewCallSetsNoTimer(s: State, m: State, c: CallId, t: TimerId, slot: SlotId)
    requires OnItsWay(s, m, c, slot, Trying) && t !in m.timers
    ensures OnItsWay(s, Step(m, Again(c, t)), c, slot, TimerSet) && Step(m, Again(c, t)).slots == m.slots
  {
  }

  lemma NewCallArms(s: State, m: State, c: CallId, slot: SlotId)
    requires OnItsWay(s, m, c, slot, TimerSet) && slot !in m.slots
    ensures OnItsWay(s, Step(m, AddOk(c)), c, slot, Armed) && slot in Step(m, AddOk(c)).slots
  {
  }

  /** Somebody has armed the slot, or a new call can. */
  lemma SomebodyArms(s: State, slot: SlotId) returns (more: seq<Action>, n: State)
    requires Inv(s)
    ensures RunFrom(s, more) == Some(n) && slot in n.slots && n.timers == s.timers && Inv(n)
    ensures forall c <- s.calls :: c in n.calls && n.calls[c] == s.calls[c]
  {
    if slot in s.slots {
      more, n := [], s;
    } else {
      var c := Fresh(s.calls.Keys);
      var co := Fresh(s.current.Keys);
      var t := Fresh(s.timers.Keys);
      assert c !in s.calls.Keys && co !in s.current.Keys && t !in s.timers.Keys;
      assert RunFrom(s, []) == Some(s);
      NewCallBegins(s, c, co, slot);
      hide Inv, RunFrom;
      more, n := GoFrom(s, [], s, Begin(c, co, slot, false));
      assert n.slots == s.slots;
      hide Step;
      NewCallSetsNoTimer(s, n, c, t, slot);
      more, n := GoFrom(s, more, n, Again(c, t));
      NewCallArms(s, n, c, slot);
      more, n := GoFrom(s, more, n, AddOk(c));
    }
  }

  /** Whoever is armed on the slot of a returned call is another call. */
  lemma ArmedByAnother(s: State, c: CallId, t: TimerId)
    requires Inv(s) && c in s.calls && s.calls[c].phase.Done? && s.calls[c].slot in s.slots
    requires Enabled(s, Cancel(t)) && s.timers[t].call == c
    ensures HitsAnother(s, c, t)
  {
  }

  /** Some way on from here lets a callback of a returned call cancel what another call has registered
      iff one of its callbacks has set the mark and has yet to cancel, or holds `tinfo` and finds no mark. */
  lemma ReturnedHitsIff(s: State, c: CallId)
    requires Inv(s) && c in s.calls && s.calls[c].phase.Done?
    ensures (exists more, t :: HitsAfter(s, c, more, t)) <==> MayCancel(s, c)
  {
    if MayCancel(s, c) {
      var t :| t in s.timers && CallbackMayCancel(s, c, t);
      var more, n := SomebodyArms(s, s.calls[c].slot);
      if n.timers[t].stage == Locked {
        more, n := GoFrom(s, more, n, Check(t));
      }
      ArmedByAnother(n, c, t);
      assert HitsAfter(s, c, more, t);
    } else {
      forall more, t ensures !HitsAfter(s, c, more, t) {
        FreeForGood(s, c, more, t);
      }
    }
  }

  /** What had happened before the call returned. */
  function BeforeDone(actions: seq<Action>, c: CallId): seq<Action> {
    if actions == [] then []
    else if Ends(actions[|actions| - 1], c) then actions[..|actions| - 1]
    else BeforeDone(actions[..|actions| - 1], c)
  }

  /** A call returns by one of its own steps. */
  lemma StepOfEnd(s: State, a: Action, c: CallId)
    requires Enabled(s, a) && c in Step(s, a).calls && Step(s, a).calls[c].phase.Done?
    ensures c in s.calls && (if Ends(a, c) then !s.calls[c].phase.Done? else s.calls[c].phase.Done?)
  {
    hide Step, Enabled;
    if Outside(a) {
      OutsideKeepsCall(s, a, c);
    } else {
      OwnPhase(s, a);
      if Actor(a) != c {
        OthersKeepCall(s, a, c);
      }
    }
  }

  /** A callback that holds `tinfo` has locked it. */
  lemma {:induction false} HeldByLock(actions: seq<Action>, t: TimerId)
    requires Run(actions).Some? && t in Run(actions).value.timers
    requires var stage := Run(actions).value.timers[t].stage; stage == Locked || stage == Marked
    ensures Lock(t) in actions
  {
    var before, a := actions[..|actions| - 1], actions[|actions| - 1];
    assert actions == before + [a];
    if a != Lock(t) {
      StepOfLock(Run(before).value, a, t);
      HeldByLock(before, t);
    }
  }

  /** A callback that holds `tinfo` after its call has returned takes one that had locked it before, and
      held it at the return; one that may still cancel takes one that could at the return. */
  lemma {:induction false} LateOnlyIfHeldAtReturn(actions: seq<Action>, c: CallId)
    requires Run(actions).Some? && c in Run(actions).value.calls && Run(actions).value.calls[c].phase.Done?
    requires Held(Run(actions).value, c)
    ensures var before := BeforeDone(actions, c);
            && Run(before).Some? && c in Run(before).value.calls && !Run(before).value.calls[c].phase.Done?
            && Held(Run(before).value, c)
            && (MayCancel(Run(actions).value, c) ==> MayCancel(Run(before).value, c))
            && exists u :: Again(c, u) in before && Lock(u) in before
  {
    var before, a := actions[..|actions| - 1], actions[|actions| - 1];
    var s := Run(before).value;
    StepOfEnd(s, a, c);
    StepOfHeld(s, a, c);
    StepOfMayCancel(s, a, c);
    if Ends(a, c) {
      var u :| u in s.timers && s.timers[u].call == c && (s.timers[u].stage == Locked || s.timers[u].stage == Marked);
      HeldByLock(before, u);
      TimersHaveHistory(before, u);
      assert Again(c, u) in before && Lock(u) in before;
    } else {
      LateOnlyIfHeldAtReturn(before, c);
    }
  }

  /** The first round's callback holds `tinfo`; the second round registers, and its timer expires. */
  lemma ExpiresAgain(run: seq<Action>, s: State) returns (more: seq<Action>, n: State)
    requires Run(run) == Some(s)
    requires s == State(map[0 := Call(10, 7, true, Trying, Some(100), None)], map[100 := Timeout(0, Locked, true)],
                        map[], multiset{}, map[10 := 0])
    ensures Run(more) == Some(n)
    ensures n == State(map[0 := Call(10, 7, true, Suspended, Some(101), None)],
                       map[100 := Timeout(0, Locked, true), 101 := Timeout(0, Fired, true)],
                       map[7 := 10], multiset{}, map[10 := 0])
  {
    hide Run;
    more, n := Go(run, s, Again(0, 101));
    more, n := Go(more, n, AddOk(0));
    more, n := Go(more, n, Yield(0));
    more, n := Go(more, n, Expire(101));
  }

  /** Both callbacks hold `tinfo`, and the first marks and cancels. */
  lemma FirstCancels(run: seq<Action>, s: State) returns (more: seq<Action>, n: State)
    requires Run(run) == Some(s)
    requires s == State(map[0 := Call(10, 7, true, Suspended, Some(101), None)],
                        map[100 := Timeout(0, Locked, true), 101 := Timeout(0, Fired, true)],
                        map[7 := 10], multiset{}, map[10 := 0])
    ensures Run(more) == Some(n)
    ensures n == State(map[0 := Call(10, 7, true, Suspended, Some(101), Some(100))],
                       map[100 := Timeout(0, Over, true), 101 := Timeout(0, Locked, true)],
                       map[], multiset{10}, map[10 := 0])
  {
    hide Run;
    more, n := Go(run, s, Lock(101));
    more, n := Go(more, n, Check(100));
    more, n := Go(more, n, Cancel(100));
  }

  lemma WokenHolding() returns (run: seq<Action>, s: State)
    ensures Run(run) == Some(s)
    ensures s == State(map[0 := Call(10, 7, true, Suspended, Some(101), Some(100))],
                       map[100 := Timeout(0, Over, true), 101 := Timeout(0, Locked, true)],
                       map[], multiset{10}, map[10 := 0])
  {
    run, s := LockedWhileArmed();
    run, s := WokenByReadiness(run, s, false);
    hide Run;
    run, s := ExpiresAgain(run, s);
    run, s := FirstCancels(run, s);
  }

  lemma TimedOutHolding() returns (run: seq<Action>, s: State)
    ensures Run(run) == Some(s)
    ensures s.calls == map[0 := Call(10, 7, true, Done(TimedOut), Some(101), Some(100))]
    ensures s.timers == map[100 := Timeout(0, Over, true), 101 := Timeout(0, Locked, true)]
  {
    run, s := WokenHolding();
    hide Run;
    run, s := Go(run, s, Resume(0));
    run, s := Go(run, s, StopTimer(0));
    run, s := Go(run, s, Verdict(0));
  }

  /** The call of a second round times out by the mark of the first round's callback, while the second
      round's callback holds `tinfo`: holding it is not enough. */
  lemma HeldWithoutEffect() returns (run: seq<Action>, s: State)
    ensures Run(run) == Some(s) && At(s, 0, Done(TimedOut)) && Held(s, 0) && !MayCancel(s, 0)
  {
    run, s := TimedOutHolding();
    hide Run;
    assert s.timers[101].stage == Locked;
  }
}
