/**
 * The retry protocol of do_io in src/hook.cpp, run by any number of coroutines against the
 * event slots of src/iomanager.cpp and the timers of src/timer.cpp. A step is one critical
 * section of one party; the steps of different parties interleave freely. In particular the
 * timeout callback locks its weak `tinfo` in one step, tests and sets the mark in a later one,
 * and cancels the event in a third.
 */
module HookedIo {
  import opened Prelude

  type CallId = nat
  type Coroutine = nat
  type TimerId = nat
  /** A descriptor and a direction, by number. */
  type SlotId = nat

  /** How a call ended: with what the system call said, with ETIMEDOUT, or because addEvent failed. */
  datatype Result = Returned | TimedOut | AddFailed

  /** Where a call is: about to make the system call; with its timer created; registered, not yet
      switched out; switched out; switched in again; with its timer cancelled; returned. */
  datatype Phase = Trying | TimerSet | Armed | Suspended | Resumed | Checking | Done(result: Result)

  /** One call. `tinfo.cancelled` is the timer that set it, if any. */
  datatype Call = Call(co: Coroutine, slot: SlotId, timed: bool, phase: Phase,
                       timer: Option<TimerId>, cancelled: Option<TimerId>)

  /** A timer of a call: in the timer set; its callback handed out; its callback holding `tinfo`;
      between the mark it has set and the cancellation; nothing left to do. */
  datatype Stage = Live | Fired | Locked | Marked | Over

  datatype Timeout = Timeout(call: CallId, stage: Stage, expired: bool)

  /** `slots` holds the coroutine armed on a slot, `ready` the coroutines scheduled to be resumed,
      `current` the call a coroutine is in. */
  datatype State = State(calls: map<CallId, Call>, timers: map<TimerId, Timeout>,
                         slots: map<SlotId, Coroutine>, ready: multiset<Coroutine>,
                         current: map<Coroutine, CallId>)

  const START := State(map[], map[], map[], multiset{}, map[])

  datatype Action =
    | Begin(c: CallId, co: Coroutine, slot: SlotId, timed: bool)
    | Return(c: CallId)
    | Again(c: CallId, t: TimerId)
    | AddOk(c: CallId)
    | AddFail(c: CallId)
    | Yield(c: CallId)
    | Wake(slot: SlotId)
    | Resume(c: CallId)
    | StopTimer(c: CallId)
    | Verdict(c: CallId)
    | Expire(t: TimerId)
    | Lock(t: TimerId)
    | Check(t: TimerId)
    | Cancel(t: TimerId)

  predicate At(s: State, c: CallId, phase: Phase) {
    c in s.calls && s.calls[c].phase == phase
  }

  predicate StageOf(s: State, t: TimerId, stage: Stage) {
    t in s.timers && s.timers[t].stage == stage
  }

  predicate Enabled(s: State, a: Action) {
    match a
    case Begin(c, co, _, _) => c !in s.calls && co !in s.current
    case Return(c) => At(s, c, Trying)
    case Again(c, t) => At(s, c, Trying) && t !in s.timers
    // addEvent asserts that nobody waits on the slot.
    case AddOk(c) => At(s, c, TimerSet) && s.calls[c].slot !in s.slots
    case AddFail(c) => At(s, c, TimerSet)
    case Yield(c) => At(s, c, Armed)
    case Wake(slot) => slot in s.slots
    // A worker takes the coroutine only once it has switched out.
    case Resume(c) => At(s, c, Suspended) && s.calls[c].co in s.ready
    case StopTimer(c) => At(s, c, Resumed)
    case Verdict(c) => At(s, c, Checking)
    case Expire(t) => StageOf(s, t, Live)
    case Lock(t) => StageOf(s, t, Fired) && s.timers[t].call in s.calls
    case Check(t) => StageOf(s, t, Locked) && s.timers[t].call in s.calls
    case Cancel(t) => StageOf(s, t, Marked) && s.timers[t].call in s.calls
  }

  function Goto(s: State, c: CallId, phase: Phase): State
    requires c in s.calls
  {
    s.(calls := s.calls[c := s.calls[c].(phase := phase)])
  }

  function Finish(s: State, c: CallId, r: Result): State
    requires c in s.calls
  {
    Goto(s, c, Done(r)).(current := s.current - {s.calls[c].co})
  }

  /** timer -> cancel(): takes a live timer out of the set, and does nothing to any other. */
  function Disarmed(timers: Timers, t: Option<TimerId>): Timers {
    if t.Some? && t.value in timers && timers[t.value].stage == Live
    then timers[t.value := timers[t.value].(stage := Over)]
    else timers
  }

  /** Readiness, or cancelEvent or cancelAll by whomever: the coroutine on the slot is scheduled. */
  function WakeSlot(s: State, slot: SlotId): State {
    if slot in s.slots then s.(slots := s.slots - {slot}, ready := s.ready + multiset{s.slots[slot]})
    else s
  }

  /** `tinfo` lives as long as its call is in do_io or some callback holds it. */
  predicate InfoAlive(s: State, c: CallId)
    requires c in s.calls
  {
    !s.calls[c].phase.Done?
    || exists t <- s.timers :: s.timers[t].call == c && (s.timers[t].stage == Locked || s.timers[t].stage == Marked)
  }

  function Step(s: State, a: Action): State
    requires Enabled(s, a)
  {
    match a
    case Begin(c, co, slot, timed) =>
      s.(calls := s.calls[c := Call(co, slot, timed, Trying, None, None)], current := s.current[co := c])
    case Return(c) => Finish(s, c, Returned)
    case Again(c, t) =>
      var call := s.calls[c];
      if call.timed
      then s.(calls := s.calls[c := call.(phase := TimerSet, timer := Some(t))],
              timers := s.timers[t := Timeout(c, Live, false)])
      else s.(calls := s.calls[c := call.(phase := TimerSet, timer := None)])
    case AddOk(c) => Goto(s, c, Armed).(slots := s.slots[s.calls[c].slot := s.calls[c].co])
    case AddFail(c) => Finish(s.(timers := Disarmed(s.timers, s.calls[c].timer)), c, AddFailed)
    case Yield(c) => Goto(s, c, Suspended)
    case Wake(slot) => WakeSlot(s, slot)
    case Resume(c) => Goto(s, c, Resumed).(ready := s.ready - multiset{s.calls[c].co})
    case StopTimer(c) => Goto(s.(timers := Disarmed(s.timers, s.calls[c].timer)), c, Checking)
    case Verdict(c) => if s.calls[c].cancelled.Some? then Finish(s, c, TimedOut) else Goto(s, c, Trying)
    case Expire(t) => s.(timers := s.timers[t := s.timers[t].(stage := Fired, expired := true)])
    case Lock(t) =>
      var stage := if InfoAlive(s, s.timers[t].call) then Locked else Over;
      s.(timers := s.timers[t := s.timers[t].(stage := stage)])
    case Check(t) =>
      var c := s.timers[t].call;
      if s.calls[c].cancelled.Some?
      then s.(timers := s.timers[t := s.timers[t].(stage := Over)])
      else s.(timers := s.timers[t := s.timers[t].(stage := Marked)],
              calls := s.calls[c := s.calls[c].(cancelled := Some(t))])
    case Cancel(t) =>
      WakeSlot(s, s.calls[s.timers[t].call].slot).(timers := s.timers[t := s.timers[t].(stage := Over)])
  }

  /** The state after a run; None if some step was not enabled. */
  function Run(actions: seq<Action>): Option<State> {
    if actions == [] then Some(START)
    else
      match Run(actions[..|actions| - 1])
      case None => None
      case Some(s) =>
        var a := actions[|actions| - 1];
        if Enabled(s, a) then Some(Step(s, a)) else None
  }

  // ----- What every step keeps -------------------------------------------------

  type Calls = map<CallId, Call>
  type Timers = map<TimerId, Timeout>
  type Slots = map<SlotId, Coroutine>
  type Current = map<Coroutine, CallId>

  predicate Waiting(p: Phase) { p.Armed? || p.Suspended? }

  /** The call is registered on its slot. */
  predicate Holds(call: Call, slots: Slots) { call.slot in slots && slots[call.slot] == call.co }

  /** `current` is exactly the unfinished calls. */
  ghost predicate CurrentCalls(calls: Calls, current: Current) {
    && (forall co <- current :: current[co] in calls && calls[current[co]].co == co && !calls[current[co]].phase.Done?)
    && (forall c <- calls :: !calls[c].phase.Done? ==> calls[c].co in current && current[calls[c].co] == c)
  }

  /** A waiting call has its slot armed or exactly one wake-up pending, not both; any other call
      has neither. */
  ghost predicate CallWakeUps(call: Call, slots: Slots, ready: multiset<Coroutine>) {
    if Waiting(call.phase) then ready[call.co] == if Holds(call, slots) then 0 else 1
    else call.phase.Done? || ready[call.co] == 0
  }

  /** Armed slots and pending wake-ups belong to unfinished calls, the slots to waiting ones. */
  ghost predicate OneWakeUp(calls: Calls, slots: Slots, ready: multiset<Coroutine>, current: Current) {
    && (forall sl <- slots :: slots[sl] in current && current[slots[sl]] in calls
                             && calls[current[slots[sl]]].slot == sl && Waiting(calls[current[slots[sl]]].phase))
    && (forall co <- ready :: co in current)
    && (forall c <- calls :: CallWakeUps(calls[c], slots, ready))
  }

  /** The phases in which the current round's timer may still be in the set. */
  predicate MayBeLive(p: Phase) { p.TimerSet? || p.Armed? || p.Suspended? || p.Resumed? }

  /** Timers and calls know each other; only the current round's timer can be live; a callback that
      has been handed out comes from a timer that expired. */
  ghost predicate TimersOwned(calls: Calls, timers: Timers) {
    && (forall t <- timers :: timers[t].call in calls)
    && (forall c <- calls :: calls[c].timer.Some? ==>
          calls[c].timer.value in timers && timers[calls[c].timer.value].call == c)
    && (forall t <- timers :: timers[t].stage == Live ==>
          calls[timers[t].call].timer == Some(t) && MayBeLive(calls[timers[t].call].phase))
    && (forall t <- timers :: timers[t].stage == Fired || timers[t].stage == Locked || timers[t].stage == Marked ==>
          timers[t].expired)
  }

  /** A call is marked only by one of its own timers, after that timer expired; ETIMEDOUT is
      reported by marked calls only. */
  ghost predicate Marks(calls: Calls, timers: Timers) {
    && (forall c <- calls ::
          && (calls[c].cancelled.Some? ==>
                var t := calls[c].cancelled.value;
                t in timers && timers[t].call == c && timers[t].expired)
          && (calls[c].phase == Done(TimedOut) ==> calls[c].cancelled.Some?))
    && (forall t <- timers :: timers[t].stage == Marked && timers[t].call in calls ==>
          calls[timers[t].call].cancelled == Some(t))
  }

  /** The timer's callback has yet to test the mark. */
  predicate MayMark(stage: Stage) { stage == Live || stage == Fired || stage == Locked }

  /** A timed call that is not marked has a timer that can still mark it. */
  ghost predicate TimeoutPending(calls: Calls, timers: Timers) {
    forall c <- calls :: calls[c].timed && MayBeLive(calls[c].phase) && calls[c].cancelled.None? ==>
      calls[c].timer.Some? && calls[c].timer.value in timers
      && MayMark(timers[calls[c].timer.value].stage)
  }

  ghost predicate Inv(s: State) {
    && CurrentCalls(s.calls, s.current)
    && OneWakeUp(s.calls, s.slots, s.ready, s.current)
    && TimersOwned(s.calls, s.timers)
    && Marks(s.calls, s.timers)
    && TimeoutPending(s.calls, s.timers)
  }

  // ----- The pieces of a step --------------------------------------------------

  /** A call that changes, but not its coroutine or whether it has returned. */
  lemma CurrentGoto(calls: Calls, current: Current, c: CallId, call: Call)
    requires CurrentCalls(calls, current) && c in calls
    requires call.co == calls[c].co && call.phase.Done? == calls[c].phase.Done?
    ensures CurrentCalls(calls[c := call], current)
  {
  }

  lemma CurrentFinish(calls: Calls, current: Current, c: CallId, call: Call)
    requires CurrentCalls(calls, current) && c in calls && !calls[c].phase.Done?
    requires call.co == calls[c].co && call.phase.Done?
    ensures CurrentCalls(calls[c := call], current - {call.co})
  {
  }

  lemma CurrentBegin(calls: Calls, current: Current, c: CallId, call: Call)
    requires CurrentCalls(calls, current) && c !in calls && call.co !in current && !call.phase.Done?
    ensures CurrentCalls(calls[c := call], current[call.co := c])
  {
  }

  /** A mark, or any change that keeps coroutine, slot and whether the call waits. */
  lemma WakeUpsGoto(calls: Calls, slots: Slots, ready: multiset<Coroutine>, current: Current, c: CallId, call: Call)
    requires OneWakeUp(calls, slots, ready, current) && c in calls
    requires call.co == calls[c].co && call.slot == calls[c].slot
    requires Waiting(call.phase) == Waiting(calls[c].phase) && call.phase.Done? == calls[c].phase.Done?
    ensures OneWakeUp(calls[c := call], slots, ready, current)
  {
  }

  lemma WakeUpsFinish(calls: Calls, slots: Slots, ready: multiset<Coroutine>, current: Current, c: CallId, call: Call)
    requires CurrentCalls(calls, current) && OneWakeUp(calls, slots, ready, current) && c in calls
    requires call.co == calls[c].co && !Waiting(calls[c].phase) && !calls[c].phase.Done? && call.phase.Done?
    ensures OneWakeUp(calls[c := call], slots, ready, current - {call.co})
  {
    assert CallWakeUps(calls[c], slots, ready);
    assert current[call.co] == c;
  }

  lemma WakeUpsBegin(calls: Calls, slots: Slots, ready: multiset<Coroutine>, current: Current, c: CallId, call: Call)
    requires OneWakeUp(calls, slots, ready, current) && c !in calls && call.co !in current
    requires !Waiting(call.phase)
    ensures OneWakeUp(calls[c := call], slots, ready, current[call.co := c])
  {
  }

  lemma WakeUpsArm(calls: Calls, slots: Slots, ready: multiset<Coroutine>, current: Current, c: CallId)
    requires CurrentCalls(calls, current) && OneWakeUp(calls, slots, ready, current)
    requires c in calls && calls[c].phase.TimerSet? && calls[c].slot !in slots
    ensures OneWakeUp(calls[c := calls[c].(phase := Armed)], slots[calls[c].slot := calls[c].co], ready, current)
  {
    assert CallWakeUps(calls[c], slots, ready);
    forall d <- calls | d != c
      ensures CallWakeUps(calls[d], slots[calls[c].slot := calls[c].co], ready)
    {
      assert CallWakeUps(calls[d], slots, ready);
    }
  }

  lemma WakeUpsWake(calls: Calls, slots: Slots, ready: multiset<Coroutine>, current: Current, sl: SlotId)
    requires CurrentCalls(calls, current) && OneWakeUp(calls, slots, ready, current) && sl in slots
    ensures OneWakeUp(calls, slots - {sl}, ready + multiset{slots[sl]}, current)
  {
    forall c <- calls
      ensures CallWakeUps(calls[c], slots - {sl}, ready + multiset{slots[sl]})
    {
      assert CallWakeUps(calls[c], slots, ready);
    }
  }

  lemma WakeUpsResume(calls: Calls, slots: Slots, ready: multiset<Coroutine>, current: Current, c: CallId)
    requires CurrentCalls(calls, current) && OneWakeUp(calls, slots, ready, current)
    requires c in calls && calls[c].phase.Suspended? && calls[c].co in ready
    ensures OneWakeUp(calls[c := calls[c].(phase := Resumed)], slots, ready - multiset{calls[c].co}, current)
  {
    assert CallWakeUps(calls[c], slots, ready);
    forall d <- calls | d != c
      ensures CallWakeUps(calls[d], slots, ready - multiset{calls[c].co})
    {
      assert CallWakeUps(calls[d], slots, ready);
    }
  }

  /** What the timer invariants say, together. */
  ghost predicate Times(calls: Calls, timers: Timers) {
    TimersOwned(calls, timers) && Marks(calls, timers) && TimeoutPending(calls, timers)
  }

  ghost predicate NoLiveTimer(timers: Timers, c: CallId) {
    forall t <- timers :: timers[t].call == c ==> timers[t].stage != Live
  }

  lemma TimesBegin(calls: Calls, timers: Timers, c: CallId, call: Call)
    requires Times(calls, timers) && c !in calls
    requires call.phase == Trying && call.timer.None? && call.cancelled.None?
    ensures Times(calls[c := call], timers)
  {
  }

  /** A call moves on with its timer. */
  lemma TimesGoto(calls: Calls, timers: Timers, c: CallId, phase: Phase)
    requires Times(calls, timers) && c in calls
    requires MayBeLive(calls[c].phase) == MayBeLive(phase)
    requires phase == Done(TimedOut) ==> calls[c].cancelled.Some?
    ensures Times(calls[c := calls[c].(phase := phase)], timers)
  {
  }

  lemma TimesNewTimer(calls: Calls, timers: Timers, c: CallId, t: TimerId)
    requires Times(calls, timers) && c in calls && calls[c].phase == Trying && t !in timers
    ensures Times(calls[c := calls[c].(phase := TimerSet, timer := Some(t))], timers[t := Timeout(c, Live, false)])
  {
  }

  lemma TimesNoTimer(calls: Calls, timers: Timers, c: CallId)
    requires Times(calls, timers) && c in calls && calls[c].phase == Trying && !calls[c].timed
    ensures Times(calls[c := calls[c].(phase := TimerSet, timer := None)], timers)
  {
  }

  /** Cancelling the current timer leaves the call without a live one. */
  lemma TimesStop(calls: Calls, timers: Timers, c: CallId, phase: Phase)
    requires Times(calls, timers) && c in calls
    requires !MayBeLive(phase) && phase != Done(TimedOut)
    ensures NoLiveTimer(Disarmed(timers, calls[c].timer), c)
    ensures Times(calls[c := calls[c].(phase := phase)], Disarmed(timers, calls[c].timer))
  {
    StopMarks(calls, timers, c, phase);
    hide Marks, TimeoutPending;
  }

  lemma StopMarks(calls: Calls, timers: Timers, c: CallId, phase: Phase)
    requires Times(calls, timers) && c in calls
    requires !MayBeLive(phase) && phase != Done(TimedOut)
    ensures Marks(calls[c := calls[c].(phase := phase)], Disarmed(timers, calls[c].timer))
    ensures TimeoutPending(calls[c := calls[c].(phase := phase)], Disarmed(timers, calls[c].timer))
  {
  }

  lemma TimesExpire(calls: Calls, timers: Timers, t: TimerId)
    requires Times(calls, timers) && t in timers && timers[t].stage == Live
    ensures Times(calls, timers[t := timers[t].(stage := Fired, expired := true)])
  {
  }

  lemma TimesLock(calls: Calls, timers: Timers, t: TimerId)
    requires Times(calls, timers) && t in timers && timers[t].stage == Fired
    ensures Times(calls, timers[t := timers[t].(stage := Locked)])
  {
  }

  lemma TimesMark(calls: Calls, timers: Timers, t: TimerId)
    requires Times(calls, timers) && t in timers && timers[t].stage == Locked
    requires calls[timers[t].call].cancelled.None?
    ensures var c := timers[t].call;
            Times(calls[c := calls[c].(cancelled := Some(t))], timers[t := timers[t].(stage := Marked)])
  {
  }

  lemma TimesOver(calls: Calls, timers: Timers, t: TimerId)
    requires Times(calls, timers) && t in timers
    requires timers[t].stage == Marked || calls[timers[t].call].phase.Done? || calls[timers[t].call].cancelled.Some?
    ensures Times(calls, timers[t := timers[t].(stage := Over)])
  {
  }

  // ----- Every run -------------------------------------------------------------

  lemma StepKeepsInv(s: State, a: Action)
    requires Inv(s) && Enabled(s, a)
    ensures Inv(Step(s, a))
  {
    hide CurrentCalls, OneWakeUp, TimersOwned, Marks, TimeoutPending;
    match a
    case Begin(c, co, slot, timed) =>
      var call := Call(co, slot, timed, Trying, None, None);
      CurrentBegin(s.calls, s.current, c, call);
      WakeUpsBegin(s.calls, s.slots, s.ready, s.current, c, call);
      TimesBegin(s.calls, s.timers, c, call);
    case Return(c) =>
      CurrentFinish(s.calls, s.current, c, s.calls[c].(phase := Done(Returned)));
      WakeUpsFinish(s.calls, s.slots, s.ready, s.current, c, s.calls[c].(phase := Done(Returned)));
      TimesGoto(s.calls, s.timers, c, Done(Returned));
    case Again(c, t) =>
      var call := if s.calls[c].timed then s.calls[c].(phase := TimerSet, timer := Some(t))
                  else s.calls[c].(phase := TimerSet, timer := None);
      CurrentGoto(s.calls, s.current, c, call);
      WakeUpsGoto(s.calls, s.slots, s.ready, s.current, c, call);
      if s.calls[c].timed { TimesNewTimer(s.calls, s.timers, c, t); } else { TimesNoTimer(s.calls, s.timers, c); }
    case AddOk(c) =>
      CurrentGoto(s.calls, s.current, c, s.calls[c].(phase := Armed));
      WakeUpsArm(s.calls, s.slots, s.ready, s.current, c);
      TimesGoto(s.calls, s.timers, c, Armed);
    case AddFail(c) =>
      CurrentFinish(s.calls, s.current, c, s.calls[c].(phase := Done(AddFailed)));
      WakeUpsFinish(s.calls, s.slots, s.ready, s.current, c, s.calls[c].(phase := Done(AddFailed)));
      TimesStop(s.calls, s.timers, c, Done(AddFailed));
    case Yield(c) =>
      CurrentGoto(s.calls, s.current, c, s.calls[c].(phase := Suspended));
      WakeUpsGoto(s.calls, s.slots, s.ready, s.current, c, s.calls[c].(phase := Suspended));
      TimesGoto(s.calls, s.timers, c, Suspended);
    case Wake(slot) =>
      WakeUpsWake(s.calls, s.slots, s.ready, s.current, slot);
    case Resume(c) =>
      CurrentGoto(s.calls, s.current, c, s.calls[c].(phase := Resumed));
      WakeUpsResume(s.calls, s.slots, s.ready, s.current, c);
      TimesGoto(s.calls, s.timers, c, Resumed);
    case StopTimer(c) =>
      CurrentGoto(s.calls, s.current, c, s.calls[c].(phase := Checking));
      WakeUpsGoto(s.calls, s.slots, s.ready, s.current, c, s.calls[c].(phase := Checking));
      TimesStop(s.calls, s.timers, c, Checking);
    case Verdict(c) =>
      if s.calls[c].cancelled.Some? {
        CurrentFinish(s.calls, s.current, c, s.calls[c].(phase := Done(TimedOut)));
        WakeUpsFinish(s.calls, s.slots, s.ready, s.current, c, s.calls[c].(phase := Done(TimedOut)));
        TimesGoto(s.calls, s.timers, c, Done(TimedOut));
      } else {
        CurrentGoto(s.calls, s.current, c, s.calls[c].(phase := Trying));
        WakeUpsGoto(s.calls, s.slots, s.ready, s.current, c, s.calls[c].(phase := Trying));
        TimesGoto(s.calls, s.timers, c, Trying);
      }
    case Expire(t) =>
      TimesExpire(s.calls, s.timers, t);
    case Lock(t) =>
      if InfoAlive(s, s.timers[t].call) {
        TimesLock(s.calls, s.timers, t);
      } else {
        TimesOver(s.calls, s.timers, t);
      }
    case Check(t) =>
      var c := s.timers[t].call;
      if s.calls[c].cancelled.Some? {
        TimesOver(s.calls, s.timers, t);
      } else {
        CurrentGoto(s.calls, s.current, c, s.calls[c].(cancelled := Some(t)));
        WakeUpsGoto(s.calls, s.slots, s.ready, s.current, c, s.calls[c].(cancelled := Some(t)));
        TimesMark(s.calls, s.timers, t);
      }
    case Cancel(t) =>
      var slot := s.calls[s.timers[t].call].slot;
      if slot in s.slots {
        WakeUpsWake(s.calls, s.slots, s.ready, s.current, slot);
      }
      TimesOver(s.calls, s.timers, t);
  }

  lemma {:induction false} RunKeepsInv(actions: seq<Action>)
    requires Run(actions).Some?
    ensures Inv(Run(actions).value)
  {
    if actions != [] {
      RunKeepsInv(actions[..|actions| - 1]);
      StepKeepsInv(Run(actions[..|actions| - 1]).value, actions[|actions| - 1]);
    }
  }

  /** In every reachable state a suspended call either has its slot armed with its own coroutine and
      nothing pending, or exactly one pending wake-up and its slot not armed by it. */
  lemma SuspendedHasOneWakeUp(actions: seq<Action>, c: CallId)
    requires Run(actions).Some? && At(Run(actions).value, c, Suspended)
    ensures var s := Run(actions).value;
            if Holds(s.calls[c], s.slots) then s.calls[c].co !in s.ready else s.ready[s.calls[c].co] == 1
  {
    RunKeepsInv(actions);
    var s := Run(actions).value;
    assert CallWakeUps(s.calls[c], s.slots, s.ready);
  }

  /** A call that has returned has left no timer in the set; a slot armed with its coroutine, or a
      wake-up pending for it, belongs to a later call. */
  lemma ReturnedCallLeavesNothing(actions: seq<Action>, c: CallId)
    requires Run(actions).Some?
    requires c in Run(actions).value.calls && Run(actions).value.calls[c].phase.Done?
    ensures var s := Run(actions).value;
            && NoLiveTimer(s.timers, c)
            && (forall sl <- s.slots :: s.slots[sl] == s.calls[c].co ==>
                  s.slots[sl] in s.current && s.current[s.slots[sl]] != c)
            && (s.calls[c].co in s.ready ==> s.calls[c].co in s.current && s.current[s.calls[c].co] != c)
  {
    RunKeepsInv(actions);
  }

  /** A timer is created by its call's Again and expires by its own Expire. */
  lemma StepTimers(s: State, a: Action, t: TimerId)
    requires Enabled(s, a) && t in Step(s, a).timers
    ensures var n := Step(s, a).timers[t];
            if t in s.timers
            then n.call == s.timers[t].call && (n.expired ==> s.timers[t].expired || a == Expire(t))
            else a == Again(n.call, t) && !n.expired
  {
  }

  lemma {:induction false} TimersHaveHistory(actions: seq<Action>, t: TimerId)
    requires Run(actions).Some? && t in Run(actions).value.timers
    ensures Again(Run(actions).value.timers[t].call, t) in actions
    ensures Run(actions).value.timers[t].expired ==> Expire(t) in actions
  {
    hide Step, Enabled;
    if actions != [] {
      var before, a := actions[..|actions| - 1], actions[|actions| - 1];
      assert actions == before + [a];
      StepTimers(Run(before).value, a, t);
      if t in Run(before).value.timers {
        TimersHaveHistory(before, t);
      }
    }
  }

  /** ETIMEDOUT is reported only if a timer created by that very call expired. */
  lemma TimedOutMeansExpired(actions: seq<Action>, c: CallId)
    requires Run(actions).Some? && At(Run(actions).value, c, Done(TimedOut))
    ensures exists t :: Again(c, t) in actions && Expire(t) in actions
  {
    RunKeepsInv(actions);
    var s := Run(actions).value;
    var t := s.calls[c].cancelled.value;
    TimersHaveHistory(actions, t);
  }

  // ----- Late callbacks --------------------------------------------------------

  /** The timeout callback run without interruption. */
  function Callback(s: State, t: TimerId): State
    requires Enabled(s, Lock(t))
  {
    var l := Step(s, Lock(t));
    var m := if Enabled(l, Check(t)) then Step(l, Check(t)) else l;
    if Enabled(m, Cancel(t)) then Step(m, Cancel(t)) else m
  }

  /** Uninterrupted, a callback whose `tinfo` is gone, or is marked already, touches no slot and
      resumes nobody; any other cancels whatever is armed on its call's slot. */
  lemma CallbackEffect(s: State, t: TimerId)
    requires Inv(s) && Enabled(s, Lock(t))
    ensures var c := s.timers[t].call;
            var call := s.calls[c];
            var n := Callback(s, t);
            if !InfoAlive(s, c) || call.cancelled.Some?
            then n == s.(timers := s.timers[t := s.timers[t].(stage := Over)])
            else n.slots == s.slots - {call.slot}
                 && n.ready == s.ready + if call.slot in s.slots then multiset{s.slots[call.slot]} else multiset{}
  {
    hide CurrentCalls, OneWakeUp, TimersOwned, Marks, TimeoutPending;
    var l := Step(s, Lock(t));
    assert Enabled(l, Check(t)) <==> InfoAlive(s, s.timers[t].call);
    if InfoAlive(s, s.timers[t].call) {
      var m := Step(l, Check(t));
      assert Enabled(m, Cancel(t)) <==> m.timers[t].stage == Marked;
    }
  }

  /** A cancellation reaches another call than its own exactly when the slot is armed and its own
      call no longer waits on it. The other call is only woken: whether it is marked does not change. */
  lemma CancelHitsAnother(s: State, t: TimerId)
    requires Inv(s) && Enabled(s, Cancel(t))
    ensures var c := s.timers[t].call;
            var slot := s.calls[c].slot;
            && (slot in s.slots && s.current[s.slots[slot]] != c <==>
                slot in s.slots && !(Waiting(s.calls[c].phase) && Holds(s.calls[c], s.slots)))
            && Step(s, Cancel(t)).calls == s.calls
  {
  }

  /** Extend a run by one enabled step. */
  lemma Go(run: seq<Action>, s: State, a: Action) returns (more: seq<Action>, next: State)
    requires Run(run) == Some(s) && Enabled(s, a)
    ensures more == run + [a] && next == Step(s, a) && Run(more) == Some(next)
  {
    more, next := run + [a], Step(s, a);
    assert more[..|run|] == run;
  }

  /** A timed call by coroutine 10 for slot 7 has set its timer. */
  lemma TimerIsSet() returns (run: seq<Action>, s: State)
    ensures Run(run) == Some(s)
    ensures s == State(map[0 := Call(10, 7, true, TimerSet, Some(100), None)], map[100 := Timeout(0, Live, false)],
                       map[], multiset{}, map[10 := 0])
  {
    assert Run([]) == Some(START);
    hide Run;
    run, s := Go([], START, Begin(0, 10, 7, true));
    run, s := Go(run, s, Again(0, 100));
  }

  /** The call is armed on slot 7; its timer has expired and the callback holds `tinfo`. */
  lemma LockedWhileArmed() returns (run: seq<Action>, s: State)
    ensures Run(run) == Some(s)
    ensures s == State(map[0 := Call(10, 7, true, Suspended, Some(100), None)], map[100 := Timeout(0, Locked, true)],
                       map[7 := 10], multiset{}, map[10 := 0])
  {
    run, s := TimerIsSet();
    hide Run;
    run, s := Go(run, s, AddOk(0));
    run, s := Go(run, s, Yield(0));
    run, s := Go(run, s, Expire(100));
    run, s := Go(run, s, Lock(100));
  }

  /** Readiness wakes the call, which takes its verdict: ETIMEDOUT if the callback has marked it
      before, another system call if not. */
  lemma WokenByReadiness(run: seq<Action>, s: State, marked: bool) returns (more: seq<Action>, n: State)
    requires var mark := if marked then Some(100) else None;
             var stage := if marked then Marked else Locked;
             s == State(map[0 := Call(10, 7, true, Suspended, Some(100), mark)], map[100 := Timeout(0, stage, true)],
                        map[7 := 10], multiset{}, map[10 := 0])
    requires Run(run) == Some(s)
    ensures Run(more) == Some(n)
    ensures n.timers == s.timers && n.slots == map[] && n.ready == multiset{}
    ensures marked ==> n.calls == map[0 := Call(10, 7, true, Done(TimedOut), Some(100), Some(100))] && n.current == map[]
    ensures !marked ==> n.calls == map[0 := Call(10, 7, true, Trying, Some(100), None)] && n.current == map[10 := 0]
  {
    hide Run;
    more, n := Go(run, s, Wake(7));
    more, n := Go(more, n, Resume(0));
    more, n := Go(more, n, StopTimer(0));
    more, n := Go(more, n, Verdict(0));
  }

  /** A later call by coroutine 11 waits on slot 7. */
  lemma LaterCallWaits(run: seq<Action>, s: State) returns (more: seq<Action>, n: State)
    requires Run(run) == Some(s) && s.slots == map[] && s.current == map[]
    requires 1 !in s.calls && 101 !in s.timers
    ensures Run(more) == Some(n) && n.timers == s.timers && n.slots == map[7 := 11] && n.ready == s.ready
    ensures n.calls == s.calls[1 := Call(11, 7, false, Suspended, None, None)]
  {
    hide Run;
    more, n := Go(run, s, Begin(1, 11, 7, false));
    more, n := Go(more, n, Again(1, 101));
    more, n := Go(more, n, AddOk(1));
    more, n := Go(more, n, Yield(1));
  }

  /** In some run the callback of a call that has reported ETIMEDOUT cancels what a later call
      registered on the same slot: readiness came between its mark and its cancellation. */
  lemma FinishedCallCancelsLaterOne() returns (run: seq<Action>, s: State)
    ensures Run(run) == Some(s) && Enabled(s, Cancel(100)) && s.timers[100].call == 0
    ensures At(s, 0, Done(TimedOut)) && At(s, 1, Suspended) && Holds(s.calls[1], s.slots)
    ensures s.calls[1].co in Step(s, Cancel(100)).ready
  {
    run, s := LockedWhileArmed();
    run, s := Go(run, s, Check(100));
    run, s := WokenByReadiness(run, s, true);
    run, s := LaterCallWaits(run, s);
  }

  /** In another the call has returned without a timeout: its callback had locked `tinfo` before, and
      marks the finished call before it cancels the later one. */
  lemma ReturnedCallCancelsLaterOne() returns (run: seq<Action>, s: State)
    ensures Run(run) == Some(s) && Enabled(s, Cancel(100)) && s.timers[100].call == 0
    ensures At(s, 0, Done(Returned)) && At(s, 1, Suspended) && Holds(s.calls[1], s.slots)
    ensures s.calls[1].co in Step(s, Cancel(100)).ready
  {
    run, s := LockedWhileArmed();
    run, s := WokenByReadiness(run, s, false);
    run, s := Go(run, s, Return(0));
    run, s := LaterCallWaits(run, s);
    run, s := Go(run, s, Check(100));
  }
}
