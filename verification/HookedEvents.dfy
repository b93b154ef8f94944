/**
 * The runs of do_io in src/hook.cpp as runs of the event registration of src/iomanager.cpp: what
 * the protocol does to its slots is a legal log of registrations and wake-ups of coroutines.
 */
module HookedEvents {
  import opened Prelude
  import E = EventLogs
  import H = HookedIo

  // A slot number stands for a descriptor and a direction.
  function Fd(slot: H.SlotId): nat { slot / 2 }
  function KindOf(slot: H.SlotId): E.Kind { if slot % 2 == 0 then E.Read else E.Write }
  function SlotOf(fd: nat, kind: E.Kind): H.SlotId { 2 * fd + if kind == E.Read then 0 else 1 }

  lemma SlotNames(slot: H.SlotId, fd: nat, kind: E.Kind)
    ensures SlotOf(Fd(slot), KindOf(slot)) == slot
    ensures Fd(SlotOf(fd, kind)) == fd && KindOf(SlotOf(fd, kind)) == kind
  {
  }

  /** The wake-up of whoever is armed on the slot. */
  function WakeEvent(s: H.State, slot: H.SlotId): seq<E.Action> {
    if slot in s.slots then [E.Woke(Fd(slot), KindOf(slot), E.Co(s.slots[slot]))] else []
  }

  /** What a step of the protocol is to the event slots. */
  function EventOf(s: H.State, a: H.Action): seq<E.Action>
    requires H.Enabled(s, a)
  {
    match a
    case AddOk(c) => [E.Added(Fd(s.calls[c].slot), KindOf(s.calls[c].slot), E.Co(s.calls[c].co))]
    case Wake(slot) => WakeEvent(s, slot)
    case Cancel(t) => WakeEvent(s, s.calls[s.timers[t].call].slot)
    case _ => []
  }

  function EventsOf(actions: seq<H.Action>): seq<E.Action>
    requires H.Run(actions).Some?
  {
    if actions == [] then []
    else
      var before := actions[..|actions| - 1];
      EventsOf(before) + EventOf(H.Run(before).value, actions[|actions| - 1])
  }

  /** The slot is armed in the log iff it is in the protocol, with the same coroutine, and no callback
      is ever in it. */
  ghost predicate SameSlots(log: seq<E.Action>, slots: H.Slots) {
    forall slot: H.SlotId ::
      var s := E.SlotAfter(log, Fd(slot), KindOf(slot));
      && s.cb.None? && (s.armed <==> slot in slots)
      && (slot in slots ==> s.coroutine == Some(slots[slot]))
  }

  ghost predicate CoroutinesOnly(log: seq<E.Action>) {
    forall a <- log :: a.Deleted? || a.w.Co?
  }

  /** One event on a slot, in the log and in the protocol. */
  lemma SlotsMore(log: seq<E.Action>, slots: H.Slots, a: E.Action, slot: H.SlotId, next: H.Slots)
    requires SameSlots(log, slots) && a.fd == Fd(slot) && a.kind == KindOf(slot) && !a.Deleted? && a.w.Co?
    requires next == if a.Added? then slots[slot := a.w.co] else slots - {slot}
    ensures SameSlots(log + [a], next)
  {
    forall other: H.SlotId
      ensures var s := E.SlotAfter(log + [a], Fd(other), KindOf(other));
              && s.cb.None? && (s.armed <==> other in next) && (other in next ==> s.coroutine == Some(next[other]))
    {
      SlotNames(slot, 0, E.Read);
      SlotNames(other, 0, E.Read);
      E.SlotAfterMore(log, a, Fd(other), KindOf(other));
      assert E.SlotAfter(log, Fd(other), KindOf(other)).cb.None?;
    }
  }

  lemma WakeKeeps(log: seq<E.Action>, s: H.State, slot: H.SlotId)
    requires E.Legal(log) && SameSlots(log, s.slots) && CoroutinesOnly(log)
    ensures var more := log + WakeEvent(s, slot);
            E.Legal(more) && SameSlots(more, H.WakeSlot(s, slot).slots) && CoroutinesOnly(more)
  {
    if slot in s.slots {
      var a := E.Woke(Fd(slot), KindOf(slot), E.Co(s.slots[slot]));
      assert E.SlotAfter(log, Fd(slot), KindOf(slot)).armed;
      E.LegalExtends(log, a);
      SlotsMore(log, s.slots, a, slot, s.slots - {slot});
    } else {
      assert log + [] == log;
    }
  }

  lemma AddKeeps(log: seq<E.Action>, slots: H.Slots, slot: H.SlotId, co: H.Coroutine)
    requires E.Legal(log) && SameSlots(log, slots) && CoroutinesOnly(log) && slot !in slots
    ensures var more := log + [E.Added(Fd(slot), KindOf(slot), E.Co(co))];
            E.Legal(more) && SameSlots(more, slots[slot := co]) && CoroutinesOnly(more)
  {
    var a := E.Added(Fd(slot), KindOf(slot), E.Co(co));
    assert !E.SlotAfter(log, Fd(slot), KindOf(slot)).armed;
    E.LegalExtends(log, a);
    SlotsMore(log, slots, a, slot, slots[slot := co]);
  }

  lemma StepProjects(log: seq<E.Action>, s: H.State, a: H.Action)
    requires H.Enabled(s, a) && E.Legal(log) && SameSlots(log, s.slots) && CoroutinesOnly(log)
    ensures var more := log + EventOf(s, a);
            E.Legal(more) && SameSlots(more, H.Step(s, a).slots) && CoroutinesOnly(more)
  {
    if a.AddOk? {
      AddKeeps(log, s.slots, s.calls[a.c].slot, s.calls[a.c].co);
    } else if a.Wake? {
      WakeKeeps(log, s, a.slot);
    } else if a.Cancel? {
      WakeKeeps(log, s, s.calls[s.timers[a.t].call].slot);
    } else {
      assert log + [] == log;
      assert H.Step(s, a).slots == s.slots;
    }
  }

  /** Every run of the protocol is a legal run of the event slots, in which coroutines alone wait. */
  lemma {:induction false} RunProjects(actions: seq<H.Action>)
    requires H.Run(actions).Some?
    ensures var log := EventsOf(actions);
            E.Legal(log) && SameSlots(log, H.Run(actions).value.slots) && CoroutinesOnly(log)
  {
    if actions != [] {
      var before := actions[..|actions| - 1];
      RunProjects(before);
      StepProjects(EventsOf(before), H.Run(before).value, actions[|actions| - 1]);
    }
  }

  /** So every wake-up in do_io resumes exactly the coroutine whose registration it ends, and on every
      slot registrations = wake-ups + armed. */
  lemma WakeUpsMatch(actions: seq<H.Action>, i: nat)
    requires H.Run(actions).Some? && i < |EventsOf(actions)| && EventsOf(actions)[i].Woke?
    ensures var log := EventsOf(actions); E.Outstanding(log[..i], log[i].fd, log[i].kind) == Some(log[i].w)
  {
    RunProjects(actions);
    E.CoroutineSlotsMatch(EventsOf(actions), i);
  }

  lemma RegistrationsBalance(actions: seq<H.Action>, slot: H.SlotId)
    requires H.Run(actions).Some?
    ensures var log := EventsOf(actions);
            E.Adds(log, Fd(slot), KindOf(slot)) ==
            E.Ends(log, Fd(slot), KindOf(slot)) + if slot in H.Run(actions).value.slots then 1 else 0
  {
    RunProjects(actions);
    E.Conservation(EventsOf(actions), Fd(slot), KindOf(slot));
  }
}
