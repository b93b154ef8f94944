/**
 * What the event registrations of src/iomanager.cpp come to over a whole run, as a log of the
 * registrations, wake-ups and deletions on each (descriptor, direction) slot.
 */
module EventLogs {
  import opened Prelude

  datatype Kind = Read | Write

  /** Who is resumed when the event comes: a coroutine or a callback, by name. */
  datatype Waiter = Co(co: nat) | Cb(cb: nat)

  datatype Action =
    | Added(fd: nat, kind: Kind, w: Waiter)
    | Woke(fd: nat, kind: Kind, w: Waiter)
    | Deleted(fd: nat, kind: Kind)

  /** EventContext: the scheduler, if the slot is armed, and the waiter fields, which outlive it. */
  datatype Slot = Slot(armed: bool, coroutine: Option<nat>, cb: Option<nat>)

  const EMPTY_SLOT := Slot(false, None, None)

  /** A callback of the slot takes precedence over a coroutine. */
  function Resumed(s: Slot): Waiter
    requires s.coroutine.Some? || s.cb.Some?
  {
    if s.cb.Some? then Cb(s.cb.value) else Co(s.coroutine.value)
  }

  /** What the assertions of addEvent ask of the slot. */
  predicate CanArm(s: Slot) {
    !s.armed && (s.coroutine.None? || s.cb.None?)
  }

  function Arm(s: Slot, w: Waiter): Slot {
    match w
    case Cb(c) => Slot(true, s.coroutine, Some(c))
    case Co(c) => Slot(true, Some(c), s.cb)
  }

  /** triggerEvent forgets the scheduler and nothing else. */
  function Trigger(s: Slot): Slot { s.(armed := false) }

  /** What an action does to its slot. */
  function Next(s: Slot, a: Action): Slot {
    match a
    case Added(_, _, w) => Arm(s, w)
    case Woke(_, _, _) => Trigger(s)
    case Deleted(_, _) => EMPTY_SLOT
  }

  // ----- Runs ------------------------------------------------------------------

  function SlotAfter(log: seq<Action>, fd: nat, kind: Kind): (s: Slot)
    ensures s.armed ==> s.coroutine.Some? || s.cb.Some?
  {
    if log == [] then EMPTY_SLOT
    else
      var s := SlotAfter(log[..|log| - 1], fd, kind);
      var a := log[|log| - 1];
      if a.fd == fd && a.kind == kind then Next(s, a) else s
  }

  lemma SlotAfterMore(log: seq<Action>, a: Action, fd: nat, kind: Kind)
    ensures SlotAfter(log + [a], fd, kind) ==
      if a.fd == fd && a.kind == kind then Next(SlotAfter(log, fd, kind), a) else SlotAfter(log, fd, kind)
  {
    assert (log + [a])[..|log|] == log;
  }

  /** The action can happen after the log, and a wake-up resumes what the slot says. */
  predicate Enabled(log: seq<Action>, a: Action) {
    var s := SlotAfter(log, a.fd, a.kind);
    match a
    case Added(_, _, _) => CanArm(s)
    case Woke(_, _, w) => s.armed && w == Resumed(s)
    case Deleted(_, _) => s.armed
  }

  ghost predicate Legal(log: seq<Action>) {
    forall i :: 0 <= i < |log| ==> Enabled(log[..i], log[i])
  }

  lemma LegalExtends(log: seq<Action>, a: Action)
    requires Legal(log) && Enabled(log, a)
    ensures Legal(log + [a])
  {
    forall i | 0 <= i < |log + [a]|
      ensures Enabled((log + [a])[..i], (log + [a])[i])
    {
      if i < |log| {
        assert (log + [a])[..i] == log[..i];
      } else {
        assert (log + [a])[..i] == log;
      }
    }
  }

  lemma LegalPrefix(log: seq<Action>, n: nat)
    requires Legal(log) && n <= |log|
    ensures Legal(log[..n])
  {
    forall i | 0 <= i < n
      ensures Enabled(log[..n][..i], log[..n][i])
    {
      assert log[..n][..i] == log[..i];
    }
  }

  function Adds(log: seq<Action>, fd: nat, kind: Kind): nat {
    if log == [] then 0
    else
      var a := log[|log| - 1];
      Adds(log[..|log| - 1], fd, kind) + if a.fd == fd && a.kind == kind && a.Added? then 1 else 0
  }

  function Ends(log: seq<Action>, fd: nat, kind: Kind): nat {
    if log == [] then 0
    else
      var a := log[|log| - 1];
      Ends(log[..|log| - 1], fd, kind) + if a.fd == fd && a.kind == kind && !a.Added? then 1 else 0
  }

  /** On every slot, over every run: registrations = wake-ups + deletions + currently armed. */
  lemma {:induction false} Conservation(log: seq<Action>, fd: nat, kind: Kind)
    requires Legal(log)
    ensures Adds(log, fd, kind) == Ends(log, fd, kind) + if SlotAfter(log, fd, kind).armed then 1 else 0
  {
    if log == [] {
    } else {
      var n := |log| - 1;
      LegalPrefix(log, n);
      Conservation(log[..n], fd, kind);
      assert Enabled(log[..n], log[n]);
    }
  }

  /** The waiter of the last registration on the slot that has not ended; None: there is none. */
  function Outstanding(log: seq<Action>, fd: nat, kind: Kind): Option<Waiter> {
    if log == [] then None
    else
      var a := log[|log| - 1];
      if a.fd != fd || a.kind != kind then Outstanding(log[..|log| - 1], fd, kind)
      else if a.Added? then Some(a.w) else None
  }

  /** Some callback has been registered on the slot since its last deletion. */
  predicate CallbackLeft(log: seq<Action>, fd: nat, kind: Kind) {
    if log == [] then false
    else
      var a := log[|log| - 1];
      if a.fd != fd || a.kind != kind then CallbackLeft(log[..|log| - 1], fd, kind)
      else match a
        case Added(_, _, w) => w.Cb? || CallbackLeft(log[..|log| - 1], fd, kind)
        case Woke(_, _, _) => CallbackLeft(log[..|log| - 1], fd, kind)
        case Deleted(_, _) => false
  }

  /** Some coroutine has been registered on the slot since its last deletion. */
  predicate CoroutineLeft(log: seq<Action>, fd: nat, kind: Kind) {
    if log == [] then false
    else
      var a := log[|log| - 1];
      if a.fd != fd || a.kind != kind then CoroutineLeft(log[..|log| - 1], fd, kind)
      else match a
        case Added(_, _, w) => w.Co? || CoroutineLeft(log[..|log| - 1], fd, kind)
        case Woke(_, _, _) => CoroutineLeft(log[..|log| - 1], fd, kind)
        case Deleted(_, _) => false
  }

  lemma {:induction false} SlotTellsOutstanding(log: seq<Action>, fd: nat, kind: Kind)
    requires Legal(log)
    ensures var s, o := SlotAfter(log, fd, kind), Outstanding(log, fd, kind);
            && (s.armed <==> o.Some?)
            && (s.cb.Some? <==> CallbackLeft(log, fd, kind)) && (s.coroutine.Some? <==> CoroutineLeft(log, fd, kind))
            && (o.Some? ==> if o.value.Cb? then s.cb == Some(o.value.cb) else s.coroutine == Some(o.value.co))
  {
    if log == [] {
    } else {
      var n := |log| - 1;
      LegalPrefix(log, n);
      SlotTellsOutstanding(log[..n], fd, kind);
      assert Enabled(log[..n], log[n]);
    }
  }

  /** Every wake-up ends the registration outstanding on its slot, and resumes the waiter of that
      registration iff it is not a coroutine on a slot where a callback was left behind. */
  lemma WakeUpMatches(log: seq<Action>, i: nat)
    requires Legal(log) && i < |log| && log[i].Woke?
    ensures var a, o := log[i], Outstanding(log[..i], log[i].fd, log[i].kind);
            && o.Some?
            && (a.w == o.value <==> !(o.value.Co? && CallbackLeft(log[..i], a.fd, a.kind)))
  {
    LegalPrefix(log, i);
    SlotTellsOutstanding(log[..i], log[i].fd, log[i].kind);
    assert Enabled(log[..i], log[i]);
  }

  /** The two assertions addEvent makes about a slot hold iff nobody waits there and not both kinds of
      waiter have been there since the last deletion. */
  lemma AssertionsHold(log: seq<Action>, fd: nat, kind: Kind)
    requires Legal(log)
    ensures CanArm(SlotAfter(log, fd, kind)) <==>
            Outstanding(log, fd, kind).None? && !(CallbackLeft(log, fd, kind) && CoroutineLeft(log, fd, kind))
  {
    SlotTellsOutstanding(log, fd, kind);
  }

  /** Only coroutines are ever registered on the slot. */
  ghost predicate CoroutinesOnly(log: seq<Action>, fd: nat, kind: Kind) {
    forall a <- log :: a.Added? && a.fd == fd && a.kind == kind ==> a.w.Co?
  }

  lemma {:induction false} CoroutinesLeaveNoCallback(log: seq<Action>, fd: nat, kind: Kind)
    requires CoroutinesOnly(log, fd, kind)
    ensures !CallbackLeft(log, fd, kind)
  {
    if log != [] {
      var n := |log| - 1;
      assert log[n] in log && forall a <- log[..n] :: a in log;
      CoroutinesLeaveNoCallback(log[..n], fd, kind);
    }
  }

  /** On slots used by coroutines alone, as the hooked system calls use them, every wake-up
      resumes exactly the coroutine that was waiting. */
  lemma CoroutineSlotsMatch(log: seq<Action>, i: nat)
    requires Legal(log) && i < |log| && log[i].Woke?
    requires CoroutinesOnly(log, log[i].fd, log[i].kind)
    ensures Outstanding(log[..i], log[i].fd, log[i].kind) == Some(log[i].w)
  {
    assert forall a <- log[..i] :: a in log;
    CoroutinesLeaveNoCallback(log[..i], log[i].fd, log[i].kind);
    WakeUpMatches(log, i);
  }

  /** A callback, its wake-up, then a coroutine: the coroutine's event runs the callback again, and the
      next registration on the slot fails an assertion although nobody waits there. */
  lemma LeftCallbackShadows(fd: nat, kind: Kind, cb: nat, co: nat)
    ensures var log := [Added(fd, kind, Cb(cb)), Woke(fd, kind, Cb(cb)), Added(fd, kind, Co(co)), Woke(fd, kind, Cb(cb))];
            Legal(log) && Outstanding(log, fd, kind).None? && !CanArm(SlotAfter(log, fd, kind))
  {
    var a, b, c, d := Added(fd, kind, Cb(cb)), Woke(fd, kind, Cb(cb)), Added(fd, kind, Co(co)), Woke(fd, kind, Cb(cb));
    LegalExtends([], a);
    LegalExtends([a], b);
    assert [a] + [b] == [a, b];
    assert [a, b][..1] == [a];
    LegalExtends([a, b], c);
    assert [a, b] + [c] == [a, b, c];
    assert [a, b, c][..2] == [a, b];
    LegalExtends([a, b, c], d);
    assert [a, b, c] + [d] == [a, b, c, d];
    assert [a, b, c, d][..3] == [a, b, c];
  }
}
