/**
 * Event registration in src/iomanager.cpp: one context per descriptor with a bit mask and two
 * slots, the count of pending events, and the epoll interest table they have to agree with.
 * Each method is one critical section.
 */
module IoManagers {
  import opened Prelude
  import opened EventLogs

  class FdContext {
    const fd: nat
    var read: Slot
    var write: Slot
    var event: set<Kind>

    constructor (fd: nat)
      ensures this.fd == fd && read == EMPTY_SLOT && write == EMPTY_SLOT && event == {}
    {
      this.fd, read, write, event := fd, EMPTY_SLOT, EMPTY_SLOT, {};
    }

    function GetContext(kind: Kind): Slot
      reads this`read, this`write
    {
      if kind == Read then read else write
    }

    /** A bit is set iff its slot is armed. */
    ghost predicate BitsAreArmed()
      reads this
    {
      forall k :: k in event <==> GetContext(k).armed
    }

    method SetContext(kind: Kind, s: Slot)
      modifies this`read, this`write
      ensures GetContext(kind) == s
      ensures forall k :: k != kind ==> GetContext(k) == old(GetContext(k))
    {
      if kind == Read {
        read := s;
      } else {
        write := s;
      }
    }
  }

  /** The number of bits set in all masks. */
  function Bits(masks: seq<set<Kind>>): nat {
    if masks == [] then 0 else Bits(masks[..|masks| - 1]) + |masks[|masks| - 1]|
  }

  lemma {:induction false} BitsUpdate(masks: seq<set<Kind>>, i: nat, m: set<Kind>)
    requires i < |masks|
    ensures Bits(masks[i := m]) == Bits(masks) - |masks[i]| + |m|
    ensures |masks[i]| <= Bits(masks)
  {
    var n := |masks| - 1;
    if i == n {
      assert masks[i := m][..n] == masks[..n];
    } else {
      assert masks[i := m][..n] == masks[..n][i := m];
      BitsUpdate(masks[..n], i, m);
    }
  }

  /** The three operations of epoll_ctl. */
  datatype Op = Add | Mod | Del

  /** What epoll_ctl demands: ADD of a descriptor that is not there, MOD and DEL of one that is. */
  predicate LegalOp(interest: map<nat, set<Kind>>, op: Op, fd: nat) {
    op == Add <==> fd !in interest
  }

  function Ctl(interest: map<nat, set<Kind>>, op: Op, fd: nat, events: set<Kind>): map<nat, set<Kind>>
    requires LegalOp(interest, op, fd)
  {
    if op == Del then interest - {fd} else interest[fd := events]
  }

  /** Besides the manager's own descriptors, which no context uses, the kernel watches exactly the
      armed bits. */
  ghost predicate Agrees(own: set<nat>, interest: map<nat, set<Kind>>, masks: seq<set<Kind>>) {
    && (forall fd: nat :: fd in interest <==> fd in own || (fd < |masks| && masks[fd] != {}))
    && (forall fd: nat :: fd in interest && fd !in own ==> interest[fd] == masks[fd])
    && (forall fd: nat :: fd in own && fd < |masks| ==> masks[fd] == {})
  }

  /** The operation the source chooses: ADD for the first bit, DEL for the last, MOD between. */
  function Choose(mask: set<Kind>, left: set<Kind>): Op {
    if mask == {} then Add else if left == {} then Del else Mod
  }

  /** It is legal but for the manager's own descriptors, and brings the table along. */
  lemma ChosenOpLegal(own: set<nat>, interest: map<nat, set<Kind>>, masks: seq<set<Kind>>, fd: nat, left: set<Kind>)
    requires Agrees(own, interest, masks) && fd < |masks| && masks[fd] != left
    ensures var op := Choose(masks[fd], left);
            && (LegalOp(interest, op, fd) <==> fd !in own)
            && (fd !in own ==> Agrees(own, Ctl(interest, op, fd, left), masks[fd := left]))
  {
  }

  /** The wake-ups of the armed slots among `kinds`, READ first. */
  function Wakes(log: seq<Action>, fd: nat, kinds: set<Kind>): (woken: seq<Action>)
    ensures forall a <- woken :: a.Woke?
  {
    WakeOne(log, fd, Read, kinds) + WakeOne(log, fd, Write, kinds)
  }

  function WakeOne(log: seq<Action>, fd: nat, kind: Kind, kinds: set<Kind>): seq<Action> {
    var s := SlotAfter(log, fd, kind);
    if kind in kinds && s.armed then [Woke(fd, kind, Resumed(s))] else []
  }

  function Waiters(woken: seq<Action>): seq<Waiter>
    requires forall a <- woken :: a.Woke?
  {
    if woken == [] then [] else Waiters(woken[..|woken| - 1]) + [woken[|woken| - 1].w]
  }

  lemma ArmedAfter(s: Slot, a: Action)
    ensures Next(s, a).armed == a.Added?
  {
  }

  /** How a call ends: done; nothing to do, or refused by the kernel (`addEvent` returns -1, the others
      false); or an assertion fails, or memory behind the contexts or a null scheduler is used. */
  datatype Reply = Accepted | Refused | Broken

  /** What epoll reports of a descriptor. */
  datatype Flag = In | Out | Err | Hup

  /** real_events in `idle`: errors and hang-ups are masked away. */
  function RealEvents(report: set<Flag>): set<Kind> {
    var masked := if Err in report || Hup in report then report * {In, Out} else report;
    (if In in masked then {Read} else {}) + (if Out in masked then {Write} else {})
  }

  lemma RealEventsAre(report: set<Flag>)
    ensures Read in RealEvents(report) <==> In in report
    ensures Write in RealEvents(report) <==> Out in report
  {
  }

  class IOManager {
    var contexts: seq<FdContext>
    var pending: nat
    // The kernel's interest table, and the tasks handed to the scheduler.
    var interest: map<nat, set<Kind>>
    var scheduled: seq<Waiter>
    // The pipe and the eventfd that wake `idle`.
    const own: set<nat>

    ghost var masks: seq<set<Kind>>
    ghost var log: seq<Action>

    /** Each context is at its own descriptor's place. */
    ghost predicate Placed()
      reads this`contexts
    {
      forall i: nat :: i < |contexts| ==> contexts[i].fd == i
    }

    /** The count is the number of bits in all masks. */
    ghost predicate Counted()
      reads this`contexts, this`masks, this`pending, contexts`event
    {
      && |masks| == |contexts|
      && (forall i: nat :: i < |contexts| ==> contexts[i].event == masks[i])
      && pending == Bits(masks)
    }

    /** The slots are what the log makes of them. */
    ghost predicate Logged()
      reads this`contexts, this`log, contexts`read, contexts`write
    {
      && Legal(log)
      && (forall i: nat, k :: i < |contexts| ==> contexts[i].GetContext(k) == SlotAfter(log, i, k))
      && (forall i: nat, k :: |contexts| <= i ==> SlotAfter(log, i, k) == EMPTY_SLOT)
    }

    ghost predicate Core()
      reads this`contexts, this`masks, this`log, this`pending, contexts
    {
      Placed() && Counted() && Logged() && forall c <- contexts :: c.BitsAreArmed()
    }

    ghost predicate Valid()
      reads this, contexts
    {
      32 <= |contexts| && Core() && Agrees(own, interest, masks)
    }

    /** What that says about one descriptor. */
    lemma CoreAt(fd: nat)
      requires Core()
      ensures |masks| == |contexts|
      ensures fd < |contexts| ==>
                var c := contexts[fd];
                && c.fd == fd && c.event == masks[fd] && c in contexts
                && forall k :: c.GetContext(k) == SlotAfter(log, fd, k) && (k in c.event <==> SlotAfter(log, fd, k).armed)
      ensures fd >= |contexts| ==> forall k :: SlotAfter(log, fd, k) == EMPTY_SLOT
      ensures Legal(log)
    {
      assert fd < |contexts| ==> contexts[fd].BitsAreArmed();
    }

    constructor (own: set<nat>)
      ensures Valid() && |contexts| == 32 && pending == 0 && scheduled == [] && log == [] && this.own == own
      ensures interest == map fd | fd in own :: {Read}
    {
      this.own := own;
      contexts, pending, interest, scheduled := [], 0, map fd | fd in own :: {Read}, [];
      masks, log := [], [];
      new;
      ContextResize(32);
    }

    /** One context per descriptor below `size`; the new ones are empty. */
    method ContextResize(size: nat)
      requires Core() && |contexts| <= size
      modifies this`contexts, this`masks
      ensures Core() && |contexts| == size && old(contexts) <= contexts
      ensures old(masks) <= masks
      ensures forall i :: |old(masks)| <= i < size ==> masks[i] == {}
      ensures forall c <- contexts :: c in old(contexts) || fresh(c)
    {
      while |contexts| < size
        invariant Core() && |contexts| <= size && old(contexts) <= contexts
        invariant old(masks) <= masks
        invariant forall i :: |old(masks)| <= i < |masks| ==> masks[i] == {}
        invariant forall c <- contexts :: c in old(contexts) || fresh(c)
      {
        var c := new FdContext(|contexts|);
        contexts := contexts + [c];
        masks := masks + [{}];
      }
    }

    /** Set or clear one bit, and count it. */
    method FlipBit(c: FdContext, kind: Kind, on: bool)
      requires Placed() && Counted() && c in contexts && (on <==> kind !in c.event)
      modifies this`pending, this`masks, c`event
      ensures Counted() && c.event == (if on then old(c.event) + {kind} else old(c.event) - {kind})
      ensures masks == old(masks)[c.fd := c.event]
      ensures pending == if on then old(pending) + 1 else old(pending) - 1
    {
      var event := if on then c.event + {kind} else c.event - {kind};
      BitsUpdate(masks, c.fd, event);
      pending := if on then pending + 1 else pending - 1;
      c.event := event;
      masks := masks[c.fd := event];
    }

    /** Bring one slot up to date with an action. */
    method SetSlot(c: FdContext, a: Action)
      requires Placed() && Logged() && c in contexts && a.fd == c.fd && Enabled(log, a)
      modifies this`log, c`read, c`write
      ensures Logged() && log == old(log) + [a]
      ensures c.GetContext(a.kind) == Next(old(c.GetContext(a.kind)), a)
      ensures forall k :: k != a.kind ==> c.GetContext(k) == old(c.GetContext(k))
    {
      LegalExtends(log, a);
      forall fd: nat, k
        ensures SlotAfter(log + [a], fd, k) ==
          if a.fd == fd && a.kind == k then Next(SlotAfter(log, fd, k), a) else SlotAfter(log, fd, k)
      {
        SlotAfterMore(log, a, fd, k);
      }
      hide Next, Enabled, Legal;
      c.SetContext(a.kind, Next(c.GetContext(a.kind), a));
      log := log + [a];
    }

    /** Bring one context up to date with an action: the bit mask, the slot, the count. */
    method Apply(c: FdContext, a: Action)
      requires Core() && c in contexts && a.fd == c.fd && Enabled(log, a)
      modifies this`pending, this`masks, this`log, c
      ensures Core()
      ensures log == old(log) + [a] && masks == old(masks)[c.fd := c.event]
      ensures c.event == if a.Added? then old(c.event) + {a.kind} else old(c.event) - {a.kind}
      ensures pending == if a.Added? then old(pending) + 1 else old(pending) - 1
    {
      assert c.GetContext(a.kind) == SlotAfter(log, a.fd, a.kind);
      assert a.kind in c.event <==> !a.Added?;
      ArmedAfter(c.GetContext(a.kind), a);
      hide IOManager.Counted, IOManager.Logged, Next, Enabled;
      FlipBit(c, a.kind, a.Added?);
      SetSlot(c, a);
      assert c.BitsAreArmed();
      hide FdContext.BitsAreArmed;
      forall d | d in contexts ensures d.BitsAreArmed() {
        assert d == c || old(d.BitsAreArmed());
      }
    }

    /** triggerEvent and the count its callers take off right after it. */
    method TriggerEvent(c: FdContext, kind: Kind)
      requires Core() && c in contexts && kind in c.event
      modifies this`scheduled, this`pending, this`masks, this`log, c
      ensures Core()
      ensures c.event == old(c.event) - {kind} && masks == old(masks)[c.fd := c.event]
      ensures var w := Resumed(old(SlotAfter(log, c.fd, kind)));
              scheduled == old(scheduled) + [w] && log == old(log) + [Woke(c.fd, kind, w)]
    {
      CoreAt(c.fd);
      hide IOManager.Core;
      var w := Resumed(c.GetContext(kind));
      Apply(c, Woke(c.fd, kind, w));
      scheduled := scheduled + [w];
    }

    /** Trigger one event if its bit is among `kinds` and set. */
    method TriggerIf(c: FdContext, kind: Kind, kinds: set<Kind>)
      requires Core() && c in contexts
      modifies this`scheduled, this`pending, this`masks, this`log, c
      ensures Core()
      ensures c.event == (if kind in kinds then old(c.event) - {kind} else old(c.event))
      ensures masks == old(masks)[c.fd := c.event]
      ensures log == old(log) + WakeOne(old(log), c.fd, kind, kinds)
      ensures scheduled == old(scheduled) + Waiters(WakeOne(old(log), c.fd, kind, kinds))
    {
      CoreAt(c.fd);
      hide IOManager.Core;
      if kind in kinds && kind in c.event {
        TriggerEvent(c, kind);
      }
    }

    /** READ before WRITE, each only if its bit is among `kinds` and set. */
    method TriggerBoth(c: FdContext, kinds: set<Kind>)
      requires Core() && c in contexts
      modifies this`scheduled, this`pending, this`masks, this`log, c
      ensures Core()
      ensures c.event == old(c.event) - kinds && masks == old(masks)[c.fd := c.event]
      ensures log == old(log) + Wakes(old(log), c.fd, kinds)
      ensures scheduled == old(scheduled) + Waiters(Wakes(old(log), c.fd, kinds))
    {
      WakesStep(log, c.fd, kinds);
      hide IOManager.Core, WakeOne, Waiters, Wakes;
      ghost var r, w := WakeOne(log, c.fd, Read, kinds), WakeOne(log, c.fd, Write, kinds);
      TriggerIf(c, Read, kinds);
      TriggerIf(c, Write, kinds);
      Regroup(old(log), r, w);
      Regroup(old(scheduled), Waiters(r), Waiters(w));
    }

    /** addEvent under the context's lock. The caller owes that the bit is not set, which the source
        asserts first. Then the slot cannot be armed, which it asserts second; that not both waiters
        are left in it, which it asserts third, can fail, with bit, count and kernel table changed. */
    method Register(c: FdContext, kind: Kind, w: Waiter, granted: bool) returns (r: Reply)
      requires Valid() && c.fd < |contexts| && c == contexts[c.fd]
      requires kind !in c.event
      modifies this`pending, this`interest, this`masks, this`log, c
      ensures r == if !granted || c.fd in own then Refused
                   else if CallbackLeft(old(log), c.fd, kind) && CoroutineLeft(old(log), c.fd, kind) then Broken
                   else Accepted
      ensures r != Broken ==> Valid()
      ensures r == Accepted ==> log == old(log) + [Added(c.fd, kind, w)] && pending == old(pending) + 1
      ensures r == Broken ==>
                && log == old(log) && c.event == old(c.event) + {kind} && pending == old(pending) + 1
                && c.fd in interest && interest[c.fd] == c.event && c.GetContext(kind) == old(c.GetContext(kind))
      ensures r == Refused ==> log == old(log) && pending == old(pending) && interest == old(interest)
    {
      CoreAt(c.fd);
      SlotTellsOutstanding(log, c.fd, kind);
      var op := if c.event != {} then Mod else Add;
      ChosenOpLegal(own, interest, masks, c.fd, c.event + {kind});
      hide IOManager.Core, SlotAfter, Legal;
      if !granted || !LegalOp(interest, op, c.fd) {
        return Refused;
      }
      interest := Ctl(interest, op, c.fd, c.event + {kind});
      var slot := c.GetContext(kind);
      assert !slot.armed;
      if slot.coroutine.Some? && slot.cb.Some? {
        pending := pending + 1;
        c.event := c.event + {kind};
        return Broken;
      }
      Apply(c, Added(c.fd, kind, w));
      return Accepted;
    }

    /** The same for any descriptor; the kernel may refuse (`granted` is false), and refuses the
        manager's own descriptors, which it watches already. */
    method AddEvent(fd: nat, kind: Kind, w: Waiter, granted: bool) returns (r: Reply)
      requires Valid()
      requires fd < |contexts| ==> kind !in contexts[fd].event
      modifies this`contexts, this`pending, this`interest, this`masks, this`log, contexts
      ensures old(contexts) <= contexts && fd < |contexts|
      ensures |contexts| == if fd < |old(contexts)| then |old(contexts)| else fd + fd / 2
      ensures r == if !granted || fd in own then Refused
                   else if CallbackLeft(old(log), fd, kind) && CoroutineLeft(old(log), fd, kind) then Broken
                   else Accepted
      ensures r != Broken ==> Valid()
      ensures r == Accepted ==> log == old(log) + [Added(fd, kind, w)] && pending == old(pending) + 1
      ensures r == Broken ==>
                && log == old(log) && kind in contexts[fd].event && pending == old(pending) + 1
                && fd in interest && kind in interest[fd] && !contexts[fd].GetContext(kind).armed
      ensures r == Refused ==> log == old(log) && pending == old(pending) && interest == old(interest)
    {
      CoreAt(fd);
      hide IOManager.Core, SlotAfter;
      if |contexts| <= fd {
        ContextResize(fd * 3 / 2);
      }
      CoreAt(fd);
      r := Register(contexts[fd], kind, w, granted);
    }

    /** Nothing is registered, or the kernel refuses: false. A descriptor equal to the number of
        contexts passes the source's bounds test and is read past the end, here and below. */
    method DelEvent(fd: nat, kind: Kind, granted: bool) returns (r: Reply)
      requires Valid()
      modifies this`pending, this`interest, this`masks, this`log, contexts
      ensures Valid()
      ensures r == if fd == |contexts| then Broken
                   else if granted && old(SlotAfter(log, fd, kind).armed) then Accepted else Refused
      ensures log == if r == Accepted then old(log) + [Deleted(fd, kind)] else old(log)
    {
      CoreAt(fd);
      hide IOManager.Core, SlotAfter;
      if |contexts| < fd {
        return Refused;
      }
      if |contexts| == fd {
        return Broken;
      }
      var c := contexts[fd];
      if kind !in c.event {
        return Refused;
      }
      var left := c.event - {kind};
      var op := if left != {} then Mod else Del;
      ChosenOpLegal(own, interest, masks, fd, left);
      if !granted {
        return Refused;
      }
      hide Agrees;
      interest := Ctl(interest, op, fd, left);
      Apply(c, Deleted(fd, kind));
      return Accepted;
    }

    method CancelEvent(fd: nat, kind: Kind, granted: bool) returns (r: Reply)
      requires Valid()
      modifies this`pending, this`interest, this`scheduled, this`masks, this`log, contexts
      ensures Valid()
      ensures r == if fd == |contexts| then Broken
                   else if granted && old(SlotAfter(log, fd, kind).armed) then Accepted else Refused
      ensures r != Accepted ==> log == old(log) && scheduled == old(scheduled)
      ensures r == Accepted ==> var w := Resumed(old(SlotAfter(log, fd, kind)));
                                log == old(log) + [Woke(fd, kind, w)] && scheduled == old(scheduled) + [w]
    {
      CoreAt(fd);
      hide IOManager.Core, SlotAfter;
      if |contexts| < fd {
        return Refused;
      }
      if |contexts| == fd {
        return Broken;
      }
      var c := contexts[fd];
      if kind !in c.event {
        return Refused;
      }
      var left := c.event - {kind};
      var op := if left != {} then Mod else Del;
      ChosenOpLegal(own, interest, masks, fd, left);
      if !granted {
        return Refused;
      }
      hide Agrees;
      interest := Ctl(interest, op, fd, left);
      TriggerEvent(c, kind);
      return Accepted;
    }

    /** Wakes whoever waits on the descriptor, readers first, and leaves nothing registered. */
    method CancelAll(fd: nat, granted: bool) returns (r: Reply)
      requires Valid()
      modifies this`pending, this`interest, this`scheduled, this`masks, this`log, contexts
      ensures Valid()
      ensures var woken := Wakes(old(log), fd, {Read, Write});
              && r == (if fd == |contexts| then Broken else if granted && woken != [] then Accepted else Refused)
              && log == (if r == Accepted then old(log) + woken else old(log))
              && scheduled == (if r == Accepted then old(scheduled) + Waiters(woken) else old(scheduled))
      ensures r == Accepted ==> fd < |masks| && masks[fd] == {}
    {
      CoreAt(fd);
      hide IOManager.Core, SlotAfter;
      if |contexts| < fd {
        return Refused;
      }
      if |contexts| == fd {
        return Broken;
      }
      var c := contexts[fd];
      if c.event == {} {
        return Refused;
      }
      assert Read in c.event || Write in c.event;
      ChosenOpLegal(own, interest, masks, fd, {});
      if !granted {
        return Refused;
      }
      interest := Ctl(interest, Del, fd, {});
      TriggerBoth(c, {Read, Write});
      // The source asserts that no bit is left.
      assert c.event == {};
      return Accepted;
    }

    /** One readiness report in `idle`. A report that reaches a set bit and also names one that is not
        set makes the source follow a null scheduler. */
    method Ready(fd: nat, report: set<Flag>) returns (r: Reply)
      requires Valid() && fd < |contexts|
      modifies this`pending, this`interest, this`scheduled, this`masks, this`log, contexts
      ensures var named := RealEvents(report);
              r == if old(masks[fd]) * named == {} then Refused else if named <= old(masks[fd]) then Accepted else Broken
      ensures r != Broken ==> Valid()
      ensures r != Broken ==>
                var woken := Wakes(old(log), fd, RealEvents(report));
                log == old(log) + woken && scheduled == old(scheduled) + Waiters(woken)
      ensures Read in RealEvents(report) <==> In in report
      ensures Write in RealEvents(report) <==> Out in report
    {
      CoreAt(fd);
      RealEventsAre(report);
      hide IOManager.Core, RealEvents, Wakes, Waiters;
      var c := contexts[fd];
      var named := RealEvents(report);
      if c.event * named == {} {
        assert forall k <- named :: k !in c.event;
        NoWakes(log, fd, named);
        return Refused;
      }
      var left := c.event - named;
      var op := if left != {} then Mod else Del;
      ChosenOpLegal(own, interest, masks, fd, left);
      hide Agrees;
      interest := Ctl(interest, op, fd, left);
      if !(named <= c.event) {
        return Broken;
      }
      TriggerBoth(c, named);
      return Accepted;
    }
  }

  lemma NoWakes(log: seq<Action>, fd: nat, kinds: set<Kind>)
    requires forall k <- kinds :: !SlotAfter(log, fd, k).armed
    ensures Wakes(log, fd, kinds) == [] && Waiters(Wakes(log, fd, kinds)) == []
  {
  }

  lemma WakesStep(log: seq<Action>, fd: nat, kinds: set<Kind>)
    ensures var r, w := WakeOne(log, fd, Read, kinds), WakeOne(log, fd, Write, kinds);
            && Wakes(log, fd, kinds) == r + w
            && WakeOne(log + r, fd, Write, kinds) == w
            && Waiters(r + w) == Waiters(r) + Waiters(w)
  {
    var r, w := WakeOne(log, fd, Read, kinds), WakeOne(log, fd, Write, kinds);
    WaitersAppend(r, w);
    if r == [] {
      assert log + r == log;
    } else {
      SlotAfterMore(log, r[0], fd, Write);
    }
  }

  /** A wake-up of some kinds schedules the waiter of each that is armed, the reader before the writer. */
  lemma WakesSchedule(log: seq<Action>, fd: nat, kinds: set<Kind>)
    ensures var r, w := SlotAfter(log, fd, Read), SlotAfter(log, fd, Write);
            Waiters(Wakes(log, fd, kinds)) == (if Read in kinds && r.armed then [Resumed(r)] else [])
                                              + (if Write in kinds && w.armed then [Resumed(w)] else [])
  {
    WakesStep(log, fd, kinds);
    OneWaiter(log, fd, Read, kinds);
    OneWaiter(log, fd, Write, kinds);
    hide WakeOne, Waiters, SlotAfter, Resumed;
  }

  lemma OneWaiter(log: seq<Action>, fd: nat, kind: Kind, kinds: set<Kind>)
    ensures var s, one := SlotAfter(log, fd, kind), WakeOne(log, fd, kind, kinds);
            (forall a <- one :: a.Woke?) && Waiters(one) == if kind in kinds && s.armed then [Resumed(s)] else []
  {
    var one := WakeOne(log, fd, kind, kinds);
    if one != [] {
      assert one[..0] == [];
    }
  }

  lemma WaitersAppend(a: seq<Action>, b: seq<Action>)
    requires |b| <= 1 && forall x <- a + b :: x.Woke?
    ensures (forall x <- a :: x.Woke?) && (forall x <- b :: x.Woke?)
    ensures Waiters(a + b) == Waiters(a) + Waiters(b)
  {
    assert forall x <- a :: x in a + b;
    assert forall x <- b :: x in a + b;
    if b == [] {
      assert a + b == a;
    } else {
      assert (a + b)[..|a|] == a;
    }
  }
}
