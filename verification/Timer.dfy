/**
 * The timer set of src/timer.cpp: objects with a mutable deadline kept in a set ordered by
 * that deadline, expiry, refresh and reset, and the flag that suppresses repeated wake-ups.
 * The wall clock comes in as the argument `now`.
 */
module Timers {
  import opened Prelude

  /** A callback, by name. */
  type Callback = nat

  /** A reading of the clock, in milliseconds: uint64_t. */
  type Clock = n: nat | n < 0x1_0000_0000_0000_0000

  /** One timer; `id` stands for its address, which breaks ties in the order. */
  class Timer {
    const id: nat
    const recurring: bool
    var ms: nat
    var next: nat
    var cb: Option<Callback>

    constructor (id: nat, now: nat, ms: nat, cb: Callback, recurring: bool)
      ensures this.id == id && this.recurring == recurring && this.ms == ms
      ensures this.next == now + ms && this.cb == Some(cb)
    {
      this.id, this.recurring, this.ms, this.next, this.cb := id, recurring, ms, now + ms, Some(cb);
    }
  }

  /** Timer::Comparator on non-null pointers, as deadline and address. */
  predicate Less(next1: nat, id1: nat, next2: nat, id2: nat) {
    next1 < next2 || (next1 == next2 && id1 < id2)
  }

  /** Strictly increasing: what std::set relies on. */
  ghost predicate Ordered(ts: seq<Timer>)
    reads ts`next
  {
    forall i, j :: 0 <= i < j < |ts| ==> Less(ts[i].next, ts[i].id, ts[j].next, ts[j].id)
  }

  /** Cutting an ordered list gives two ordered lists with nothing in common. */
  lemma SplitOrdered(ts: seq<Timer>, it: nat)
    requires Ordered(ts) && it <= |ts|
    ensures Ordered(ts[..it]) && Ordered(ts[it..])
    ensures forall u :: u in ts <==> u in ts[..it] || u in ts[it..]
    ensures forall u <- ts[..it] :: u !in ts[it..]
  {
    assert ts == ts[..it] + ts[it..];
  }

  class TimerManager {
    var timers: seq<Timer>
    var tickled: bool
    var previousTime: Clock
    // Calls of onTimerInsertedAtFront so far.
    var notifications: nat

    // Every timer ever created here, armed or not; the earliest deadline the last getNextTimer
    // saw (None: no timer); the notifications there had been by then.
    ghost var all: set<Timer>
    ghost var seen: Option<nat>
    ghost var notificationsSeen: nat

    /** The set is strictly ordered, holds exactly the armed timers, and addresses are unique. */
    ghost predicate Valid()
      reads this, all
    {
      && (forall t <- timers :: t in all)
      && (forall t <- all :: t in timers <==> t.cb.Some?)
      && (forall t <- all :: t.ms <= t.next)
      && (forall t <- all, u <- all :: t.id == u.id ==> t == u)
      && Ordered(timers)
      && notifications == notificationsSeen + if tickled then 1 else 0
    }

    /** Whoever sleeps until the deadline seen last either has been notified or misses nothing. */
    ghost predicate NoLostWakeUp()
      reads this, timers
    {
      tickled || forall t <- timers :: NotBefore(t.next)
    }

    /** `next` is no earlier than the deadline seen last. */
    ghost predicate NotBefore(next: nat)
      reads this
    {
      seen.Some? && seen.value <= next
    }

    constructor (now: Clock)
      ensures Valid() && NoLostWakeUp() && timers == [] && all == {} && previousTime == now
      ensures notifications == notificationsSeen == 0
    {
      timers, tickled, previousTime, notifications := [], false, now, 0;
      all, seen, notificationsSeen := {}, None, 0;
    }

    /** std::set::insert of a timer that is not there: its place p is the one the order gives it. */
    method SetInsert(t: Timer) returns (p: nat)
      requires Ordered(timers)
      requires forall u <- timers :: u.id != t.id
      modifies this`timers
      ensures p <= |old(timers)| && timers == old(timers)[..p] + [t] + old(timers)[p..]
      ensures forall u :: u in timers <==> u in old(timers) || u == t
      ensures Ordered(timers)
    {
      p := 0;
      while p < |timers| && Less(timers[p].next, timers[p].id, t.next, t.id)
        invariant p <= |timers|
        invariant forall k :: 0 <= k < p ==> Less(timers[k].next, timers[k].id, t.next, t.id)
      {
        p := p + 1;
      }
      timers := timers[..p] + [t] + timers[p..];
    }

    /** std::set::find and erase of a timer that is there; the search goes by the order. */
    method SetErase(t: Timer)
      requires Ordered(timers) && t in timers
      modifies this`timers
      ensures exists p :: 0 <= p < |old(timers)| && old(timers)[p] == t
                && timers == old(timers)[..p] + old(timers)[p + 1..]
      ensures Ordered(timers)
      ensures forall u :: u in timers <==> u in old(timers) && u != t
    {
      var p := 0;
      while Less(timers[p].next, timers[p].id, t.next, t.id)
        invariant 0 <= p < |timers|
        invariant t in timers[p..]
        decreases |timers| - p
      {
        p := p + 1;
      }
      assert timers[p] == t;
      timers := timers[..p] + timers[p + 1..];
    }

    /** addTimer under the lock: notify when the newcomer is the earliest and nobody has been notified. */
    method InsertAndNotify(t: Timer)
      requires Ordered(timers)
      requires forall u <- timers :: u.id != t.id
      requires notifications == notificationsSeen + if tickled then 1 else 0
      modifies this`timers, this`tickled, this`notifications
      ensures Ordered(timers)
      ensures forall u :: u in timers <==> u in old(timers) || u == t
      ensures notifications == notificationsSeen + if tickled then 1 else 0
      ensures old(NoLostWakeUp()) ==> NoLostWakeUp()
      ensures tickled <==> old(tickled) || t == timers[0]
    {
      var p := SetInsert(t);
      assert timers[p] == t && (p != 0 ==> Less(timers[0].next, timers[0].id, t.next, t.id));
      var at_front := p == 0 && !tickled;
      if at_front {
        tickled := true;
        notifications := notifications + 1;
      }
    }

    /** `freed` are disarmed timers nobody points to any more; the new one may take the address of one
        of them. */
    method AddTimer(id: nat, now: nat, ms: nat, cb: Callback, recurring: bool, ghost freed: set<Timer>)
      returns (t: Timer)
      requires Valid()
      requires forall u <- freed :: u.cb.None?
      requires forall u <- all - freed :: u.id != id
      modifies this
      ensures Valid() && fresh(t) && all == old(all) - freed + {t}
      ensures t.ms == ms && t.next == now + ms && t.cb == Some(cb) && t.recurring == recurring && t.id == id
      ensures forall u :: u in timers <==> u in old(timers) || u == t
      ensures seen == old(seen) && notificationsSeen == old(notificationsSeen) && previousTime == old(previousTime)
      ensures tickled <==> old(tickled) || t == timers[0]
      ensures notifications == old(notifications) + if tickled && !old(tickled) then 1 else 0
      ensures old(NoLostWakeUp()) ==> NoLostWakeUp()
    {
      hide Ordered, Less;
      t := new Timer(id, now, ms, cb, recurring);
      all := all - freed;
      InsertAndNotify(t);
      all := all + {t};
    }

    /** Timer::cancel. An armed timer is always found, so the erase never meets end(). */
    method Cancel(t: Timer) returns (r: bool)
      requires Valid() && t in all
      modifies this`timers, t`cb
      ensures Valid()
      ensures r <==> old(t.cb.Some?)
      ensures t.cb == None && forall u :: u in timers <==> u in old(timers) && u != t
      ensures old(NoLostWakeUp()) ==> NoLostWakeUp()
    {
      hide Ordered, Less;
      if t.cb.Some? {
        t.cb := None;
        SetErase(t);
        return true;
      }
      return false;
    }

    /** Timer::refresh. Inserting without looking for the front is harmless exactly when the new
        deadline is not before the one seen last. */
    method Refresh(t: Timer, now: nat) returns (r: bool)
      requires Valid() && t in all
      modifies this`timers, t`next
      ensures Valid()
      ensures r <==> t.cb.Some?
      ensures t.next == if r then now + t.ms else old(t.next)
      ensures forall u :: u in timers <==> u in old(timers)
      ensures old(NoLostWakeUp()) ==> (NoLostWakeUp() <==> !r || tickled || NotBefore(now + t.ms))
    {
      if t.cb.None? {
        return false;
      }
      hide Ordered, Less;
      SetErase(t);
      t.next := now + t.ms;
      var p := SetInsert(t);
      return true;
    }

    /** Timer::reset. Measured from the old start, the old period can always be taken off again. */
    method Reset(t: Timer, ms: nat, fromNow: bool, now: nat) returns (r: bool)
      requires Valid() && t in all
      modifies this`timers, this`tickled, this`notifications, t`ms, t`next
      ensures Valid()
      ensures r <==> t.cb.Some? || (ms == old(t.ms) && !fromNow)
      ensures r && (ms != old(t.ms) || fromNow) ==>
                t.ms == ms && t.next == (if fromNow then now else old(t.next) - old(t.ms)) + ms
      ensures !r || (ms == old(t.ms) && !fromNow) ==> unchanged(t) && unchanged(this)
      ensures forall u :: u in timers <==> u in old(timers)
      ensures r && (ms != old(t.ms) || fromNow) ==> (tickled <==> old(tickled) || t == timers[0])
      ensures notifications == old(notifications) + if tickled && !old(tickled) then 1 else 0
      ensures old(NoLostWakeUp()) ==> NoLostWakeUp()
    {
      if ms == t.ms && !fromNow {
        return true;
      }
      if t.cb.None? {
        return false;
      }
      hide Ordered, Less;
      SetErase(t);
      var start := if fromNow then now else t.next - t.ms;
      t.ms := ms;
      t.next := start + t.ms;
      assert old(NoLostWakeUp()) ==> NoLostWakeUp();
      InsertAndNotify(t);
      hide TimerManager.NoLostWakeUp, TimerManager.NotBefore;
      return true;
    }

    /** The milliseconds until the earliest deadline; None where the source says ~0ull. */
    method GetNextTimer(now: nat) returns (r: Option<nat>)
      requires Valid()
      modifies this`tickled, this`seen, this`notificationsSeen
      ensures Valid() && NoLostWakeUp() && notificationsSeen == notifications
      ensures r == None <==> timers == []
      ensures r.Some? ==> seen == Some(timers[0].next) && timers[0].next <= now + r.value
      ensures r.Some? && r.value > 0 ==> timers[0].next == now + r.value
      ensures r.Some? ==> forall t <- timers :: timers[0].next <= t.next
    {
      tickled := false;
      notificationsSeen := notifications;
      seen := if timers == [] then None else Some(timers[0].next);
      if timers == [] {
        return None;
      }
      if now >= timers[0].next {
        return Some(0);
      }
      return Some(timers[0].next - now);
    }

    /** The clock counts as set back when it is more than an hour behind; in its first hour, when the
        subtraction wraps around, as soon as it is behind at all. */
    static ghost predicate SetBack(previous: Clock, now: Clock) {
      if previous >= HOUR then previous - now > HOUR else now < previous
    }

    /** An hour is 3600000 of the clock's milliseconds. */
    static lemma SetBackIs(previous: Clock, now: Clock)
      ensures SetBack(previous, now) <==> now < previous && (previous < 3_600_000 || now + 3_600_000 < previous)
    {
    }

    method DetectClockRoller(now: Clock) returns (rollover: bool)
      modifies this`previousTime
      ensures rollover <==> SetBack(old(previousTime), now)
      ensures previousTime == now
    {
      rollover := now < previousTime && now < (previousTime - HOUR) % 0x1_0000_0000_0000_0000;
      previousTime := now;
    }

    /** std::set::lower_bound of a fresh timer due at `now`, whose address could be anything. */
    method LowerBound(now: nat, id: nat) returns (it: nat)
      requires Ordered(timers)
      ensures it <= |timers|
      ensures forall k :: 0 <= k < |timers| ==> (k < it <==> Less(timers[k].next, timers[k].id, now, id))
    {
      it := 0;
      while it < |timers| && Less(timers[it].next, timers[it].id, now, id)
        invariant it <= |timers|
        invariant forall k :: 0 <= k < it ==> Less(timers[k].next, timers[k].id, now, id)
      {
        it := it + 1;
      }
    }

    /** The end of the expired prefix, wherever among the timers due at `now` the search landed. */
    method ExpiredEnd(now: nat, id: nat, rollover: bool) returns (it: nat)
      requires Ordered(timers)
      ensures it <= |timers|
      ensures forall k :: 0 <= k < |timers| ==> (k < it <==> rollover || timers[k].next <= now)
    {
      if rollover {
        it := |timers|;
      } else {
        it := LowerBound(now, id);
      }
      while it < |timers| && timers[it].next == now
        invariant it <= |timers|
        invariant forall k :: 0 <= k < it ==> rollover || timers[k].next <= now
        invariant forall k :: it <= k < |timers| ==> !rollover && now <= timers[k].next
      {
        it := it + 1;
      }
    }

    /** What expiry does to one timer: a recurring one is armed again with its deadline moved by
        `now` plus its period, any other is disarmed. */
    twostate predicate Fired(t: Timer, now: nat)
      reads t
    {
      && t.ms == old(t.ms)
      && t.cb == (if t.recurring then old(t.cb) else None)
      && t.next == old(t.next) + if t.recurring then now + t.ms else 0
    }

    method Fire(t: Timer, now: nat) returns (cb: Callback)
      requires Ordered(timers) && t.cb.Some?
      requires forall u <- timers :: u.id != t.id
      modifies this`timers, t
      ensures Some(cb) == old(t.cb) && Fired(t, now)
      ensures Ordered(timers)
      ensures forall u :: u in timers <==> u in old(timers) || (u == t && t.recurring)
    {
      cb := t.cb.value;
      if t.recurring {
        t.next := t.next + now + t.ms;
        var p := SetInsert(t);
      } else {
        t.cb := None;
      }
    }

    /** Fire the expired timers, already out of the set, in their order. */
    method FireAll(expired: seq<Timer>, now: nat) returns (cbs: seq<Callback>)
      requires Ordered(timers) && Ordered(expired)
      requires forall t <- expired :: t.cb.Some?
      requires forall t <- expired + timers, u <- expired + timers :: t.id == u.id ==> t == u
      requires forall t <- expired :: t !in timers
      modifies this`timers, expired
      ensures |cbs| == |expired| && forall k :: 0 <= k < |cbs| ==> Some(cbs[k]) == old(expired[k].cb)
      ensures forall t <- expired :: Fired(t, now)
      ensures Ordered(timers)
      ensures forall u :: u in timers <==> u in old(timers) || (u in expired && u.recurring)
    {
      cbs := [];
      for i := 0 to |expired|
        invariant |cbs| == i && forall k :: 0 <= k < i ==> Some(cbs[k]) == old(expired[k].cb)
        invariant forall k :: 0 <= k < i ==> Fired(expired[k], now)
        invariant forall k :: i <= k < |expired| ==> unchanged(expired[k])
        invariant Ordered(timers)
        invariant forall u :: u in timers <==> u in old(timers) || (u in expired[..i] && u.recurring)
      {
        assert expired[..i + 1] == expired[..i] + [expired[i]];
        assert expired[i] !in expired[..i];
        var cb := Fire(expired[i], now);
        cbs := cbs + [cb];
      }
    }

    /** Take the first `it` timers out of the set and fire them. */
    method FireFirst(it: nat, now: nat) returns (cbs: seq<Callback>)
      requires Valid() && it <= |timers|
      modifies this`timers, timers
      ensures Valid()
      ensures |cbs| == it && forall k :: 0 <= k < it ==> Some(cbs[k]) == old(timers[k].cb)
      ensures forall k :: 0 <= k < it ==> Fired(old(timers)[k], now)
      ensures forall k :: it <= k < |old(timers)| ==> unchanged(old(timers)[k])
      ensures forall u :: u in timers <==> u in old(timers) && u.cb.Some?
      ensures old(NoLostWakeUp()) ==> NoLostWakeUp()
    {
      var expired := timers[..it];
      SplitOrdered(timers, it);
      timers := timers[it..];
      cbs := FireAll(expired, now);
      forall t | t in all && t !in expired
        ensures unchanged(t)
      {
      }
      forall t | t in all
        ensures (t in timers <==> t.cb.Some?) && t.ms <= t.next
      {
        if t in expired {
          assert Fired(t, now);
        }
      }
    }

    /** If the first timer is not due, none is. */
    lemma NoneDue(now: nat)
      requires Ordered(timers) && timers != [] && timers[0].next > now
      ensures forall k :: 0 <= k < |timers| ==> timers[k].next > now
    {
    }

    /** Take the callbacks of the timers that are due; all of them if the clock was set back.
        The due timers come first in the order, and their callbacks come out in it. */
    method ListExpiredCb(now: Clock, id: nat) returns (cbs: seq<Callback>)
      requires Valid()
      modifies this`timers, this`previousTime, timers
      ensures Valid()
      ensures previousTime == if old(timers) == [] then old(previousTime) else now
      ensures |cbs| <= |old(timers)|
      ensures forall k :: 0 <= k < |old(timers)| ==>
        (k < |cbs| <==> SetBack(old(previousTime), now) || old(timers[k].next) <= now)
      ensures forall k :: 0 <= k < |cbs| ==> Some(cbs[k]) == old(timers[k].cb)
      ensures forall k :: 0 <= k < |cbs| ==> Fired(old(timers)[k], now)
      ensures forall k :: |cbs| <= k < |old(timers)| ==> unchanged(old(timers)[k])
      ensures forall u :: u in timers <==> u in old(timers) && u.cb.Some?
      // A timer that fires stays in the set iff it recurs, and its deadline then moves on.
      ensures forall k :: 0 <= k < |cbs| ==>
        var u := old(timers)[k];
        if u.recurring then u in timers && u.next == old(u.next) + now + u.ms else u !in timers
      ensures old(NoLostWakeUp()) ==> NoLostWakeUp()
    {
      cbs := [];
      if timers == [] {
        return;
      }
      var rollover := DetectClockRoller(now);
      if !rollover && timers[0].next > now {
        NoneDue(now);
        forall k | 0 <= k < |timers| ensures old(timers[k].next) > now {
          assert timers[k].next == old(timers[k].next);
        }
        return;
      }
      hide Ordered, SetBack, TimerManager.NoLostWakeUp;
      var it := ExpiredEnd(now, id, rollover);
      forall k | 0 <= k < |timers| ensures k < it <==> rollover || old(timers[k].next) <= now {
        assert timers[k].next == old(timers[k].next);
      }
      cbs := FireFirst(it, now);
    }

    /** What `idle` in src/iomanager.cpp does about timers: it sleeps until the clock says `later`,
        going back to sleep after each interruption by a signal, and finds the first timer if that was
        due within the longest sleep and the sleep was not cut short. */
    method IdleRound(now: nat, interruptions: nat, later: Clock, id: nat) returns (wait: int, cbs: seq<Callback>)
      requires Valid()
      modifies this`tickled, this`seen, this`notificationsSeen, this`timers, this`previousTime, timers
      ensures Valid() && NoLostWakeUp()
      ensures |cbs| <= |old(timers)|
      ensures forall k :: 0 <= k < |cbs| ==> Some(cbs[k]) == old(timers[k].cb)
      ensures forall k :: 0 <= k < |old(timers)| ==>
        (k < |cbs| <==> SetBack(old(previousTime), later) || old(timers[k].next) <= later)
      // Three seconds without a timer or with one already due, and the time to the first at most as long.
      ensures old(timers) == [] || old(timers[0].next) <= now ==> wait == 3000
      ensures old(timers) != [] && now < old(timers[0].next) < now + 0x8000_0000 ==>
                wait == if old(timers[0].next) < now + 3000 then old(timers[0].next) - now else 3000
      ensures old(timers) != [] && old(timers[0].next) <= now + 3000 && later >= now + wait ==> cbs != []
    {
      var next := GetNextTimer(now);
      TimeoutIs(if next.Some? then next.value else 0);
      hide EpollTimeout;
      wait := Sleep(next, interruptions);
      cbs := ListExpiredCb(later, id);
    }
  }

  const HOUR: nat := 60 * 60 * 1000
  const MAX_TIMEOUT: nat := 3000

  /** next_timeout after one round of the retry loop in `idle`. */
  function Clamp(next: Option<nat>): nat {
    if next.Some? && next.value > 0 then
      if AsInt32(next.value) > MAX_TIMEOUT then MAX_TIMEOUT else next.value
    else MAX_TIMEOUT
  }

  /** The milliseconds `idle` passes to epoll_wait, which takes a negative number for no limit. */
  function EpollTimeout(next: Option<nat>): int { AsInt32(Clamp(next)) }

  /** The retry loop: every interrupted sleep starts over with the same limit. */
  method Sleep(next: Option<nat>, interruptions: nat) returns (wait: int)
    ensures wait == EpollTimeout(next)
  {
    var nextTimeout := Clamp(next);
    wait := AsInt32(nextTimeout);
    for i := 0 to interruptions
      invariant nextTimeout == Clamp(next) && wait == EpollTimeout(next)
    {
      nextTimeout := Clamp(Some(nextTimeout));
      wait := AsInt32(nextTimeout);
    }
  }

  /** What is passed, in milliseconds: three seconds without a timer or with one already due, otherwise
      the low 32 bits of the time to it, at most three seconds, where those look negative no limit. */
  lemma TimeoutIs(n: nat)
    ensures EpollTimeout(None) == 3000 && EpollTimeout(Some(0)) == 3000
    ensures var low := n % 0x1_0000_0000;
            0 < n ==> EpollTimeout(Some(n)) ==
                      if low >= 0x8000_0000 then low - 0x1_0000_0000 else if low < 3000 then low else 3000
  {
    IntOf(n);
    IntOf(MAX_TIMEOUT);
    hide AsInt32;
  }

  /** The sleep ends in time for the first timer iff that is not due yet and the low 32 bits of the
      time to it do not look negative: a timer already due waits for the whole of three seconds. */
  lemma SleepEndsInTime(n: nat)
    ensures EpollTimeout(None) == 3000 && EpollTimeout(Some(n)) <= 3000
    ensures EpollTimeout(Some(0)) == 3000 && EpollTimeout(Some(0x8000_0000)) < 0
    ensures 0 <= EpollTimeout(Some(n)) <= n <==> 0 < n && n % 0x1_0000_0000 < 0x8000_0000
  {
    TimeoutIs(n);
    TimeoutIs(0x8000_0000);
    IntOf(n);
    hide EpollTimeout, AsInt32;
  }

  /** The low 32 bits, and whether they look negative. */
  lemma IntOf(n: nat)
    ensures var low := n % 0x1_0000_0000; AsInt32(n) == if low < 0x8000_0000 then low else low - 0x1_0000_0000
    ensures n % 0x1_0000_0000 <= n
  {
  }

  // ----- Recurring timers ------------------------------------------------------

  /** The deadline of a recurring timer that fires at the times in `nows`, as `Fired` moves it. */
  function DeadlineAfter(next: nat, ms: nat, nows: seq<nat>): nat
    decreases |nows|
  {
    if nows == [] then next else DeadlineAfter(next + nows[0] + ms, ms, nows[1..])
  }

  /** It fires each time when it is due. */
  ghost predicate FiresWhenDue(next: nat, ms: nat, nows: seq<nat>)
    decreases |nows|
  {
    nows == [] || (next <= nows[0] && FiresWhenDue(next + nows[0] + ms, ms, nows[1..]))
  }

  /** The deadline at least doubles each time, instead of moving on by one period: it is one period
      after the firing iff it was zero before. */
  lemma {:induction false} RecurringRecedes(next: nat, ms: nat, nows: seq<nat>)
    requires FiresWhenDue(next, ms, nows)
    ensures DeadlineAfter(next, ms, nows) >= Pow2(|nows|) * next
    ensures |nows| == 1 ==> (DeadlineAfter(next, ms, nows) == nows[0] + ms <==> next == 0)
    decreases |nows|
  {
    if nows != [] {
      var moved := next + nows[0] + ms;
      RecurringRecedes(moved, ms, nows[1..]);
      Doubles(Pow2(|nows| - 1), next, moved);
    }
  }

  lemma Doubles(p: nat, x: nat, y: nat)
    requires y >= 2 * x
    ensures p * y >= 2 * p * x
  {
    assert p * y >= p * (2 * x);
  }

  // ----- A refresh that loses a wake-up ----------------------------------------

  /** A recurring timer fires, its deadline recedes, somebody goes to sleep until then, and the timer
      is refreshed to an earlier deadline: nobody is notified. */
  method RefreshLosesWakeUp() returns (m: TimerManager, t: Timer)
    ensures m.Valid() && t in m.timers && m.seen == Some(230) && t.next == 120
    ensures !m.NoLostWakeUp()
  {
    m := new TimerManager(100);
    t := m.AddTimer(1, 100, 10, 7, true, {});
    assert m.timers[0] in m.timers;
    var cbs := m.ListExpiredCb(110, 2);
    assert t.next == 230;
    assert m.timers[0] in m.timers;
    var next := m.GetNextTimer(110);
    var r := m.Refresh(t, 110);
  }
}
