/**
 * The task list of src/scheduler.h and the selection scan of src/scheduler.cpp: tasks are
 * appended, and a worker takes the first one that is not pinned to another thread and whose
 * coroutine is not running. Taking and appending are atomic steps.
 */
module TaskQueues {
  import opened Prelude

  type Coroutine = nat
  type Thread = nat

  /** What is to be run: a coroutine or a callback, by name. */
  datatype Work = Co(co: Coroutine) | Cb(cb: nat)

  /** CoroutineAndThread; no pin stands for thread -1. */
  datatype Task = Task(work: Work, pin: Option<Thread>)

  predicate Eligible(task: Task, thread: Thread, running: set<Coroutine>) {
    (task.pin.Some? ==> task.pin.value == thread) && (task.work.Co? ==> task.work.co !in running)
  }

  /** The task the scan stops at. */
  function Pick(q: seq<Task>, thread: Thread, running: set<Coroutine>): (r: Option<nat>)
    ensures r.Some? ==> r.value < |q| && Eligible(q[r.value], thread, running)
    ensures forall k :: 0 <= k < (if r.Some? then r.value else |q|) ==> !Eligible(q[k], thread, running)
  {
    if q == [] then None
    else if Eligible(q[0], thread, running) then Some(0)
    else match Pick(q[1..], thread, running)
      case None => None
      case Some(i) => Some(i + 1)
  }

  function Without(q: seq<Task>, i: nat): seq<Task>
    requires i < |q|
  {
    q[..i] + q[i + 1..]
  }

  class TaskList {
    var coroutines: seq<Task>

    constructor ()
      ensures coroutines == []
    {
      coroutines := [];
    }

    /** A null task is dropped; the result says whether the list was empty before. */
    method ScheduleNoLock(cc: Option<Work>, thread: Option<Thread>) returns (needTickle: bool)
      modifies this
      ensures needTickle <==> old(coroutines) == []
      ensures coroutines == old(coroutines) + if cc.Some? then [Task(cc.value, thread)] else []
    {
      needTickle := coroutines == [];
      if cc.Some? {
        coroutines := coroutines + [Task(cc.value, thread)];
      }
    }

    /** The batch form: in order, unpinned. */
    method ScheduleAll(ccs: seq<Option<Work>>) returns (needTickle: bool)
      modifies this
      ensures coroutines == old(coroutines) + Unpinned(ccs)
      ensures needTickle <==> old(coroutines) == [] && ccs != []
    {
      needTickle := false;
      for i := 0 to |ccs|
        invariant coroutines == old(coroutines) + Unpinned(ccs[..i])
        invariant needTickle <==> old(coroutines) == [] && i > 0
      {
        assert ccs[..i + 1][..i] == ccs[..i];
        var empty := ScheduleNoLock(ccs[i], None);
        needTickle := empty || needTickle;
      }
      assert ccs[..|ccs|] == ccs;
    }

    /** The scan under the lock of `run`. */
    method Take(thread: Thread, running: set<Coroutine>) returns (ct: Option<Task>)
      modifies this
      ensures match Pick(old(coroutines), thread, running)
        case None => ct == None && coroutines == old(coroutines)
        case Some(i) => ct == Some(old(coroutines)[i]) && coroutines == Without(old(coroutines), i)
    {
      var it := 0;
      while it < |coroutines|
        invariant 0 <= it <= |coroutines| && coroutines == old(coroutines)
        invariant forall k :: 0 <= k < it ==> !Eligible(coroutines[k], thread, running)
      {
        var task := coroutines[it];
        if task.pin.Some? && task.pin.value != thread {
          it := it + 1;
        } else if task.work.Co? && task.work.co in running {
          it := it + 1;
        } else {
          coroutines := Without(coroutines, it);
          return Some(task);
        }
      }
      return None;
    }
  }

  function Unpinned(ccs: seq<Option<Work>>): seq<Task> {
    if ccs == [] then []
    else
      var last := ccs[|ccs| - 1];
      Unpinned(ccs[..|ccs| - 1]) + if last.Some? then [Task(last.value, None)] else []
  }

  /** A batch of two parts is one and then the other; a null adds nothing, and a task comes unpinned. */
  lemma {:induction false} UnpinnedAre(a: seq<Option<Work>>, b: seq<Option<Work>>, cc: Option<Work>)
    ensures Unpinned(a + b) == Unpinned(a) + Unpinned(b)
    ensures Unpinned([cc]) == match cc case None => [] case Some(w) => [Task(w, None)]
    decreases |b|
  {
    assert [cc][..0] == [];
    if b == [] {
      assert a + b == a;
    } else {
      var last := b[|b| - 1];
      assert (a + b)[..|a + b| - 1] == a + b[..|b| - 1] && (a + b)[|a + b| - 1] == last;
      UnpinnedAre(a, b[..|b| - 1], cc);
      Regroup(Unpinned(a), Unpinned(b[..|b| - 1]), if last.Some? then [Task(last.value, None)] else []);
    }
  }

  // ----- Bounded waiting -------------------------------------------------------

  /** What happens to the list: somebody appends, or a worker scans while some coroutines run. */
  datatype Event = Append(task: Task) | Scan(thread: Thread, running: set<Coroutine>)

  function Apply(q: seq<Task>, e: Event): seq<Task> {
    match e
    case Append(task) => q + [task]
    case Scan(thread, running) =>
      match Pick(q, thread, running)
      case None => q
      case Some(i) => Without(q, i)
  }

  /** Where the task at index k is after the events: still waiting, or taken by a worker. */
  datatype Fate = Waiting(index: nat) | TakenBy(thread: Thread)

  function FateOf(q: seq<Task>, k: nat, events: seq<Event>): Fate
    requires k < |q|
    decreases |events|
  {
    if events == [] then Waiting(k)
    else
      match events[0]
      case Append(_) => FateOf(Apply(q, events[0]), k, events[1..])
      case Scan(thread, running) =>
        match Pick(q, thread, running)
        case None => FateOf(q, k, events[1..])
        case Some(i) =>
          if i == k then TakenBy(thread)
          else FateOf(Without(q, i), if i < k then k - 1 else k, events[1..])
  }

  function After(q: seq<Task>, events: seq<Event>): seq<Task>
    decreases |events|
  {
    if events == [] then q else After(Apply(q, events[0]), events[1..])
  }

  /** A waiting task is where its fate says. */
  lemma {:induction false} FateTracks(q: seq<Task>, k: nat, events: seq<Event>)
    requires k < |q| && FateOf(q, k, events).Waiting?
    ensures var i := FateOf(q, k, events).index; i < |After(q, events)| && After(q, events)[i] == q[k]
    decreases |events|
  {
    if events == [] {
    } else if events[0].Append? {
      FateTracks(Apply(q, events[0]), k, events[1..]);
    } else {
      match Pick(q, events[0].thread, events[0].running)
      case None =>
        FateTracks(q, k, events[1..]);
      case Some(i) =>
        FateTracks(Without(q, i), if i < k then k - 1 else k, events[1..]);
    }
  }

  /** Scans that could have taken the task, had it come first. */
  function Chances(task: Task, events: seq<Event>): nat {
    if events == [] then 0
    else
      var chance := events[0].Scan? && Eligible(task, events[0].thread, events[0].running);
      Chances(task, events[1..]) + if chance then 1 else 0
  }

  /** Whatever is appended meanwhile, a task at index k that still waits has seen at most k scans
      that could have taken it, and every one of them brought it at least one place forward. */
  lemma {:induction false} WaitingMovesForward(q: seq<Task>, k: nat, events: seq<Event>)
    requires k < |q|
    ensures FateOf(q, k, events).Waiting? ==> FateOf(q, k, events).index + Chances(q[k], events) <= k
    decreases |events|
  {
    if events == [] {
    } else if events[0].Append? {
      assert Apply(q, events[0])[k] == q[k];
      WaitingMovesForward(Apply(q, events[0]), k, events[1..]);
    } else {
      match Pick(q, events[0].thread, events[0].running)
      case None =>
        WaitingMovesForward(q, k, events[1..]);
      case Some(i) =>
        if i != k {
          var k' := if i < k then k - 1 else k;
          assert Without(q, i)[k'] == q[k];
          WaitingMovesForward(Without(q, i), k', events[1..]);
        }
    }
  }

  /** A task is taken only by a worker it is not pinned away from. */
  lemma {:induction false} TakenByItsThread(q: seq<Task>, k: nat, events: seq<Event>)
    requires k < |q| && FateOf(q, k, events).TakenBy?
    ensures q[k].pin.Some? ==> q[k].pin.value == FateOf(q, k, events).thread
    decreases |events|
  {
    if events[0].Append? {
      TakenByItsThread(Apply(q, events[0]), k, events[1..]);
    } else {
      match Pick(q, events[0].thread, events[0].running)
      case None =>
        TakenByItsThread(q, k, events[1..]);
      case Some(i) =>
        if i != k {
          TakenByItsThread(Without(q, i), if i < k then k - 1 else k, events[1..]);
        }
    }
  }

  /** Scans by any worker, and by one worker. */
  function Scans(events: seq<Event>): nat {
    if events == [] then 0 else Scans(events[1..]) + if events[0].Scan? then 1 else 0
  }

  function ScansBy(thread: Thread, events: seq<Event>): nat {
    if events == [] then 0
    else
      var mine := events[0].Scan? && events[0].thread == thread;
      ScansBy(thread, events[1..]) + if mine then 1 else 0
  }

  lemma {:induction false} ChancesOfCallback(task: Task, events: seq<Event>)
    requires task.work.Cb?
    ensures Chances(task, events) == if task.pin.None? then Scans(events) else ScansBy(task.pin.value, events)
  {
    if events != [] {
      ChancesOfCallback(task, events[1..]);
    }
  }

  /** A task at index k is gone after k + 1 scans that could have taken it, whatever is appended
      meanwhile, and if it is pinned to a thread, it is that thread that took it. */
  lemma BoundedWaiting(q: seq<Task>, k: nat, events: seq<Event>)
    requires k < |q| && k + 1 <= Chances(q[k], events)
    ensures FateOf(q, k, events).TakenBy?
    ensures q[k].pin.Some? ==> FateOf(q, k, events) == TakenBy(q[k].pin.value)
  {
    WaitingMovesForward(q, k, events);
    TakenByItsThread(q, k, events);
  }

  /** For a callback every scan could have, by any worker if it is not pinned and by its thread if it is. */
  lemma CallbackWaiting(q: seq<Task>, k: nat, events: seq<Event>)
    requires k < |q| && q[k].work.Cb?
    requires k + 1 <= if q[k].pin.None? then Scans(events) else ScansBy(q[k].pin.value, events)
    ensures FateOf(q, k, events).TakenBy?
    ensures q[k].pin.Some? ==> FateOf(q, k, events) == TakenBy(q[k].pin.value)
  {
    ChancesOfCallback(q[k], events);
    BoundedWaiting(q, k, events);
  }

  /** Scans, by any worker or by one, while the coroutine runs nowhere. */
  function ScansWhileIdle(co: Coroutine, thread: Option<Thread>, events: seq<Event>): nat {
    if events == [] then 0
    else
      var e := events[0];
      ScansWhileIdle(co, thread, events[1..])
      + if e.Scan? && co !in e.running && (thread == None || thread == Some(e.thread)) then 1 else 0
  }

  /** For a coroutine the scans that could have taken it are those, by any worker if it is not pinned and
      by its thread if it is, during which it does not run anywhere. */
  lemma CoroutineWaiting(q: seq<Task>, k: nat, events: seq<Event>)
    requires k < |q| && q[k].work.Co?
    requires k + 1 <= ScansWhileIdle(q[k].work.co, q[k].pin, events)
    ensures FateOf(q, k, events).TakenBy?
    ensures q[k].pin.Some? ==> FateOf(q, k, events) == TakenBy(q[k].pin.value)
  {
    ChancesOfCoroutine(q[k], events);
    BoundedWaiting(q, k, events);
  }

  lemma {:induction false} ChancesOfCoroutine(task: Task, events: seq<Event>)
    requires task.work.Co?
    ensures Chances(task, events) == ScansWhileIdle(task.work.co, task.pin, events)
  {
    if events != [] {
      ChancesOfCoroutine(task, events[1..]);
    }
  }
}
