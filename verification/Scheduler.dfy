/** yuan/scheduler.cc and scheduler.h: the task queue as an object, and how one turn of run() uses it. */
module Schedulers {
  import opened Options

  /** Fiber::State without the details of Reactor. */
  datatype FiberState = INIT | HOLD | EXEC | TERM | READY | EXCEPT

  /** FiberAndThread: a fiber, a callback, or neither; thread -1 is any. */
  datatype Task = Task(fiber: Option<nat>, cb: Option<nat>, thread: int)

  /** The states of all fibers when the queue is looked at. */
  type States = nat -> FiberState

  predicate IsEmpty(t: Task) {
    t.fiber.None? && t.cb.None?
  }

  /** The two tests of run()'s scan. */
  predicate Elsewhere(t: Task, thread: int) {
    t.thread != -1 && t.thread != thread
  }

  predicate Executing(t: Task, states: States) {
    t.fiber.Some? && states(t.fiber.value) == EXEC
  }

  predicate Takeable(t: Task, thread: int, states: States) {
    !Elsewhere(t, thread) && !Executing(t, states)
  }

  /** A caller's std::shared_ptr<Fiber> or std::function: empty, a fiber or a callback. */
  datatype Work = Nothing | FiberWork(fiber: nat) | CbWork(cb: nat)

  /** FiberAndThread of a fiber or a callback. */
  function TaskOf(work: Work, thread: int): Task {
    match work
    case Nothing => Task(None, None, thread)
    case FiberWork(f) => Task(Some(f), None, thread)
    case CbWork(c) => Task(None, Some(c), thread)
  }

  /** The tasks of a batch, for any thread, without the empty ones. */
  function Batch(ws: seq<Work>): (r: seq<Task>)
    ensures forall i :: 0 <= i < |r| ==> !IsEmpty(r[i])
  {
    if ws == [] then [] else Batch(ws[..|ws| - 1]) + Appended(TaskOf(ws[|ws| - 1], -1))
  }

  /** What scheduleNoLock appends for a task. */
  function Appended(t: Task): seq<Task> {
    if IsEmpty(t) then [] else [t]
  }

  lemma BatchNothing()
    ensures Batch([]) == []
  {
  }

  lemma {:induction false} BatchMore(ws: seq<Work>, i: nat)
    requires i < |ws|
    ensures Batch(ws[..i + 1]) == Batch(ws[..i]) + Appended(TaskOf(ws[i], -1))
  {
    assert ws[..i + 1][..i] == ws[..i];
  }

  function Count(ws: seq<Work>): nat {
    if ws == [] then 0 else Count(ws[..|ws| - 1]) + if ws[|ws| - 1] == Nothing then 0 else 1
  }

  /** A batch keeps the order of its work, and leaves nothing out but what is empty. */
  lemma {:induction false} BatchInOrder(ws: seq<Work>, i: nat)
    requires i < |ws| && ws[i] != Nothing
    ensures Count(ws[..i]) < |Batch(ws)| == Count(ws)
    ensures Batch(ws)[Count(ws[..i])] == if ws[i].FiberWork? then Task(Some(ws[i].fiber), None, -1)
                                         else Task(None, Some(ws[i].cb), -1)
  {
    BatchLength(ws);
    BatchLength(ws[..|ws| - 1]);
    if i < |ws| - 1 {
      BatchInOrder(ws[..|ws| - 1], i);
      assert ws[..|ws| - 1][..i] == ws[..i];
    }
  }

  lemma {:induction false} BatchLength(ws: seq<Work>)
    ensures |Batch(ws)| == Count(ws)
  {
    if ws != [] {
      BatchLength(ws[..|ws| - 1]);
    }
  }

  /** What a worker does with the task it took, by the state its fiber is in afterwards. */
  datatype Exit = Requeued | Suspended | Finished | Dropped

  class Scheduler {
    var fibers: seq<Task>
    var activeThreadCount: int
    var stopRequested: bool      // m_stopping
    var autoStop: bool
    ghost var busy: set<int>     // the threads between taking a task and giving it back

    ghost predicate Valid()
      reads this
    {
      activeThreadCount == |busy| && forall i :: 0 <= i < |fibers| ==> !IsEmpty(fibers[i])
    }

    constructor ()
      ensures Valid() && fibers == [] && busy == {} && stopRequested && !autoStop
    {
      fibers, activeThreadCount, stopRequested, autoStop, busy := [], 0, true, false, {};
    }

    /** scheduleNoLock: behind all others, unless there is nothing in it; true if the queue was empty. */
    method ScheduleNoLock(t: Task) returns (needTickle: bool)
      requires Valid()
      modifies this`fibers
      ensures Valid() && fibers == old(fibers) + Appended(t)
      ensures needTickle <==> old(fibers) == []
    {
      needTickle := fibers == [];
      if t.cb.Some? || t.fiber.Some? {
        fibers := fibers + [t];
      }
    }

    /**
     * The batch schedule: all work in its order, for any thread, behind all other tasks and with nothing in between. It
     * is swapped out of the caller's elements, which are empty then.
     */
    method ScheduleAll(items: array<Work>) returns (needTickle: bool)
      requires Valid()
      modifies this`fibers, items
      ensures Valid() && fibers == old(fibers) + Batch(old(items[..]))
      ensures forall i :: 0 <= i < items.Length ==> items[i] == Nothing
      ensures needTickle <==> old(fibers) == [] && items.Length > 0
    {
      hide Batch;
      needTickle := false;
      ghost var all := items[..];
      BatchNothing();
      for i := 0 to items.Length
        invariant Valid() && fibers == old(fibers) + Batch(all[..i])
        invariant forall j :: 0 <= j < items.Length ==> items[j] == if j < i then Nothing else all[j]
        invariant needTickle <==> old(fibers) == [] && i > 0
      {
        var first := ScheduleNoLock(TaskOf(items[i], -1));
        items[i] := Nothing;
        needTickle := first || needTickle;
        BatchMore(all, i);
      }
      assert all[..items.Length] == all;
    }

    /**
     * The scan of run(): the first task this thread may take leaves the queue, the others keep their order. The
     * thread passes a tickle on if it skipped a task pinned to another one.
     */
    method TakeTask(thread: int, states: States) returns (fat: Option<Task>, needTickle: bool)
      requires Valid() && thread !in busy
      modifies this`fibers, this`activeThreadCount, this`busy
      ensures Valid()
      ensures fat.None? <==> forall i :: 0 <= i < |old(fibers)| ==> !Takeable(old(fibers)[i], thread, states)
      ensures fat.None? ==> fibers == old(fibers) && busy == old(busy)
      ensures fat.Some? ==> busy == old(busy) + {thread}
      ensures fat.Some? ==> TookFirst(old(fibers), fibers, fat.value, thread, states)
      ensures fat.Some? ==> (fat.value.thread == -1 || fat.value.thread == thread)
                            && (fat.value.fiber.Some? ==> states(fat.value.fiber.value) != EXEC)
      ensures fat.None? ==> forall i :: 0 <= i < |fibers| ==>
                || (fibers[i].thread != -1 && fibers[i].thread != thread)
                || (fibers[i].fiber.Some? && states(fibers[i].fiber.value) == EXEC)
      ensures needTickle <==> exists i :: 0 <= i < |old(fibers)| && Elsewhere(old(fibers)[i], thread)
                                && forall j :: 0 <= j < i ==> !Takeable(old(fibers)[j], thread, states)
    {
      fat, needTickle := None, false;
      var i := 0;
      while i < |fibers|
        invariant 0 <= i <= |fibers| && fibers == old(fibers) && busy == old(busy) && Valid()
        invariant forall j :: 0 <= j < i ==> !Takeable(fibers[j], thread, states)
        invariant needTickle <==> exists j :: 0 <= j < i && Elsewhere(fibers[j], thread)
      {
        if fibers[i].thread != -1 && fibers[i].thread != thread {
          needTickle := true;
          i := i + 1;
          continue;
        }
        if fibers[i].fiber.Some? && states(fibers[i].fiber.value) == EXEC {
          i := i + 1;
          continue;
        }
        fat := Some(fibers[i]);
        assert FirstTakeable(fibers, thread, states, i);
        fibers := fibers[..i] + fibers[i + 1..];
        activeThreadCount := activeThreadCount + 1;
        busy := busy + {thread};
        return;
      }
    }

    /**
     * The rest of the turn, for a task whose fiber is in state `before` and comes back in state `after`. On each of
     * the ways out the thread is no longer counted; a fiber that yielded to READY goes to the end of the queue.
     */
    method GiveBack(thread: int, fat: Task, before: FiberState, after: FiberState, cbFiber: nat) returns (exit: Exit)
      requires Valid() && thread in busy && !IsEmpty(fat) && (fat.fiber.Some? ==> before != EXEC)
      modifies this`fibers, this`activeThreadCount, this`busy
      ensures Valid() && busy == old(busy) - {thread}
      ensures exit == if fat.fiber.Some? && (before == TERM || before == EXCEPT) && fat.cb.None? then Dropped
                      else if after == READY then Requeued
                      else if after == TERM || after == EXCEPT then Finished else Suspended
      ensures fibers == old(fibers) + if exit != Requeued then []
                else [Task(if fat.fiber.Some? && before != TERM && before != EXCEPT then fat.fiber
                           else Some(cbFiber), None, -1)]
    {
      if fat.fiber.Some? && before != TERM && before != EXCEPT {
        activeThreadCount, busy := activeThreadCount - 1, busy - {thread};
        if after == READY {
          var needTickle := ScheduleNoLock(Task(fat.fiber, None, -1));
          return Requeued;
        }
        return if after == TERM || after == EXCEPT then Finished else Suspended;
      } else if fat.cb.Some? {
        activeThreadCount, busy := activeThreadCount - 1, busy - {thread};
        if after == READY {
          var needTickle := ScheduleNoLock(Task(Some(cbFiber), None, -1));
          return Requeued;
        }
        return if after == TERM || after == EXCEPT then Finished else Suspended;
      }
      activeThreadCount, busy := activeThreadCount - 1, busy - {thread};
      exit := Dropped;
    }

    /** Scheduler::stopping. */
    method Stopping() returns (r: bool)
      requires Valid()
      ensures r <==> autoStop && stopRequested && fibers == [] && busy == {}
    {
      r := autoStop && stopRequested && fibers == [] && activeThreadCount == 0;
    }
  }

  /** The first task this thread may take is gone from the queue, and only that. */
  ghost predicate TookFirst(before: seq<Task>, after: seq<Task>, fat: Task, thread: int, states: States) {
    exists i: nat ::
      FirstTakeable(before, thread, states, i) && fat == before[i] && after == before[..i] + before[i + 1..]
  }

  /** Position i holds the first task this thread may take. */
  predicate FirstTakeable(ts: seq<Task>, thread: int, states: States, i: nat) {
    i < |ts| && Takeable(ts[i], thread, states) && forall j :: 0 <= j < i ==> !Takeable(ts[j], thread, states)
  }
}
