/**
 * The coroutine I/O protocol as a state machine: fibers, the task queue, registered events, timers, worker threads and
 * shutdown. One step is one locked region of scheduler, iomanager and timer, or one switch between a fiber and its
 * worker together with the bookkeeping behind it. A yield to HOLD is two steps, because others can get the fiber once
 * its state is set; if a worker switches to it before the second one, that is a Clash, and nothing is defined any more.
 */
module Reactor {
  import opened Options

  /** Fiber::State; a running fiber with its worker, an unused callback fiber with its owner. */
  datatype FiberState = Init(owner: nat) | Exec(worker: nat) | Hold | Ready | Term

  /** armed: the fiber has set up its wake source in do_io, connect or sleep and is about to yield. */
  datatype Fiber = Fiber(state: FiberState, armed: bool)

  /**
   * What a task does: Resume switches to a fiber, Wake is the callback of a sleep timer, which
   * schedules the fiber, and Call is any other callback.
   */
  datatype Work = Resume(fiber: nat) | Wake(fiber: nat) | Call(id: nat)

  /** pin: the only worker that may take it. reg: the event registration it comes from. */
  datatype Item = Item(work: Work, pin: Option<nat>, reg: Option<nat>)

  /** Where a piece of work can be. */
  datatype Place =
    | Event(fd: nat, write: bool)         // registered: the event context of (fd, READ or WRITE)
    | Timer(id: nat)                      // in m_timers
    | Expired(worker: nat, id: nat)       // in the local vector of idle(), extracted but not scheduled
    | Queue(n: nat)                       // in m_fibers, in the order of n
    | Hand(worker: nat)                   // dequeued, in the worker's local variable
    | Returned(worker: nat)               // a fiber that has yielded to READY and is not scheduled again yet
    | Running(fiber: nat)                 // a sleep callback that its fiber has yet to execute

  /** How far one call of IOManager::stopping has got; bound separates earlier registrations from later ones. */
  datatype Probe = NoProbe | SawNoTimer(bound: nat) | SawNoPending(bound: nat)

  datatype Job =
    | Scanning                                             // at the top of the loop of run()
    | Holding(entry: nat)                                  // took this entry of the queue
    | Busy(fiber: nat, task: Item, entry: nat)             // switched to a fiber for it
    | Leaving(fiber: nat, task: Item, entry: nat)          // its fiber is in HOLD, and run() not past the switch yet
    | Returning                                            // back from a fiber that is READY, and no longer counted
    | Idling(probe: Probe)                                 // in idle()
    | Left                                                 // returned from run()

  /** spare: the worker's cb_fiber. ended: its idle fiber has terminated. */
  datatype Worker = Worker(job: Job, spare: Option<nat>, ended: bool)

  /** History of the task queue. */
  datatype Log = Log(
    submitted: map<nat, Item>, // the entries there have been
    entered: map<nat, nat>,    // which worker took entry n
    finished: set<nat>         // the entries whose fiber has come back, or that were dropped
  )

  datatype State = State(
    fibers: map<nat, Fiber>,
    held: map<Place, Item>,
    workers: map<nat, Worker>,
    active: int,           // m_activeThreadCount
    pending: int,          // m_pendingEventCount
    falling: set<nat>,     // triggered events whose decrement of m_pendingEventCount is still to come
    stopped: bool,         // stop() was called: m_stopping and m_autoStop
    clashed: bool,         // a worker has switched to a fiber that another one had not left, and nothing is defined
    next: nat,             // all serial numbers are below
    // history, read by no step
    wake: map<nat, Place>, // the wake source of each fiber that has one
    abandoned: set<nat>,   // fibers whose registration was deleted with delEvent
    log: Log
  )

  predicate IsInit(s: State) {
    && s.fibers == map[] && s.held == map[] && s.active == 0 && s.pending == 0 && s.falling == {}
    && !s.stopped && !s.clashed && s.wake == map[] && s.abandoned == {}
    && s.log == Log(map[], map[], {})
    && s.workers != map[]
    && forall w <- s.workers :: s.workers[w] == Worker(Scanning, None, false)
  }

  datatype Action =
    | Submit(who: Option<nat>, c: nat, pin: Option<nat>)
    | AddEvent(w: nat, fd: nat, write: bool)
    | AddEventCallback(w: nat, fd: nat, write: bool, c: nat)
    | Sleep(w: nat)
    | AddTimer(w: nat, c: nat)
    | CancelTimer(id: nat)
    | Trigger(who: Option<nat>, fd: nat, write: bool)
    | Settle(k: nat)
    | DelEvent(fd: nat, write: bool)
    | Expire(w: nat, id: nat)
    | Recur(w: nat, id: nat)
    | Flush(w: nat, id: nat)
    | Take(w: nat, n: nat)
    | Start(w: nat)
    | RunWake(w: nat)
    | Clash(w: nat)
    | YieldToHold(w: nat)
    | BackInRun(w: nat)
    | YieldToReady(w: nat)
    | Requeue(w: nat)
    | Finish(w: nat)
    | EnterIdle(w: nat)
    | LeaveIdle(w: nat)
    | ProbeTimers(w: nat)
    | ProbePending(w: nat)
    | ProbeQueue(w: nat)
    | Stop
    | Leave(w: nat)

  // ---------------------------------------------------------------- reading the state

  function Target(work: Work): Option<nat> {
    match work
    case Resume(f) => Some(f)
    case Wake(f) => Some(f)
    case Call(_) => None
  }

  function JobOf(s: State, w: nat): Job {
    if w in s.workers then s.workers[w].job else Left
  }

  predicate IsExec(s: State, f: nat) {
    f in s.fibers && s.fibers[f].state.Exec?
  }

  /** Worker w runs user code in a fiber that is not about to yield. */
  predicate Free(s: State, w: nat) {
    && JobOf(s, w).Busy?
    && s.workers[w].job.fiber in s.fibers
    && !s.fibers[s.workers[w].job.fiber].armed
    && Running(s.workers[w].job.fiber) !in s.held
  }

  /** The fiber is in HOLD, but its context may not be saved yet, or run() still has to look at its state. */
  predicate IsBeingLeft(s: State, f: nat) {
    exists w <- s.workers :: s.workers[w].job.Leaving? && s.workers[w].job.fiber == f
  }

  /** Who may schedule work: a worker in user code or in idle(), or before stop() any outside thread. */
  predicate MayPush(s: State, who: Option<nat>) {
    match who
    case None => !s.stopped
    case Some(w) => Free(s, w) || JobOf(s, w).Idling?
  }

  /** The tests of run()'s scan: pinned to this thread or to none, and not a fiber still running. */
  predicate Runnable(s: State, w: nat, n: nat) {
    && Queue(n) in s.held
    && (s.held[Queue(n)].pin.None? || s.held[Queue(n)].pin.value == w)
    && !(s.held[Queue(n)].work.Resume? && IsExec(s, s.held[Queue(n)].work.fiber))
  }

  ghost predicate FirstRunnable(s: State, w: nat, n: nat) {
    Runnable(s, w, n) && forall m: nat :: m < n ==> !Runnable(s, w, m)
  }

  predicate QueueEmpty(s: State) {
    forall p <- s.held :: !p.Queue?
  }

  predicate NoTimers(s: State) {
    forall p <- s.held :: !p.Timer?
  }

  // ---------------------------------------------------------------- changing the state

  function WithJob(s: State, w: nat, job: Job): State
    requires w in s.workers
  {
    s.(workers := s.workers[w := s.workers[w].(job := job)])
  }

  /** A new piece of work at p that wakes nobody. */
  function Put(s: State, p: Place, item: Item): State {
    s.(held := s.held[p := item], next := s.next + 1, log := Logged(s.log, p, item))
  }

  /** The history when this is put at p: an entry of the queue if that is its place. */
  function Logged(log: Log, p: Place, item: Item): Log {
    if p.Queue? then log.(submitted := log.submitted[p.n := item]) else log
  }

  function LogEnd(log: Log, n: nat): Log {
    log.(finished := log.finished + {n})
  }

  /** Fiber f sets up its wake source at p. */
  function Arm(s: State, f: nat, p: Place, item: Item): State
    requires f in s.fibers
  {
    s.(held := s.held[p := item], next := s.next + 1,
       wake := s.wake[f := p], fibers := s.fibers[f := s.fibers[f].(armed := true)])
  }

  /** The work at p goes to q, where it reads `item`; a fiber it wakes it still wakes. */
  function Move(s: State, p: Place, q: Place, item: Item): State {
    s.(held := (s.held - {p})[q := item], next := s.next + 1, log := Logged(s.log, q, item),
       wake := if Target(item.work).Some? then s.wake[Target(item.work).value := q] else s.wake)
  }

  function Remove(s: State, p: Place): State {
    s.(held := s.held - {p})
  }

  /** Worker w switches to fiber f for item. */
  function SwapIn(s: State, w: nat, f: nat, spare: Option<nat>, item: Item): State
    requires w in s.workers && s.workers[w].job.Holding?
  {
    s.(fibers := s.fibers[f := Fiber(Exec(w), false)],
       workers := s.workers[w := Worker(Busy(f, item, s.workers[w].job.entry), spare, s.workers[w].ended)])
  }

  /** Worker w is back in run() from its fiber, which nobody else can get before; it is no longer counted as active. */
  function SwapOut(s: State, w: nat, state: FiberState, spare: Option<nat>, job: Job): State
    requires w in s.workers && s.workers[w].job.Busy?
  {
    s.(fibers := s.fibers[s.workers[w].job.fiber := Fiber(state, false)],
       workers := s.workers[w := s.workers[w].(job := job, spare := spare)],
       active := s.active - 1, log := LogEnd(s.log, s.workers[w].job.entry))
  }

  /** cb_fiber behind a yield: the fiber of a callback is its own from then on. */
  function SpareAfterYield(worker: Worker): Option<nat>
    requires worker.job.Busy?
  {
    if worker.job.task.work.Resume? then worker.spare else None
  }

  // ---------------------------------------------------------------- the steps

  ghost predicate Enabled(s: State, a: Action) {
    !s.clashed &&
    match a
    case Submit(who, _, _) => MayPush(s, who)
    case AddEvent(w, fd, wr) => Free(s, w) && Event(fd, wr) !in s.held
    case AddEventCallback(w, fd, wr, _) => Free(s, w) && Event(fd, wr) !in s.held
    case Sleep(w) => Free(s, w)
    case AddTimer(w, _) => Free(s, w)
    case CancelTimer(id) => Timer(id) in s.held && s.held[Timer(id)].work.Call?
    case Trigger(who, fd, wr) => MayPush(s, who) && Event(fd, wr) in s.held
    case Settle(k) => k in s.falling
    case DelEvent(fd, wr) => Event(fd, wr) in s.held
    case Expire(w, id) => JobOf(s, w).Idling? && Timer(id) in s.held
    case Recur(w, id) => JobOf(s, w).Idling? && Timer(id) in s.held && s.held[Timer(id)].work.Call?
    case Flush(w, id) => JobOf(s, w).Idling? && Expired(w, id) in s.held
    case Take(w, n) => JobOf(s, w).Scanning? && FirstRunnable(s, w, n)
    case Start(w) =>
      JobOf(s, w).Holding? && Hand(w) in s.held
      && (s.held[Hand(w)].work.Resume? ==> !IsBeingLeft(s, s.held[Hand(w)].work.fiber))
    case Clash(w) =>
      JobOf(s, w).Holding? && Hand(w) in s.held && s.held[Hand(w)].work.Resume?
      && IsBeingLeft(s, s.held[Hand(w)].work.fiber)
    case RunWake(w) => JobOf(s, w).Busy? && Running(s.workers[w].job.fiber) in s.held
    case YieldToHold(w) =>
      JobOf(s, w).Busy? && s.workers[w].job.fiber in s.fibers && s.fibers[s.workers[w].job.fiber].armed
    case BackInRun(w) => JobOf(s, w).Leaving?
    case YieldToReady(w) => Free(s, w)
    case Requeue(w) => JobOf(s, w).Returning? && Returned(w) in s.held
    case Finish(w) => Free(s, w)
    case EnterIdle(w) => JobOf(s, w).Scanning? && !s.workers[w].ended && forall n: nat :: !Runnable(s, w, n)
    case LeaveIdle(w) => JobOf(s, w).Idling? && forall p <- s.held :: !(p.Expired? && p.worker == w)
    case ProbeTimers(w) => JobOf(s, w).Idling? && NoTimers(s)
    case ProbePending(w) => JobOf(s, w).Idling? && s.workers[w].job.probe.SawNoTimer? && s.pending == 0
    case ProbeQueue(w) =>
      JobOf(s, w).Idling? && s.workers[w].job.probe.SawNoPending? && s.stopped && QueueEmpty(s) && s.active == 0
      && forall p <- s.held :: !(p.Expired? && p.worker == w)
    case Stop => true
    case Leave(w) => JobOf(s, w).Scanning? && s.workers[w].ended && forall n: nat :: !Runnable(s, w, n)
  }

  ghost function Do(s: State, a: Action): State
    requires Enabled(s, a)
  {
    match a
    // Scheduler::schedule
    case Submit(_, c, pin) => Put(s, Queue(s.next), Item(Call(c), pin, None))
    // addEvent without and with a callback, after epoll_ctl has succeeded
    case AddEvent(w, fd, wr) =>
      var f := s.workers[w].job.fiber;
      Arm(s, f, Event(fd, wr), Item(Resume(f), None, Some(s.next))).(pending := s.pending + 1)
    case AddEventCallback(_, fd, wr, c) =>
      Put(s, Event(fd, wr), Item(Call(c), None, Some(s.next))).(pending := s.pending + 1)
    // the hooked sleep
    case Sleep(w) =>
      var f := s.workers[w].job.fiber;
      Arm(s, f, Timer(s.next), Item(Wake(f), None, None))
    case AddTimer(_, c) => Put(s, Timer(s.next), Item(Call(c), None, None))
    case CancelTimer(id) => Remove(s, Timer(id))
    // triggerEvent, from idle(), cancelEvent or cancelAll; the caller decrements the count later
    case Trigger(_, fd, wr) =>
      Move(s, Event(fd, wr), Queue(s.next), s.held[Event(fd, wr)]).(falling := s.falling + {s.next})
    case Settle(k) => s.(falling := s.falling - {k}, pending := s.pending - 1)
    case DelEvent(fd, wr) =>
      var work := s.held[Event(fd, wr)].work;
      var t := Remove(s, Event(fd, wr)).(pending := s.pending - 1);
      if work.Call? then t else t.(abandoned := s.abandoned + {work.fiber}, wake := s.wake - {work.fiber})
    // listExpiredCbs for one timer that is not recurring, and for one that is
    case Expire(w, id) => Move(s, Timer(id), Expired(w, s.next), s.held[Timer(id)])
    case Recur(w, id) => Put(s, Expired(w, s.next), s.held[Timer(id)])
    case Flush(w, id) => Move(s, Expired(w, id), Queue(s.next), s.held[Expired(w, id)])
    // the scan of run()
    case Take(w, n) =>
      WithJob(Move(s, Queue(n), Hand(w), s.held[Queue(n)]), w, Holding(n))
        .(active := s.active + 1, log := s.log.(entered := s.log.entered[n := w]))
    // switching to the fiber, or to a callback fiber, or dropping a fiber that has terminated
    case Start(w) => StartTask(s, w, s.held[Hand(w)])
    // the sleep callback: schedule(fiber)
    case RunWake(w) =>
      var g := s.workers[w].job.fiber;
      var work := s.held[Running(g)].work;
      Move(s, Running(g), Queue(s.next), Item(if work.Call? then work else Resume(work.fiber), None, None))
    // the same when another worker is still leaving that fiber
    case Clash(_) => s.(clashed := true)
    // the state is set, and from now on others may take the fiber out of the queue
    case YieldToHold(w) =>
      var job := s.workers[w].job;
      s.(fibers := s.fibers[job.fiber := Fiber(Hold, false)],
         workers := s.workers[w := s.workers[w].(job := Leaving(job.fiber, job.task, job.entry),
                                                 spare := SpareAfterYield(s.workers[w]))])
    // swapcontext has saved the fiber, and run() is through with it
    case BackInRun(w) =>
      WithJob(s, w, Scanning).(active := s.active - 1, log := LogEnd(s.log, s.workers[w].job.entry))
    // first the worker is no longer counted, then schedule() puts the fiber into the queue
    case YieldToReady(w) =>
      var f := s.workers[w].job.fiber;
      var t := SwapOut(s, w, Ready, SpareAfterYield(s.workers[w]), Returning);
      t.(held := t.held[Returned(w) := Item(Resume(f), None, None)], wake := t.wake[f := Returned(w)])
    case Requeue(w) => WithJob(Move(s, Returned(w), Queue(s.next), s.held[Returned(w)]), w, Scanning)
    case Finish(w) =>
      SwapOut(s, w, if s.workers[w].job.task.work.Resume? then Term else Init(w), s.workers[w].spare, Scanning)
    case EnterIdle(w) => WithJob(s, w, Idling(NoProbe))
    case LeaveIdle(w) => WithJob(s, w, Scanning)
    case ProbeTimers(w) => WithJob(s, w, Idling(SawNoTimer(s.next)))
    case ProbePending(w) => WithJob(s, w, Idling(SawNoPending(s.workers[w].job.probe.bound)))
    case ProbeQueue(w) => s.(workers := s.workers[w := s.workers[w].(job := Scanning, ended := true)])
    case Stop => s.(stopped := true)
    case Leave(w) => WithJob(s, w, Left)
  }

  /** Lines 203 to 244 of run() up to the switch. */
  function StartTask(s: State, w: nat, item: Item): State
    requires w in s.workers && s.workers[w].job.Holding?
  {
    var t := s.(held := s.held - {Hand(w)}, next := s.next + 1);
    match item.work
    case Resume(f) =>
      if f in s.fibers && s.fibers[f].state.Term? then
        WithJob(t, w, Scanning).(active := s.active - 1, log := LogEnd(s.log, s.workers[w].job.entry))
      else
        SwapIn(t.(wake := t.wake - {f}), w, f, s.workers[w].spare, item)
    case Call(_) => SwapIn(t, w, CallbackFiber(s, w), Some(CallbackFiber(s, w)), item)
    case Wake(f) =>
      var g := CallbackFiber(s, w);
      var u := SwapIn(t, w, g, Some(g), item);
      u.(held := u.held[Running(g) := item], wake := u.wake[f := Running(g)])
  }

  /** cb_fiber, reset for the next callback, or a new fiber. */
  function CallbackFiber(s: State, w: nat): nat
    requires w in s.workers
  {
    if s.workers[w].spare.Some? then s.workers[w].spare.value else s.next
  }
}
