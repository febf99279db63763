/**
 * Every fiber that waits has exactly one wake source: the invariant of the protocol in Reactor, shown for
 * each group of steps separately.
 */
module WakeTokens {
  import opened Options
  import opened Reactor

  /** Suspended, or certain to be as soon as it yields. */
  predicate Waiting(fiber: Fiber) {
    fiber.state.Hold? || fiber.state.Ready? || fiber.armed
  }

  function TargetAt(held: map<Place, Item>, p: Place): Option<nat> {
    if p in held then Target(held[p].work) else None
  }

  /** The recorded wake source of a fiber is the one place that has work for it. */
  ghost predicate WakeIsUnique(held: map<Place, Item>, wake: map<nat, Place>) {
    && (forall p {:trigger TargetAt(held, p)} :: TargetAt(held, p).Some? ==>
          TargetAt(held, p).value in wake && wake[TargetAt(held, p).value] == p)
    && (forall f {:trigger wake[f]} :: f in wake ==> TargetAt(held, wake[f]) == Some(f))
  }

  /** The fibers with a wake source are those that wait and were not abandoned. */
  ghost predicate WaitersWake(s: State) {
    && (forall f :: f in s.wake ==> f in s.fibers && Waiting(s.fibers[f]) && f !in s.abandoned)
    && (forall f :: f in s.fibers && Waiting(s.fibers[f]) ==> f in s.wake || f in s.abandoned)
    && (forall f :: f in s.abandoned ==> f in s.fibers && Waiting(s.fibers[f]))
  }

  /** Fibers and the workers that run or own them agree. */
  ghost predicate SwitchesAgree(fibers: map<nat, Fiber>, workers: map<nat, Worker>) {
    && (forall w :: w in workers ==> WorkerOk(fibers, w, workers[w]))
    && (forall f :: f in fibers ==> FiberOk(workers, f, fibers[f]))
  }

  predicate WorkerOk(fibers: map<nat, Fiber>, w: nat, worker: Worker) {
    && (worker.job.Busy? ==>
          && worker.job.fiber in fibers && fibers[worker.job.fiber].state == Exec(w)
          && (worker.job.task.work.Resume? <==> worker.spare != Some(worker.job.fiber)))
    && (worker.job.Leaving? ==> worker.job.fiber in fibers && fibers[worker.job.fiber].state.Hold?)
    && (worker.spare.Some? ==>
          && worker.spare.value in fibers
          && (fibers[worker.spare.value].state == Init(w) || (worker.job.Busy? && !worker.job.task.work.Resume?)))
  }

  predicate FiberOk(workers: map<nat, Worker>, f: nat, fiber: Fiber) {
    match fiber.state
    case Exec(w) => w in workers && workers[w].job.Busy? && workers[w].job.fiber == f
    case Init(w) => w in workers && workers[w].spare == Some(f) && !fiber.armed
    case _ => !fiber.armed
  }

  /** What kind of work can be where. */
  ghost predicate KindsAgree(s: State) {
    forall p :: p in s.held ==> KindOk(s.next, p, s.held[p])
  }

  predicate KindOk(next: nat, p: Place, item: Item) {
    && (item.reg.Some? ==> item.reg.value < next) && (item.work.Wake? ==> item.reg.None?)
    && (!item.work.Call? ==> item.pin.None?)
    && match p
       case Event(_, _) => !item.work.Wake? && item.reg.Some?
       case Timer(id) => id < next && !item.work.Resume? && item.reg.None?
       case Expired(_, id) => id < next && !item.work.Resume? && item.reg.None?
       case Queue(n) => n < next
       case Hand(_) => true
       case Returned(_) => item.work.Resume? && item.reg.None?
       case Running(_) => item.work.Wake?
  }

  /** The places that belong to a worker or a fiber fit what it is doing. */
  ghost predicate PlacesAgree(s: State) {
    && (forall p :: p in s.held ==> PlaceOk(s, p, s.held[p].work))
    && (forall w :: w in s.workers && s.workers[w].job.Holding? ==> Hand(w) in s.held)
    && (forall w :: w in s.workers && s.workers[w].job.Returning? ==> Returned(w) in s.held)
  }

  predicate PlaceOk(s: State, p: Place, work: Work) {
    match p
    case Expired(w, _) => JobOf(s, w).Idling?
    case Returned(w) => JobOf(s, w).Returning?
    case Hand(w) => JobOf(s, w).Holding? && (work.Resume? ==> !IsExec(s, work.fiber))
    case Running(g) => IsExec(s, g) && !s.fibers[g].armed
    case _ => true
  }

  ghost predicate SerialsFresh(s: State) {
    && (forall f :: f in s.fibers ==> f < s.next)
    && (forall k :: k in s.falling ==> k < s.next)
    && (forall n :: n in s.log.entered ==> n < s.next)
    && (forall w :: w in s.workers && s.workers[w].job.Busy? && s.workers[w].job.task.reg.Some? ==>
          s.workers[w].job.task.reg.value < s.next)
  }

  ghost predicate Inv(s: State) {
    && WakeIsUnique(s.held, s.wake) && WaitersWake(s) && SwitchesAgree(s.fibers, s.workers)
    && KindsAgree(s) && PlacesAgree(s) && SerialsFresh(s)
  }

  lemma {:induction false} InitInv(s: State)
    requires IsInit(s)
    ensures Inv(s)
  {
  }

  /** Putting work for f at a new place, when f has no other. */
  lemma {:induction false} UniquePut(held: map<Place, Item>, wake: map<nat, Place>, p: Place, item: Item)
    requires WakeIsUnique(held, wake) && p !in held && (Target(item.work).Some? ==> Target(item.work).value !in wake)
    ensures WakeIsUnique(held[p := item], if Target(item.work).Some? then wake[Target(item.work).value := p] else wake)
  {
    var held' := held[p := item];
    forall q ensures q != p ==> TargetAt(held', q) == TargetAt(held, q) {}
  }

  /** Taking work away, and forgetting the source of the fiber it was for. */
  lemma {:induction false} UniqueRemove(held: map<Place, Item>, wake: map<nat, Place>, p: Place)
    requires WakeIsUnique(held, wake) && p in held
    ensures WakeIsUnique(held - {p}, if Target(held[p].work).Some? then wake - {Target(held[p].work).value} else wake)
  {
    var held' := held - {p};
    forall q ensures q != p ==> TargetAt(held', q) == TargetAt(held, q) {}
    assert TargetAt(held, p) == Target(held[p].work);
  }

  lemma {:induction false} UniqueMove(held: map<Place, Item>, wake: map<nat, Place>, p: Place, q: Place, item: Item)
    requires WakeIsUnique(held, wake) && p in held && q !in held && Target(item.work) == Target(held[p].work)
    ensures WakeIsUnique((held - {p})[q := item], if Target(item.work).Some? then wake[Target(item.work).value := q]
                         else wake)
  {
    var f := Target(item.work);
    var wake' := if f.Some? then wake - {f.value} else wake;
    UniqueRemove(held, wake, p);
    UniquePut(held - {p}, wake', q, item);
    if f.Some? {
      assert wake'[f.value := q] == wake[f.value := q];
    }
  }

  /** The serial number is on no place yet. */
  lemma {:induction false} FreshPlaces(s: State, w: nat)
    requires KindsAgree(s) && PlacesAgree(s) && SerialsFresh(s)
    ensures Queue(s.next) !in s.held && Timer(s.next) !in s.held && Expired(w, s.next) !in s.held
    ensures s.next !in s.fibers && Running(s.next) !in s.held
  {
  }

  lemma {:induction false} HeldIsWake(s: State, p: Place)
    requires WakeIsUnique(s.held, s.wake) && p in s.held && Target(s.held[p].work).Some?
    ensures Target(s.held[p].work).value in s.wake && s.wake[Target(s.held[p].work).value] == p
  {
    assert TargetAt(s.held, p).Some?;
  }

  lemma {:induction false} HandsAreFree(s: State, w: nat)
    requires PlacesAgree(s)
    ensures !JobOf(s, w).Holding? ==> Hand(w) !in s.held
    ensures !JobOf(s, w).Returning? ==> Returned(w) !in s.held
  {
    assert Hand(w) in s.held ==> PlaceOk(s, Hand(w), s.held[Hand(w)].work);
    assert Returned(w) in s.held ==> PlaceOk(s, Returned(w), s.held[Returned(w)].work);
  }

  /** A fiber that runs and has not armed anything has no wake source. */
  lemma {:induction false} RunnerHasNone(s: State, w: nat)
    requires WaitersWake(s) && SwitchesAgree(s.fibers, s.workers) && Free(s, w)
    ensures s.workers[w].job.fiber !in s.wake && s.workers[w].job.fiber !in s.abandoned
  {
    assert WorkerOk(s.fibers, w, s.workers[w]);
  }

  predicate IsMove(a: Action) {
    a.Trigger? || a.Expire? || a.Flush? || a.Take? || a.RunWake? || a.Requeue?
  }

  predicate IsYield(a: Action) {
    a.YieldToHold? || a.YieldToReady? || a.Finish?
  }

  predicate IsIdle(a: Action) {
    a.EnterIdle? || a.LeaveIdle? || a.ProbeTimers? || a.ProbePending? || a.ProbeQueue? || a.Leave?
  }

  predicate IsPost(a: Action) {
    !IsMove(a) && !IsYield(a) && !IsIdle(a) && !a.Start? && !a.BackInRun?
  }

  /** The place a moving step takes its work from, and where it puts it. */
  function From(s: State, a: Action): Place
    requires IsMove(a)
    requires a.RunWake? ==> JobOf(s, a.w).Busy?
  {
    match a
    case Trigger(_, fd, wr) => Event(fd, wr)
    case Expire(_, id) => Timer(id)
    case Flush(w, id) => Expired(w, id)
    case Take(_, n) => Queue(n)
    case RunWake(w) => Running(s.workers[w].job.fiber)
    case Requeue(w) => Returned(w)
  }

  function To(s: State, a: Action): Place
    requires IsMove(a)
  {
    match a
    case Expire(w, _) => Expired(w, s.next)
    case Take(w, _) => Hand(w)
    case _ => Queue(s.next)
  }

  /** The callback of a sleep puts its fiber into the queue; all else stays as it is. */
  function Moved(s: State, a: Action): Item
    requires IsMove(a) && (a.RunWake? ==> JobOf(s, a.w).Busy?) && From(s, a) in s.held
  {
    var item := s.held[From(s, a)];
    if a.RunWake? then Item(if item.work.Call? then item.work else Resume(item.work.fiber), None, None) else item
  }

  // ---------------------------------------------------------------- steps that move work

  lemma {:induction false} MoveEffect(s: State, a: Action)
    requires Enabled(s, a) && IsMove(a)
    ensures From(s, a) in s.held
    ensures var t, u := Do(s, a), Move(s, From(s, a), To(s, a), Moved(s, a));
            && t.held == u.held && t.wake == u.wake && t.next == u.next
            && t.fibers == s.fibers && t.abandoned == s.abandoned
    ensures Do(s, a).falling <= s.falling + {s.next}
    ensures Do(s, a).log.entered == if a.Take? then s.log.entered[a.n := a.w] else s.log.entered
  {
  }

  lemma {:induction false} MoveWorkers(s: State, a: Action)
    requires Enabled(s, a) && IsMove(a)
    ensures var t := Do(s, a).workers;
            if a.Take? || a.Requeue?
            then a.w in s.workers && t == s.workers[a.w := t[a.w]] && t[a.w].spare == s.workers[a.w].spare
              && (if a.Take? then s.workers[a.w].job.Scanning? && t[a.w].job.Holding?
                  else s.workers[a.w].job.Returning? && t[a.w].job.Scanning?)
            else t == s.workers
  {
  }

  lemma {:induction false} MoveGoesToFree(s: State, a: Action)
    requires KindsAgree(s) && PlacesAgree(s) && SerialsFresh(s) && Enabled(s, a) && IsMove(a)
    ensures From(s, a) in s.held && To(s, a) !in s.held && Target(Moved(s, a).work) == Target(s.held[From(s, a)].work)
  {
    hide Do, WakeIsUnique, WaitersWake, SwitchesAgree, KindsAgree, PlacesAgree, SerialsFresh;
    if a.Take? {
      HandsAreFree(s, a.w);
    } else {
      FreshPlaces(s, if a.Expire? then a.w else 0);
    }
  }

  lemma {:induction false} MoveKeepsUnique(s: State, a: Action)
    requires Inv(s) && Enabled(s, a) && IsMove(a)
    ensures WakeIsUnique(Do(s, a).held, Do(s, a).wake)
  {
    hide Do, WakeIsUnique, WaitersWake, SwitchesAgree, KindsAgree, PlacesAgree, SerialsFresh;
    MoveEffect(s, a);
    MoveGoesToFree(s, a);
    UniqueMove(s.held, s.wake, From(s, a), To(s, a), Moved(s, a));
  }

  lemma {:induction false} MoveKeepsWaiters(s: State, a: Action)
    requires WakeIsUnique(s.held, s.wake) && WaitersWake(s) && Enabled(s, a) && IsMove(a)
    ensures WaitersWake(Do(s, a))
  {
    hide Do, WakeIsUnique;
    MoveEffect(s, a);
    if !s.held[From(s, a)].work.Call? {
      HeldIsWake(s, From(s, a));
    }
  }

  lemma {:induction false} MoveKeepsSwitches(s: State, a: Action)
    requires SwitchesAgree(s.fibers, s.workers) && Enabled(s, a) && IsMove(a)
    ensures SwitchesAgree(Do(s, a).fibers, Do(s, a).workers)
  {
    hide Enabled, Do, SwitchesAgree;
    MoveEffect(s, a);
    MoveWorkers(s, a);
    if a.Take? || a.Requeue? {
      SwitchNone(s.fibers, s.workers, a.w, Do(s, a).workers[a.w]);
    }
  }

  lemma {:induction false} MoveKeepsPlaces(s: State, a: Action)
    requires PlacesAgree(s) && Enabled(s, a) && IsMove(a)
    ensures PlacesAgree(Do(s, a))
  {
    hide Do, Enabled, WakeIsUnique, WaitersWake, SwitchesAgree, KindsAgree, PlacesAgree, SerialsFresh;
    if a.Take? {
      TakeKeepsPlaces(s, a.w, a.n);
    } else if a.Requeue? {
      RequeueKeepsPlaces(s, a.w);
    } else {
      WorkKeepsPlaces(s, a);
    }
  }

  lemma {:induction false} TakeKeepsPlaces(s: State, w: nat, n: nat)
    requires PlacesAgree(s) && Enabled(s, Take(w, n))
    ensures PlacesAgree(Do(s, Take(w, n)))
  {
    hide Do;
    MoveEffect(s, Take(w, n));
    MoveWorkers(s, Take(w, n));
    PlacesTaken(s, Do(s, Take(w, n)), w, Queue(n), s.held[Queue(n)]);
  }

  /** What taking an entry of the queue may touch among the places of workers and fibers. */
  lemma {:induction false} PlacesTaken(s: State, t: State, w: nat, q: Place, item: Item)
    requires PlacesAgree(s) && w in s.workers && s.workers[w].job.Scanning? && q.Queue?
    requires t.workers.Keys == s.workers.Keys && t.workers[w].job.Holding?
    requires forall v :: v in s.workers && v != w ==> t.workers[v] == s.workers[v]
    requires t.fibers == s.fibers && t.held == (s.held - {q})[Hand(w) := item]
    requires item.work.Resume? ==> !IsExec(s, item.work.fiber)
    ensures PlacesAgree(t)
  {
    forall p | p in t.held
      ensures PlaceOk(t, p, t.held[p].work)
    {
      assert p != Hand(w) ==> PlaceOk(s, p, s.held[p].work);
    }
  }

  lemma {:induction false} RequeueKeepsPlaces(s: State, w: nat)
    requires PlacesAgree(s) && Enabled(s, Requeue(w))
    ensures PlacesAgree(Do(s, Requeue(w)))
  {
    hide Do;
    MoveEffect(s, Requeue(w));
    MoveWorkers(s, Requeue(w));
    var t := Do(s, Requeue(w));
    forall p | p in t.held
      ensures PlaceOk(t, p, t.held[p].work)
    {
      assert p in s.held ==> PlaceOk(s, p, s.held[p].work);
    }
  }

  lemma {:induction false} WorkKeepsPlaces(s: State, a: Action)
    requires PlacesAgree(s) && Enabled(s, a) && IsMove(a) && !a.Take? && !a.Requeue?
    ensures PlacesAgree(Do(s, a))
  {
    hide Do;
    MoveEffect(s, a);
    MoveWorkers(s, a);
    var t := Do(s, a);
    forall p | p in t.held
      ensures PlaceOk(t, p, t.held[p].work)
    {
      assert p in s.held ==> PlaceOk(s, p, s.held[p].work);
    }
  }

  lemma {:induction false} MoveKeepsSerials(s: State, a: Action)
    requires SerialsFresh(s) && KindsAgree(s) && Enabled(s, a) && IsMove(a)
    ensures SerialsFresh(Do(s, a))
  {
    hide Do;
    MoveEffect(s, a);
    MoveWorkers(s, a);
    if a.Take? {
      assert KindOk(s.next, Queue(a.n), s.held[Queue(a.n)]);
    }
  }

  lemma {:induction false} MoveKeepsKinds(s: State, a: Action)
    requires KindsAgree(s) && SerialsFresh(s) && Enabled(s, a) && IsMove(a)
    ensures KindsAgree(Do(s, a)) && SerialsFresh(Do(s, a))
  {
    hide Do, SerialsFresh;
    MoveEffect(s, a);
    MoveKeepsSerials(s, a);
    forall p | p in Do(s, a).held
      ensures KindOk(Do(s, a).next, p, Do(s, a).held[p])
    {
      assert p in s.held ==> KindOk(s.next, p, s.held[p]);
    }
  }

  // ---------------------------------------------------------------- starting a task

  /** Worker w holds a fiber that waits for nobody else. */
  lemma {:induction false} HandIsWaiting(s: State, w: nat)
    requires Inv(s) && JobOf(s, w).Holding? && Hand(w) in s.held && s.held[Hand(w)].work.Resume?
    ensures var f := s.held[Hand(w)].work.fiber;
            && f in s.wake && s.wake[f] == Hand(w) && f in s.fibers && f !in s.abandoned && f < s.next
            && (s.fibers[f].state.Hold? || s.fibers[f].state.Ready?)
  {
    HeldIsWake(s, Hand(w));
    var f := s.held[Hand(w)].work.fiber;
    assert FiberOk(s.workers, f, s.fibers[f]);
    assert PlaceOk(s, Hand(w), Resume(f));
  }

  /** The fiber a callback gets is unused: nothing will wake it. */
  lemma {:induction false} CallbackFiberIsUnused(s: State, w: nat)
    requires Inv(s) && Enabled(s, Start(w)) && !s.held[Hand(w)].work.Resume?
    ensures w in s.workers && Unused(s, w, CallbackFiber(s, w))
  {
    hide WakeIsUnique;
    FreshPlaces(s, w);
    assert WorkerOk(s.fibers, w, s.workers[w]);
    if s.workers[w].spare.Some? {
      assert FiberOk(s.workers, s.workers[w].spare.value, s.fibers[s.workers[w].spare.value]);
    }
  }

  predicate Unused(s: State, w: nat, g: nat)
    requires w in s.workers
  {
    && g !in s.wake && g !in s.abandoned && Running(g) !in s.held && g <= s.next
    && (if g in s.fibers then s.fibers[g] == Fiber(Init(w), false) && s.workers[w].spare == Some(g)
        else g == s.next && s.workers[w].spare.None?)
  }

  lemma {:induction false} ResumeKeepsUnique(s: State, w: nat)
    requires Inv(s) && Enabled(s, Start(w)) && s.held[Hand(w)].work.Resume?
    ensures var t := StartTask(s, w, s.held[Hand(w)]); WakeIsUnique(t.held, t.wake)
  {
    hide WakeIsUnique, WaitersWake, SwitchesAgree, KindsAgree, PlacesAgree, SerialsFresh;
    HandIsWaiting(s, w);
    UniqueRemove(s.held, s.wake, Hand(w));
  }

  lemma {:induction false} ResumeKeepsWaiters(s: State, w: nat)
    requires Inv(s) && Enabled(s, Start(w)) && s.held[Hand(w)].work.Resume?
    ensures WaitersWake(StartTask(s, w, s.held[Hand(w)]))
  {
    hide WakeIsUnique, SwitchesAgree, KindsAgree, PlacesAgree, SerialsFresh;
    HandIsWaiting(s, w);
  }

  lemma {:induction false} ResumeKeepsKinds(s: State, w: nat)
    requires Inv(s) && Enabled(s, Start(w)) && s.held[Hand(w)].work.Resume?
    ensures var t := StartTask(s, w, s.held[Hand(w)]); KindsAgree(t) && SerialsFresh(t)
  {
    hide WakeIsUnique, WaitersWake, SwitchesAgree, PlacesAgree;
    HandIsWaiting(s, w);
  }

  /** Nobody is leaving a fiber that is not in HOLD. */
  lemma {:induction false} NobodyIsLeaving(fibers: map<nat, Fiber>, workers: map<nat, Worker>, f: nat)
    requires SwitchesAgree(fibers, workers) && (f in fibers ==> !fibers[f].state.Hold?)
    ensures forall v :: v in workers && workers[v].job.Leaving? ==> workers[v].job.fiber != f
  {
    forall v | v in workers && workers[v].job.Leaving?
      ensures workers[v].job.fiber != f
    {
      assert WorkerOk(fibers, v, workers[v]);
    }
  }

  /** Running f on w: a fiber that was not running, and no other worker's spare. */
  lemma {:induction false} SwitchIn(fibers: map<nat, Fiber>, workers: map<nat, Worker>, w: nat, f: nat, worker: Worker)
    requires SwitchesAgree(fibers, workers) && w in workers && !workers[w].job.Busy?
    requires worker.job.Busy? && worker.job.fiber == f
    requires forall v :: v in workers && workers[v].job.Leaving? ==> workers[v].job.fiber != f
    requires if !worker.job.task.work.Resume?
             then worker.spare == Some(f)
               && (if f in fibers then fibers[f].state == Init(w) else workers[w].spare.None?)
             else worker.spare == workers[w].spare && f in fibers && (fibers[f].state.Hold? || fibers[f].state.Ready?)
    ensures SwitchesAgree(fibers[f := Fiber(Exec(w), false)], workers[w := worker])
  {
  }

  /** Leaving the fiber of w, as a suspended, finished or spare one. */
  lemma {:induction false} SwitchBack(fibers: map<nat, Fiber>, workers: map<nat, Worker>, w: nat, state: FiberState,
                                      worker: Worker)
    requires SwitchesAgree(fibers, workers) && w in workers && workers[w].job.Busy? && !worker.job.Busy?
    requires !state.Exec? && (worker.job.Leaving? ==> state.Hold? && worker.job.fiber == workers[w].job.fiber)
    requires forall v :: v in workers && workers[v].job.Leaving? ==> workers[v].job.fiber != workers[w].job.fiber
    requires if state.Init? then state.owner == w && !workers[w].job.task.work.Resume?
        && worker.spare == workers[w].spare
             else worker.spare == SpareAfterYield(workers[w])
    ensures SwitchesAgree(fibers[workers[w].job.fiber := Fiber(state, false)], workers[w := worker])
  {
  }

  /** A worker that runs no fiber goes on to something else that runs none. */
  lemma {:induction false} SwitchNone(fibers: map<nat, Fiber>, workers: map<nat, Worker>, w: nat, worker: Worker)
    requires SwitchesAgree(fibers, workers) && w in workers && !workers[w].job.Busy? && !worker.job.Busy?
    requires !worker.job.Leaving? && worker.spare == workers[w].spare
    ensures SwitchesAgree(fibers, workers[w := worker])
  {
  }

  /** What swapping a fiber in may touch among the places of workers and fibers. */
  lemma {:induction false} PlacesIn(s: State, t: State, w: nat, f: nat)
    requires PlacesAgree(s) && w in s.workers && s.workers[w].job.Holding?
    requires w in t.workers && t.workers == s.workers[w := t.workers[w]] && t.workers[w].job.Busy?
    requires t.fibers == s.fibers[f := Fiber(Exec(w), false)] && Running(f) !in s.held
    requires forall p :: p in t.held ==> p != Hand(w) && ((p in s.held && t.held[p] == s.held[p]) || p == Running(f))
    requires forall p :: p in s.held && p != Hand(w) ==> p in t.held
    requires forall p :: p in t.held && p.Hand? && t.held[p].work.Resume? ==> t.held[p].work.fiber != f
    ensures PlacesAgree(t)
  {
    forall p | p in t.held
      ensures PlaceOk(t, p, t.held[p].work)
    {
      assert p in s.held ==> PlaceOk(s, p, s.held[p].work);
    }
  }

  lemma {:induction false} ResumeKeepsSwitches(s: State, w: nat)
    requires Inv(s) && Enabled(s, Start(w)) && s.held[Hand(w)].work.Resume?
    ensures var t := StartTask(s, w, s.held[Hand(w)]); SwitchesAgree(t.fibers, t.workers)
  {
    hide WakeIsUnique, WaitersWake, SwitchesAgree, KindsAgree, PlacesAgree, SerialsFresh;
    HandIsWaiting(s, w);
    var t := StartTask(s, w, s.held[Hand(w)]);
    SwitchIn(s.fibers, s.workers, w, s.held[Hand(w)].work.fiber, t.workers[w]);
  }

  lemma {:induction false} ResumeKeepsPlaces(s: State, w: nat)
    requires Inv(s) && Enabled(s, Start(w)) && s.held[Hand(w)].work.Resume?
    ensures PlacesAgree(StartTask(s, w, s.held[Hand(w)]))
  {
    hide WakeIsUnique, WaitersWake, SwitchesAgree, KindsAgree, PlacesAgree, SerialsFresh;
    HandIsWaiting(s, w);
    OtherHands(s, w, s.held[Hand(w)].work.fiber);
    NoRunningCallback(s, s.held[Hand(w)].work.fiber);
    PlacesIn(s, StartTask(s, w, s.held[Hand(w)]), w, s.held[Hand(w)].work.fiber);
  }

  lemma {:induction false} NoRunningCallback(s: State, f: nat)
    requires PlacesAgree(s) && !IsExec(s, f)
    ensures Running(f) !in s.held
  {
  }

  /** No other worker holds f if it waits in Hand(w) or has no wake source at all. */
  lemma {:induction false} OtherHands(s: State, w: nat, f: nat)
    requires WakeIsUnique(s.held, s.wake) && (f in s.wake ==> s.wake[f] == Hand(w))
    ensures forall p :: p in s.held && p.Hand? && p != Hand(w) && s.held[p].work.Resume? ==> s.held[p].work.fiber != f
  {
    forall p | p in s.held && p.Hand? && p != Hand(w) && s.held[p].work.Resume?
      ensures s.held[p].work.fiber != f
    {
      HeldIsWake(s, p);
    }
  }

  lemma {:induction false} CallbackKeepsUnique(s: State, w: nat)
    requires Inv(s) && Enabled(s, Start(w)) && !s.held[Hand(w)].work.Resume?
    ensures var t := StartTask(s, w, s.held[Hand(w)]); WakeIsUnique(t.held, t.wake)
  {
    hide WakeIsUnique, WaitersWake, SwitchesAgree, KindsAgree, PlacesAgree, SerialsFresh;
    var item := s.held[Hand(w)];
    CallbackFiberIsUnused(s, w);
    if item.work.Call? {
      UniqueRemove(s.held, s.wake, Hand(w));
    } else {
      UniqueMove(s.held, s.wake, Hand(w), Running(CallbackFiber(s, w)), item);
    }
  }

  lemma {:induction false} CallbackKeepsWaiters(s: State, w: nat)
    requires WakeIsUnique(s.held, s.wake) && WaitersWake(s) && Hand(w) in s.held && !s.held[Hand(w)].work.Resume?
    requires w in s.workers && s.workers[w].job.Holding? && Unused(s, w, CallbackFiber(s, w))
    ensures WaitersWake(StartTask(s, w, s.held[Hand(w)]))
  {
    hide WakeIsUnique;
    if s.held[Hand(w)].work.Wake? {
      HeldIsWake(s, Hand(w));
    }
  }

  lemma {:induction false} CallbackKeepsKinds(s: State, w: nat)
    requires KindsAgree(s) && SerialsFresh(s) && Hand(w) in s.held && !s.held[Hand(w)].work.Resume?
    requires w in s.workers && s.workers[w].job.Holding? && Unused(s, w, CallbackFiber(s, w))
    ensures var t := StartTask(s, w, s.held[Hand(w)]); KindsAgree(t) && SerialsFresh(t)
  {
    hide SerialsFresh;
    CallbackKeepsSerials(s, w);
    var t := StartTask(s, w, s.held[Hand(w)]);
    forall p | p in t.held
      ensures KindOk(t.next, p, t.held[p])
    {
      assert p in s.held ==> KindOk(s.next, p, s.held[p]);
    }
  }

  lemma {:induction false} CallbackKeepsSerials(s: State, w: nat)
    requires SerialsFresh(s) && KindsAgree(s) && Hand(w) in s.held && !s.held[Hand(w)].work.Resume?
    requires w in s.workers && s.workers[w].job.Holding? && Unused(s, w, CallbackFiber(s, w))
    ensures SerialsFresh(StartTask(s, w, s.held[Hand(w)]))
  {
    assert KindOk(s.next, Hand(w), s.held[Hand(w)]);
  }

  lemma {:induction false} CallbackKeepsSwitches(s: State, w: nat)
    requires Inv(s) && Enabled(s, Start(w)) && !s.held[Hand(w)].work.Resume?
    ensures var t := StartTask(s, w, s.held[Hand(w)]); SwitchesAgree(t.fibers, t.workers)
  {
    hide WakeIsUnique, WaitersWake, SwitchesAgree, KindsAgree, PlacesAgree, SerialsFresh;
    CallbackFiberIsUnused(s, w);
    var t := StartTask(s, w, s.held[Hand(w)]);
    NobodyIsLeaving(s.fibers, s.workers, CallbackFiber(s, w));
    SwitchIn(s.fibers, s.workers, w, CallbackFiber(s, w), t.workers[w]);
  }

  lemma {:induction false} CallbackKeepsPlaces(s: State, w: nat)
    requires WakeIsUnique(s.held, s.wake) && PlacesAgree(s) && Hand(w) in s.held && !s.held[Hand(w)].work.Resume?
    requires w in s.workers && s.workers[w].job.Holding? && Unused(s, w, CallbackFiber(s, w))
    ensures PlacesAgree(StartTask(s, w, s.held[Hand(w)]))
  {
    hide StartTask, WakeIsUnique, WaitersWake, SwitchesAgree, KindsAgree, PlacesAgree, SerialsFresh;
    if s.held[Hand(w)].work.Call? {
      CallKeepsPlaces(s, w);
    } else {
      SleeperKeepsPlaces(s, w);
    }
  }

  lemma {:induction false} CallKeepsPlaces(s: State, w: nat)
    requires WakeIsUnique(s.held, s.wake) && PlacesAgree(s) && Hand(w) in s.held && s.held[Hand(w)].work.Call?
    requires w in s.workers && s.workers[w].job.Holding? && Unused(s, w, CallbackFiber(s, w))
    ensures PlacesAgree(StartTask(s, w, s.held[Hand(w)]))
  {
    hide WakeIsUnique, WaitersWake, SwitchesAgree, KindsAgree, PlacesAgree, SerialsFresh;
    hide WakeIsUnique, WaitersWake, SwitchesAgree, KindsAgree, PlacesAgree, SerialsFresh;
    OtherHands(s, w, CallbackFiber(s, w));
    PlacesIn(s, StartTask(s, w, s.held[Hand(w)]), w, CallbackFiber(s, w));
  }

  lemma {:induction false} SleeperKeepsPlaces(s: State, w: nat)
    requires WakeIsUnique(s.held, s.wake) && PlacesAgree(s) && Hand(w) in s.held && s.held[Hand(w)].work.Wake?
    requires w in s.workers && s.workers[w].job.Holding? && Unused(s, w, CallbackFiber(s, w))
    ensures PlacesAgree(StartTask(s, w, s.held[Hand(w)]))
  {
    OtherHands(s, w, CallbackFiber(s, w));
    PlacesIn(s, StartTask(s, w, s.held[Hand(w)]), w, CallbackFiber(s, w));
  }

  // ---------------------------------------------------------------- leaving a fiber

  lemma {:induction false} YieldEffect(s: State, a: Action)
    requires Enabled(s, a) && IsYield(a)
    ensures a.w in s.workers && s.workers[a.w].job.Busy? && s.workers[a.w].job.fiber in s.fibers
    ensures var t, f := Do(s, a), s.workers[a.w].job.fiber;
            && f in t.fibers && t.fibers == s.fibers[f := t.fibers[f]] && !t.fibers[f].armed
            && t.next == s.next && t.abandoned == s.abandoned && t.falling == s.falling
            && t.log.entered == s.log.entered
    ensures var t, f := Do(s, a), s.workers[a.w].job.fiber;
            && (if a.YieldToHold? then t.fibers[f].state.Hold? && s.fibers[f].armed
                else if a.YieldToReady? then t.fibers[f].state.Ready? && Free(s, a.w)
                else (t.fibers[f].state.Term? || t.fibers[f].state == Init(a.w)) && Free(s, a.w))
            && if a.YieldToReady? then t.held == s.held[Returned(a.w) := Item(Resume(f), None, None)]
                 && t.wake == s.wake[f := Returned(a.w)]
               else t.held == s.held && t.wake == s.wake
  {
  }

  lemma {:induction false} YieldWorkers(s: State, a: Action)
    requires Enabled(s, a) && IsYield(a)
    ensures var t := Do(s, a).workers;
            && a.w in s.workers && t == s.workers[a.w := t[a.w]]
            && match a
               case YieldToReady(_) => t[a.w].job.Returning?
               case YieldToHold(_) => t[a.w].job.Leaving? && t[a.w].job.fiber == s.workers[a.w].job.fiber
               case _ => t[a.w].job.Scanning?
  {
  }

  lemma {:induction false} YieldKeepsUnique(s: State, a: Action)
    requires Inv(s) && Enabled(s, a) && IsYield(a)
    ensures WakeIsUnique(Do(s, a).held, Do(s, a).wake)
  {
    hide WakeIsUnique, WaitersWake, SwitchesAgree, KindsAgree, PlacesAgree, SerialsFresh;
    if a.YieldToReady? {
      HandsAreFree(s, a.w);
      RunnerHasNone(s, a.w);
      UniquePut(s.held, s.wake, Returned(a.w), Item(Resume(s.workers[a.w].job.fiber), None, None));
    }
  }

  lemma {:induction false} RunsOn(s: State, w: nat)
    requires SwitchesAgree(s.fibers, s.workers) && w in s.workers && s.workers[w].job.Busy?
    ensures s.workers[w].job.fiber in s.fibers && s.fibers[s.workers[w].job.fiber].state == Exec(w)
  {
    assert WorkerOk(s.fibers, w, s.workers[w]);
  }

  lemma {:induction false} YieldKeepsWaiters(s: State, a: Action)
    requires WaitersWake(s) && SwitchesAgree(s.fibers, s.workers) && Enabled(s, a) && IsYield(a)
    ensures WaitersWake(Do(s, a))
  {
    hide Do, Enabled;
    YieldEffect(s, a);
    RunsOn(s, a.w);
  }

  lemma {:induction false} YieldKeepsSwitches(s: State, a: Action)
    requires SwitchesAgree(s.fibers, s.workers) && Enabled(s, a) && IsYield(a)
    ensures SwitchesAgree(Do(s, a).fibers, Do(s, a).workers)
  {
    hide WakeIsUnique, WaitersWake, SwitchesAgree, KindsAgree, PlacesAgree, SerialsFresh;
    RunsOn(s, a.w);
    NobodyIsLeaving(s.fibers, s.workers, s.workers[a.w].job.fiber);
    SwitchBack(s.fibers, s.workers, a.w, Do(s, a).fibers[s.workers[a.w].job.fiber].state, Do(s, a).workers[a.w]);
  }

  lemma {:induction false} YieldKeepsPlaces(s: State, a: Action)
    requires PlacesAgree(s) && SwitchesAgree(s.fibers, s.workers) && Enabled(s, a) && IsYield(a)
    ensures PlacesAgree(Do(s, a))
  {
    hide Do, Enabled, WakeIsUnique, WaitersWake, SwitchesAgree, KindsAgree, PlacesAgree, SerialsFresh;
    if a.YieldToReady? {
      ReadyKeepsPlaces(s, a.w);
    } else {
      HoldKeepsPlaces(s, a);
    }
  }

  lemma {:induction false} ReadyKeepsPlaces(s: State, w: nat)
    requires PlacesAgree(s) && SwitchesAgree(s.fibers, s.workers) && Enabled(s, YieldToReady(w))
    ensures PlacesAgree(Do(s, YieldToReady(w)))
  {
    var t, f := Do(s, YieldToReady(w)), s.workers[w].job.fiber;
    assert t.held == s.held[Returned(w) := Item(Resume(f), None, None)]
        && t.fibers == s.fibers[f := Fiber(Ready, false)];
    assert t.workers == s.workers[w := t.workers[w]] && t.workers[w].job.Returning?;
    PlacesOut(s, t, w, f);
  }

  /** What leaving fiber f for a READY one may touch among the places of workers and fibers. */
  lemma {:induction false} PlacesOut(s: State, t: State, w: nat, f: nat)
    requires PlacesAgree(s) && w in s.workers && s.workers[w].job.Busy? && Running(f) !in s.held
    requires w in t.workers && t.workers == s.workers[w := t.workers[w]] && t.workers[w].job.Returning?
    requires t.fibers == s.fibers[f := Fiber(Ready, false)]
    requires t.held == s.held[Returned(w) := Item(Resume(f), None, None)]
    ensures PlacesAgree(t)
  {
    forall p | p in t.held
      ensures PlaceOk(t, p, t.held[p].work)
    {
      assert p in s.held ==> PlaceOk(s, p, s.held[p].work);
    }
  }

  lemma {:induction false} HoldKeepsPlaces(s: State, a: Action)
    requires PlacesAgree(s) && SwitchesAgree(s.fibers, s.workers) && Enabled(s, a) && IsYield(a) && !a.YieldToReady?
    ensures PlacesAgree(Do(s, a))
  {
    var t, f := Do(s, a), s.workers[a.w].job.fiber;
    assert t.held == s.held && t.fibers == s.fibers[f := t.fibers[f]] && !t.fibers[f].state.Exec?;
    assert t.workers == s.workers[a.w := t.workers[a.w]];
    assert Running(f) in s.held ==> PlaceOk(s, Running(f), s.held[Running(f)].work);
    PlacesKept(s, t, a.w, f);
  }

  /** The same for leaving it otherwise. */
  lemma {:induction false} PlacesKept(s: State, t: State, w: nat, f: nat)
    requires PlacesAgree(s) && w in s.workers && s.workers[w].job.Busy? && Running(f) !in s.held && f in t.fibers
    requires w in t.workers && t.workers == s.workers[w := t.workers[w]]
    requires t.workers[w].job.Scanning? || t.workers[w].job.Leaving?
    requires t.fibers == s.fibers[f := t.fibers[f]] && !t.fibers[f].state.Exec? && t.held == s.held
    ensures PlacesAgree(t)
  {
    forall p | p in t.held
      ensures PlaceOk(t, p, t.held[p].work)
    {
      assert PlaceOk(s, p, s.held[p].work);
    }
  }

  lemma {:induction false} YieldKeepsKinds(s: State, a: Action)
    requires KindsAgree(s) && SerialsFresh(s) && SwitchesAgree(s.fibers, s.workers) && Enabled(s, a) && IsYield(a)
    ensures KindsAgree(Do(s, a)) && SerialsFresh(Do(s, a))
  {
    hide Do, Enabled;
    YieldEffect(s, a);
    YieldWorkers(s, a);
  }

  // ---------------------------------------------------------------- user code

  predicate IsArm(a: Action) {
    a.AddEvent? || a.Sleep?
  }

  lemma {:induction false} ArmEffect(s: State, a: Action)
    requires Enabled(s, a) && IsArm(a)
    ensures Free(s, a.w) && s.workers[a.w].job.fiber in Do(s, a).fibers && Do(s, a).workers == s.workers
    ensures var t, f := Do(s, a), s.workers[a.w].job.fiber;
            t.fibers == s.fibers[f := t.fibers[f]] && t.fibers[f].state == s.fibers[f].state
    ensures forall p :: p in s.held && (p.Hand? || p.Returned?) ==> p in Do(s, a).held
    ensures forall p :: p in Do(s, a).held ==>
              (p in s.held && Do(s, a).held[p] == s.held[p]) || p.Event? || p.Timer?
  {
  }

  lemma {:induction false} ArmKeepsUnique(s: State, a: Action)
    requires Inv(s) && Enabled(s, a) && IsArm(a)
    ensures WakeIsUnique(Do(s, a).held, Do(s, a).wake)
  {
    hide WakeIsUnique, WaitersWake, SwitchesAgree, KindsAgree, PlacesAgree, SerialsFresh;
    FreshPlaces(s, 0);
    RunnerHasNone(s, a.w);
    match a
    case AddEvent(w, fd, wr) =>
      UniquePut(s.held, s.wake, Event(fd, wr), Item(Resume(s.workers[w].job.fiber), None, Some(s.next)));
    case Sleep(w) => UniquePut(s.held, s.wake, Timer(s.next), Item(Wake(s.workers[w].job.fiber), None, None));
  }

  lemma {:induction false} PostKeepsUnique(s: State, a: Action)
    requires Inv(s) && Enabled(s, a) && IsPost(a) && !IsArm(a)
    ensures WakeIsUnique(Do(s, a).held, Do(s, a).wake)
  {
    hide WakeIsUnique, WaitersWake, SwitchesAgree, KindsAgree, PlacesAgree, SerialsFresh;
    FreshPlaces(s, 0);
    match a
    case Submit(_, c, pin) => UniquePut(s.held, s.wake, Queue(s.next), Item(Call(c), pin, None));
    case AddEventCallback(_, fd, wr, c) => UniquePut(s.held, s.wake, Event(fd, wr), Item(Call(c), None, Some(s.next)));
    case AddTimer(_, c) => UniquePut(s.held, s.wake, Timer(s.next), Item(Call(c), None, None));
    case CancelTimer(id) => UniqueRemove(s.held, s.wake, Timer(id));
    case DelEvent(fd, wr) => UniqueRemove(s.held, s.wake, Event(fd, wr));
    case Recur(w, id) => FreshPlaces(s, w); UniquePut(s.held, s.wake, Expired(w, s.next), s.held[Timer(id)]);
    case _ =>
  }

  lemma {:induction false} ArmKeepsWaiters(s: State, a: Action)
    requires WakeIsUnique(s.held, s.wake) && WaitersWake(s) && SwitchesAgree(s.fibers, s.workers) && Enabled(s, a)
    requires IsArm(a)
    ensures WaitersWake(Do(s, a))
  {
  }

  lemma {:induction false} PostKeepsWaiters(s: State, a: Action)
    requires WakeIsUnique(s.held, s.wake) && WaitersWake(s) && SwitchesAgree(s.fibers, s.workers) && Enabled(s, a)
    requires IsPost(a) && !IsArm(a)
    ensures WaitersWake(Do(s, a))
  {
    hide WakeIsUnique;
    if a.DelEvent? && !s.held[Event(a.fd, a.write)].work.Call? {
      HeldIsWake(s, Event(a.fd, a.write));
    }
  }

  lemma {:induction false} PostKeepsSwitches(s: State, a: Action)
    requires SwitchesAgree(s.fibers, s.workers) && Enabled(s, a) && IsPost(a)
    ensures SwitchesAgree(Do(s, a).fibers, Do(s, a).workers)
  {
  }

  lemma {:induction false} ArmKeepsPlaces(s: State, a: Action)
    requires PlacesAgree(s) && Enabled(s, a) && IsArm(a)
    ensures PlacesAgree(Do(s, a))
  {
    hide Do, Enabled;
    ArmEffect(s, a);
    var t := Do(s, a);
    forall p | p in t.held
      ensures PlaceOk(t, p, t.held[p].work)
    {
      assert p in s.held ==> PlaceOk(s, p, s.held[p].work);
    }
  }

  /** Other user code switches nobody, and touches only events, timers, the queue and what idle() has extracted. */
  lemma {:induction false} PostEffect(s: State, a: Action)
    requires Enabled(s, a) && IsPost(a) && !IsArm(a)
    ensures Do(s, a).fibers == s.fibers && Do(s, a).workers == s.workers
    ensures forall p :: p in s.held && (p.Hand? || p.Returned?) ==> p in Do(s, a).held
    ensures forall p :: p in Do(s, a).held ==>
              || (p in s.held && Do(s, a).held[p] == s.held[p])
              || p.Event? || p.Timer? || p.Queue? || (p.Expired? && JobOf(s, p.worker).Idling?)
  {
  }

  lemma {:induction false} PostKeepsPlaces(s: State, a: Action)
    requires PlacesAgree(s) && Enabled(s, a) && IsPost(a) && !IsArm(a)
    ensures PlacesAgree(Do(s, a))
  {
    hide Do, Enabled;
    PostEffect(s, a);
    var t := Do(s, a);
    forall p | p in t.held
      ensures PlaceOk(t, p, t.held[p].work)
    {
      assert p in s.held ==> PlaceOk(s, p, s.held[p].work);
    }
  }

  lemma {:induction false} ArmKeepsKinds(s: State, a: Action)
    requires KindsAgree(s) && SerialsFresh(s) && Enabled(s, a) && IsArm(a)
    ensures KindsAgree(Do(s, a)) && SerialsFresh(Do(s, a))
  {
  }

  lemma {:induction false} PostKeepsKinds(s: State, a: Action)
    requires KindsAgree(s) && Enabled(s, a) && IsPost(a) && !IsArm(a)
    ensures KindsAgree(Do(s, a))
  {
  }

  lemma {:induction false} PostKeepsSerials(s: State, a: Action)
    requires SerialsFresh(s) && Enabled(s, a) && IsPost(a) && !IsArm(a)
    ensures SerialsFresh(Do(s, a))
  {
  }

  // ---------------------------------------------------------------- idling

  lemma {:induction false} IdleEffect(s: State, a: Action)
    requires Enabled(s, a) && IsIdle(a)
    ensures a.w in s.workers && var t := Do(s, a);
            && t == s.(workers := s.workers[a.w := t.workers[a.w]]) && t.workers[a.w].spare == s.workers[a.w].spare
            && (s.workers[a.w].job.Scanning? || s.workers[a.w].job.Idling?)
            && (t.workers[a.w].job.Scanning? || t.workers[a.w].job.Left?
                || (t.workers[a.w].job.Idling? && (a.EnterIdle? || a.ProbeTimers? || a.ProbePending?)))
    ensures JobOf(s, a.w).Idling? && !JobOf(Do(s, a), a.w).Idling? ==>
              forall p <- s.held :: !(p.Expired? && p.worker == a.w)
  {
  }

  lemma {:induction false} IdleKeepsWakes(s: State, a: Action)
    requires WakeIsUnique(s.held, s.wake) && WaitersWake(s) && Enabled(s, a) && IsIdle(a)
    ensures WakeIsUnique(Do(s, a).held, Do(s, a).wake) && WaitersWake(Do(s, a))
  {
    hide Enabled, Do;
    IdleEffect(s, a);
  }

  lemma {:induction false} IdleKeepsSwitches(s: State, a: Action)
    requires SwitchesAgree(s.fibers, s.workers) && Enabled(s, a) && IsIdle(a)
    ensures SwitchesAgree(Do(s, a).fibers, Do(s, a).workers)
  {
    hide Enabled, Do, SwitchesAgree;
    IdleEffect(s, a);
    SwitchNone(s.fibers, s.workers, a.w, Do(s, a).workers[a.w]);
  }

  lemma {:induction false} IdleKeepsPlaces(s: State, a: Action)
    requires PlacesAgree(s) && Enabled(s, a) && IsIdle(a)
    ensures PlacesAgree(Do(s, a))
  {
    hide Enabled, Do, PlacesAgree;
    IdleEffect(s, a);
    PlacesIdle(s, Do(s, a), a.w);
  }

  /** What idling may touch among the places of workers and fibers. */
  lemma {:induction false} PlacesIdle(s: State, t: State, w: nat)
    requires PlacesAgree(s) && w in s.workers && t.held == s.held && t.fibers == s.fibers
    requires t.workers.Keys == s.workers.Keys && forall v :: v in s.workers && v != w ==> t.workers[v] == s.workers[v]
    requires s.workers[w].job.Scanning? || s.workers[w].job.Idling? || s.workers[w].job.Leaving?
    requires t.workers[w].job.Scanning? || t.workers[w].job.Left? || t.workers[w].job.Idling?
    requires s.workers[w].job.Idling? && !t.workers[w].job.Idling? ==>
               forall p <- s.held :: !(p.Expired? && p.worker == w)
    ensures PlacesAgree(t)
  {
    forall p | p in t.held
      ensures PlaceOk(t, p, t.held[p].work)
    {
      assert PlaceOk(s, p, s.held[p].work);
    }
  }

  lemma {:induction false} IdleKeepsKinds(s: State, a: Action)
    requires KindsAgree(s) && SerialsFresh(s) && Enabled(s, a) && IsIdle(a)
    ensures KindsAgree(Do(s, a)) && SerialsFresh(Do(s, a))
  {
    hide Enabled, Do;
    IdleEffect(s, a);
  }

  // ---------------------------------------------------------------- back in run()

  lemma {:induction false} BackEffect(s: State, w: nat)
    requires Enabled(s, BackInRun(w))
    ensures w in s.workers && s.workers[w].job.Leaving?
    ensures var t := Do(s, BackInRun(w));
            && t == s.(workers := t.workers, active := t.active, log := t.log) && t.log.entered == s.log.entered
            && w in t.workers && t.workers == s.workers[w := t.workers[w]]
            && t.workers[w].job.Scanning? && t.workers[w].spare == s.workers[w].spare
  {
  }

  lemma {:induction false} BackKeepsWakes(s: State, w: nat)
    requires WakeIsUnique(s.held, s.wake) && WaitersWake(s) && Enabled(s, BackInRun(w))
    ensures WakeIsUnique(Do(s, BackInRun(w)).held, Do(s, BackInRun(w)).wake) && WaitersWake(Do(s, BackInRun(w)))
  {
    hide Enabled, Do, WakeIsUnique;
    BackEffect(s, w);
  }

  lemma {:induction false} BackKeepsSwitches(s: State, w: nat)
    requires SwitchesAgree(s.fibers, s.workers) && Enabled(s, BackInRun(w))
    ensures SwitchesAgree(Do(s, BackInRun(w)).fibers, Do(s, BackInRun(w)).workers)
  {
    hide Enabled, Do, SwitchesAgree;
    BackEffect(s, w);
    SwitchNone(s.fibers, s.workers, w, Do(s, BackInRun(w)).workers[w]);
  }

  lemma {:induction false} BackKeepsPlaces(s: State, w: nat)
    requires PlacesAgree(s) && Enabled(s, BackInRun(w))
    ensures PlacesAgree(Do(s, BackInRun(w)))
  {
    hide Enabled, Do, PlacesAgree;
    BackEffect(s, w);
    PlacesIdle(s, Do(s, BackInRun(w)), w);
  }

  lemma {:induction false} BackKeepsKinds(s: State, w: nat)
    requires KindsAgree(s) && SerialsFresh(s) && Enabled(s, BackInRun(w))
    ensures KindsAgree(Do(s, BackInRun(w))) && SerialsFresh(Do(s, BackInRun(w)))
  {
    hide Enabled, Do;
    BackEffect(s, w);
  }

  // ---------------------------------------------------------------- all steps

  lemma {:induction false} StartKeeps(s: State, a: Action)
    requires Inv(s) && Enabled(s, a) && a.Start?
    ensures Inv(Do(s, a))
  {
    hide WakeIsUnique, WaitersWake, SwitchesAgree, KindsAgree, PlacesAgree, SerialsFresh;
    if s.held[Hand(a.w)].work.Resume? {
      ResumeKeepsUnique(s, a.w);
      ResumeKeepsWaiters(s, a.w);
      ResumeKeepsSwitches(s, a.w);
      ResumeKeepsPlaces(s, a.w);
      ResumeKeepsKinds(s, a.w);
    } else {
      CallbackFiberIsUnused(s, a.w);
      CallbackKeepsUnique(s, a.w);
      CallbackKeepsWaiters(s, a.w);
      CallbackKeepsSwitches(s, a.w);
      CallbackKeepsPlaces(s, a.w);
      CallbackKeepsKinds(s, a.w);
    }
  }

  lemma {:induction false} KeepsInv(s: State, a: Action)
    requires Inv(s) && Enabled(s, a)
    ensures Inv(Do(s, a))
  {
    hide Do, Enabled, WakeIsUnique, WaitersWake, SwitchesAgree, KindsAgree, PlacesAgree, SerialsFresh;
    if a.Start? {
      StartKeeps(s, a);
    } else if IsMove(a) {
      MoveKeepsUnique(s, a);
      MoveKeepsWaiters(s, a);
      MoveKeepsSwitches(s, a);
      MoveKeepsPlaces(s, a);
      MoveKeepsKinds(s, a);
    } else if IsYield(a) {
      YieldKeepsUnique(s, a);
      YieldKeepsWaiters(s, a);
      YieldKeepsSwitches(s, a);
      YieldKeepsPlaces(s, a);
      YieldKeepsKinds(s, a);
    } else if a.BackInRun? {
      BackKeepsWakes(s, a.w);
      BackKeepsSwitches(s, a.w);
      BackKeepsPlaces(s, a.w);
      BackKeepsKinds(s, a.w);
    } else if IsIdle(a) {
      IdleKeepsWakes(s, a);
      IdleKeepsSwitches(s, a);
      IdleKeepsPlaces(s, a);
      IdleKeepsKinds(s, a);
    } else if IsArm(a) {
      ArmKeepsUnique(s, a);
      ArmKeepsWaiters(s, a);
      PostKeepsSwitches(s, a);
      ArmKeepsPlaces(s, a);
      ArmKeepsKinds(s, a);
    } else {
      PostKeepsUnique(s, a);
      PostKeepsWaiters(s, a);
      PostKeepsSwitches(s, a);
      PostKeepsPlaces(s, a);
      PostKeepsKinds(s, a);
      PostKeepsSerials(s, a);
    }
  }
}
