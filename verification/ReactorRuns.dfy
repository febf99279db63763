/**
 * What holds over whole runs of the protocol: one wake source per waiting fiber, the two counters, tasks
 * entered once and by the right worker, and what stopping() does and does not see.
 */
module ReactorRuns {
  import opened Options
  import opened Reactor
  import opened Tasks
  import opened WakeTokens

  // ---------------------------------------------------------------- counters

  function ActiveWorkers(workers: map<nat, Worker>): set<nat> {
    set w | w in workers && HasAny(workers[w].job)
  }

  function EventPlaces(held: map<Place, Item>): set<Place> {
    set p | p in held && p.Event?
  }

  /** Workers with a task of their own, and registered events not yet settled. */
  ghost predicate CountsAgree(s: State) {
    && s.active == |ActiveWorkers(s.workers)|
    && s.pending == |EventPlaces(s.held)| + |s.falling|
  }

  function One(b: bool): nat {
    if b then 1 else 0
  }

  /** The steps that change what a worker has in its hands. */
  predicate IsSwitch(a: Action) {
    a.Take? || a.Start? || a.Requeue? || IsYield(a) || a.BackInRun?
  }

  lemma {:induction false} ActiveUpdate(workers: map<nat, Worker>, w: nat, worker: Worker)
    requires w in workers
    ensures |ActiveWorkers(workers[w := worker])|
         == |ActiveWorkers(workers)| - One(HasAny(workers[w].job)) + One(HasAny(worker.job))
  {
    var others := ActiveWorkers(workers) - {w};
    assert ActiveWorkers(workers) == if HasAny(workers[w].job) then others + {w} else others;
    assert ActiveWorkers(workers[w := worker]) == if HasAny(worker.job) then others + {w} else others;
  }

  lemma {:induction false} EventPut(held: map<Place, Item>, p: Place, item: Item)
    requires p !in held
    ensures |EventPlaces(held[p := item])| == |EventPlaces(held)| + One(p.Event?)
  {
    assert EventPlaces(held[p := item]) == EventPlaces(held) + if p.Event? then {p} else {};
  }

  lemma {:induction false} EventRemove(held: map<Place, Item>, p: Place)
    requires p in held
    ensures |EventPlaces(held - {p})| == |EventPlaces(held)| - One(p.Event?)
  {
    assert EventPlaces(held) == EventPlaces(held - {p}) + if p.Event? then {p} else {};
  }

  lemma {:induction false} KeepsActive(s: State, a: Action)
    requires Enabled(s, a) && s.active == |ActiveWorkers(s.workers)|
    ensures Do(s, a).active == |ActiveWorkers(Do(s, a).workers)|
  {
    if IsSwitch(a) {
      SwitchKeepsActive(s, a);
    } else if IsIdle(a) {
      ActiveUpdate(s.workers, a.w, Do(s, a).workers[a.w]);
    }
  }

  lemma {:induction false} SwitchKeepsActive(s: State, a: Action)
    requires Enabled(s, a) && s.active == |ActiveWorkers(s.workers)| && IsSwitch(a)
    ensures Do(s, a).active == |ActiveWorkers(Do(s, a).workers)|
  {
    SwitchedWorker(s, a);
    ActiveUpdate(s.workers, a.w, Do(s, a).workers[a.w]);
  }

  lemma {:induction false} KeepsPending(s: State, a: Action)
    requires Inv(s) && Enabled(s, a) && s.pending == |EventPlaces(s.held)| + |s.falling|
    ensures Do(s, a).pending == |EventPlaces(Do(s, a).held)| + |Do(s, a).falling|
  {
    if IsMove(a) {
      MoveKeepsPending(s, a);
    } else if a.Start? {
      StartKeepsPending(s, a);
    } else if IsIdle(a) || a.BackInRun? {
      IdleKeepsEvents(s, a);
    } else {
      PostKeepsPending(s, a);
    }
  }

  lemma {:induction false} IdleKeepsEvents(s: State, a: Action)
    requires Enabled(s, a) && (IsIdle(a) || a.BackInRun?)
    ensures Do(s, a).pending == s.pending && Do(s, a).held == s.held && Do(s, a).falling == s.falling
  {
    hide Do, Enabled;
    if IsIdle(a) {
      IdleEffect(s, a);
    } else {
      BackEffect(s, a.w);
    }
  }

  lemma {:induction false} MoveKeepsPending(s: State, a: Action)
    requires Inv(s) && Enabled(s, a) && IsMove(a) && s.pending == |EventPlaces(s.held)| + |s.falling|
    ensures Do(s, a).pending == |EventPlaces(Do(s, a).held)| + |Do(s, a).falling|
  {
    hide Do, WakeIsUnique, WaitersWake, SwitchesAgree, KindsAgree, PlacesAgree, SerialsFresh;
    var p, q := From(s, a), To(s, a);
    MoveEffect(s, a);
    MoveGoesToFree(s, a);
    EventRemove(s.held, p);
    EventPut(s.held - {p}, q, Moved(s, a));
    MoveCounts(s, a);
  }

  lemma {:induction false} MoveCounts(s: State, a: Action)
    requires SerialsFresh(s) && Enabled(s, a) && IsMove(a)
    ensures Do(s, a).pending == s.pending && |Do(s, a).falling| == |s.falling| + One(a.Trigger?)
  {
  }

  lemma {:induction false} StartKeepsPending(s: State, a: Action)
    requires Inv(s) && Enabled(s, a) && a.Start? && s.pending == |EventPlaces(s.held)| + |s.falling|
    ensures Do(s, a).pending == |EventPlaces(Do(s, a).held)| + |Do(s, a).falling|
  {
    hide Do, WakeIsUnique, WaitersWake, SwitchesAgree, KindsAgree, PlacesAgree, SerialsFresh, EventPlaces;
    StartEffect(s, a.w);
    EventRemove(s.held, Hand(a.w));
    if !s.held[Hand(a.w)].work.Resume? {
      CallbackFiberIsUnused(s, a.w);
      EventPut(s.held - {Hand(a.w)}, Running(CallbackFiber(s, a.w)), s.held[Hand(a.w)]);
    }
  }

  lemma {:induction false} StartEffect(s: State, w: nat)
    requires Enabled(s, Start(w))
    ensures Do(s, Start(w)).pending == s.pending && Do(s, Start(w)).falling == s.falling
    ensures var held := s.held - {Hand(w)};
            Do(s, Start(w)).held == if s.held[Hand(w)].work.Wake?
                                    then held[Running(CallbackFiber(s, w)) := s.held[Hand(w)]] else held
  {
  }

  lemma {:induction false} PostKeepsPending(s: State, a: Action)
    requires SerialsFresh(s) && Enabled(s, a) && (IsPost(a) || IsYield(a))
    requires s.pending == |EventPlaces(s.held)| + |s.falling|
    ensures Do(s, a).pending == |EventPlaces(Do(s, a).held)| + |Do(s, a).falling|
  {
    if a.AddEvent? || a.AddEventCallback? {
      EventPut(s.held, Event(a.fd, a.write), Do(s, a).held[Event(a.fd, a.write)]);
    } else if a.DelEvent? {
      EventRemove(s.held, Event(a.fd, a.write));
    } else {
      PlainKeepsPending(s, a);
    }
  }

  lemma {:induction false} PlainKeepsPending(s: State, a: Action)
    requires Enabled(s, a) && (IsPost(a) || IsYield(a)) && !a.AddEvent? && !a.AddEventCallback? && !a.DelEvent?
    requires s.pending == |EventPlaces(s.held)| + |s.falling|
    ensures Do(s, a).pending == |EventPlaces(Do(s, a).held)| + |Do(s, a).falling|
  {
    assert EventPlaces(Do(s, a).held) == EventPlaces(s.held);
  }

  // ---------------------------------------------------------------- shutdown

  /** All registered events have serial numbers from bound on. */
  ghost predicate NoneBefore(held: map<Place, Item>, bound: nat) {
    forall p :: p in held && p.Event? && held[p].reg.Some? ==> held[p].reg.value >= bound
  }

  /** All timers have serial numbers from bound on. */
  ghost predicate NoTimerBefore(held: map<Place, Item>, bound: nat) {
    forall p :: p in held && p.Timer? ==> p.id >= bound
  }

  /** What a call of stopping() that has got this far knows. */
  ghost predicate ProbesAgree(s: State) {
    && (forall w :: w in s.workers && s.workers[w].job.Idling? && !s.workers[w].job.probe.NoProbe? ==>
          s.workers[w].job.probe.bound <= s.next && NoTimerBefore(s.held, s.workers[w].job.probe.bound))
    && (forall w :: w in s.workers && s.workers[w].job.Idling? && s.workers[w].job.probe.SawNoPending? ==>
          NoneBefore(s.held, s.workers[w].job.probe.bound))
  }

  lemma {:induction false} IdleKeepsProbes(s: State, a: Action)
    requires CountsAgree(s) && ProbesAgree(s) && Enabled(s, a) && IsIdle(a)
    ensures ProbesAgree(Do(s, a))
  {
    if a.ProbePending? {
      PendingIsProbed(s, a.w);
    } else {
      OtherProbes(s, a);
    }
  }

  lemma {:induction false} PendingIsProbed(s: State, w: nat)
    requires CountsAgree(s) && ProbesAgree(s) && Enabled(s, ProbePending(w))
    ensures ProbesAgree(Do(s, ProbePending(w)))
  {
    NothingPending(s);
  }

  lemma {:induction false} OtherProbes(s: State, a: Action)
    requires ProbesAgree(s) && Enabled(s, a) && IsIdle(a) && !a.ProbePending?
    ensures ProbesAgree(Do(s, a))
  {
    hide Do;
    IdleEffect(s, a);
    IdleProbes(s, a);
  }

  /** A call of stopping() that begins knows that there are no timers; no other one gets further. */
  lemma {:induction false} IdleProbes(s: State, a: Action)
    requires Enabled(s, a) && IsIdle(a) && !a.ProbePending? && a.w in Do(s, a).workers
    ensures var job := Do(s, a).workers[a.w].job;
            job.Idling? && job.probe != NoProbe ==> a.ProbeTimers? && job.probe == SawNoTimer(s.next) && NoTimers(s)
  {
  }

  lemma {:induction false} NothingPending(s: State)
    requires CountsAgree(s) && s.pending == 0
    ensures forall p :: p in s.held ==> !p.Event?
  {
    assert EventPlaces(s.held) == {};
    assert forall p :: p in s.held ==> p !in EventPlaces(s.held);
  }

  /** Events and timers that were not there before carry the next serial number. */
  ghost predicate OnlyNewer(before: map<Place, Item>, after: map<Place, Item>, next: nat) {
    && (forall p :: p in after && p.Event? && after[p].reg.Some? ==>
          after[p].reg.value >= next || (p in before && after[p] == before[p]))
    && (forall p :: p in after && p.Timer? ==> p.id >= next || p in before)
  }

  /** No call of stopping() got any further. */
  ghost predicate SameProbes(before: map<nat, Worker>, after: map<nat, Worker>) {
    forall w :: w in after && after[w].job.Idling? ==> w in before && before[w].job == after[w].job
  }

  lemma {:induction false} DoGrowsNext(s: State, a: Action)
    requires Enabled(s, a)
    ensures s.next <= Do(s, a).next
  {
    hide Do, Enabled;
    if IsMove(a) {
      MoveEffect(s, a);
    } else if IsYield(a) {
      YieldEffect(s, a);
    } else if IsIdle(a) {
      IdleEffect(s, a);
    } else if a.BackInRun? {
      BackEffect(s, a.w);
    } else {
      PostGrowsNext(s, a);
    }
  }

  lemma {:induction false} PostGrowsNext(s: State, a: Action)
    requires Enabled(s, a) && (IsPost(a) || a.Start?)
    ensures s.next <= Do(s, a).next
  {
  }

  lemma {:induction false} DoIsNewer(s: State, a: Action)
    requires Enabled(s, a)
    ensures OnlyNewer(s.held, Do(s, a).held, s.next)
  {
    if IsMove(a) {
      MoveIsNewer(s, a);
    } else if a.Start? {
      StartIsNewer(s, a);
    } else if IsPost(a) {
      PostIsNewer(s, a);
    }
  }

  lemma {:induction false} MoveIsNewer(s: State, a: Action)
    requires Enabled(s, a) && IsMove(a)
    ensures OnlyNewer(s.held, Do(s, a).held, s.next)
  {
  }

  lemma {:induction false} StartIsNewer(s: State, a: Action)
    requires Enabled(s, a) && a.Start?
    ensures OnlyNewer(s.held, Do(s, a).held, s.next)
  {
  }

  lemma {:induction false} PostIsNewer(s: State, a: Action)
    requires Enabled(s, a) && IsPost(a)
    ensures OnlyNewer(s.held, Do(s, a).held, s.next)
  {
  }

  lemma {:induction false} DoProbes(s: State, a: Action)
    requires Enabled(s, a) && !IsIdle(a)
    ensures SameProbes(s.workers, Do(s, a).workers)
  {
    if IsSwitch(a) {
      SwitchedWorker(s, a);
      OneWorkerProbes(s.workers, a.w, Do(s, a).workers[a.w]);
    } else {
      SameWorkers(s, a);
    }
  }

  /** Taking, starting and leaving a task change one worker, which is not in idle() then. */
  lemma {:induction false} SwitchedWorker(s: State, a: Action)
    requires Enabled(s, a) && IsSwitch(a)
    ensures a.w in s.workers && a.w in Do(s, a).workers && Do(s, a).workers[a.w].ended == s.workers[a.w].ended
    ensures !Do(s, a).workers[a.w].job.Idling? && !Do(s, a).workers[a.w].job.Left? && Do(s, a).stopped == s.stopped
    ensures Do(s, a).workers == s.workers[a.w := Do(s, a).workers[a.w]]
  {
    if IsYield(a) {
      YieldedWorker(s, a);
    }
  }

  lemma {:induction false} YieldedWorker(s: State, a: Action)
    requires Enabled(s, a) && IsYield(a)
    ensures a.w in s.workers && a.w in Do(s, a).workers && Do(s, a).workers[a.w].ended == s.workers[a.w].ended
    ensures !Do(s, a).workers[a.w].job.Idling? && !Do(s, a).workers[a.w].job.Left? && Do(s, a).stopped == s.stopped
    ensures Do(s, a).workers == s.workers[a.w := Do(s, a).workers[a.w]]
  {
  }

  lemma {:induction false} OneWorkerProbes(workers: map<nat, Worker>, w: nat, worker: Worker)
    requires !worker.job.Idling?
    ensures SameProbes(workers, workers[w := worker])
  {
  }

  lemma {:induction false} SameWorkers(s: State, a: Action)
    requires Enabled(s, a) && !IsSwitch(a) && !IsIdle(a)
    ensures Do(s, a).workers == s.workers
  {
  }

  lemma {:induction false} ProbesFrame(s: State, t: State)
    requires ProbesAgree(s) && OnlyNewer(s.held, t.held, s.next) && SameProbes(s.workers, t.workers) && s.next <= t.next
    ensures ProbesAgree(t)
  {
  }

  lemma {:induction false} KeepsProbes(s: State, a: Action)
    requires CountsAgree(s) && ProbesAgree(s) && Enabled(s, a)
    ensures ProbesAgree(Do(s, a))
  {
    if IsIdle(a) {
      IdleKeepsProbes(s, a);
    } else {
      DoGrowsNext(s, a);
      DoIsNewer(s, a);
      DoProbes(s, a);
      ProbesFrame(s, Do(s, a));
    }
  }

  /** Registration r is still waiting, scheduled, or in the hands of a worker whose slice has not ended. */
  ghost predicate Outstanding(s: State, r: nat) {
    || (exists p :: p in s.held && s.held[p].reg == Some(r))
    || (exists w :: w in s.workers && HasStarted(s.workers[w].job) && s.workers[w].job.task.reg == Some(r))
  }

  /** When stopping() is about to return true, nothing registered before the call is outstanding. */
  lemma {:induction false} StoppingSeesEvents(s: State, w: nat, r: nat)
    requires Inv(s) && CountsAgree(s) && ProbesAgree(s) && Enabled(s, ProbeQueue(w))
    requires r < s.workers[w].job.probe.bound
    ensures !Outstanding(s, r)
  {
    assert ActiveWorkers(s.workers) == {};
    assert forall v :: v in s.workers ==> v !in ActiveWorkers(s.workers);
    forall p | p in s.held
      ensures s.held[p].reg != Some(r)
    {
      assert KindOk(s.next, p, s.held[p]);
      assert PlaceOk(s, p, s.held[p].work);
    }
  }

  /**
   * What can be left when stopping() is about to return true: events and timers that came after the call began,
   * callbacks that another idle worker has taken out of the timer set and not scheduled yet, and fibers that yielded
   * to READY and that a worker, no longer counted as active, has not put into the queue yet.
   */
  lemma {:induction false} StoppingLeftovers(s: State, w: nat, p: Place)
    requires Inv(s) && CountsAgree(s) && ProbesAgree(s) && Enabled(s, ProbeQueue(w)) && p in s.held
    ensures var bound := s.workers[w].job.probe.bound;
            match p
            case Event(_, _) => s.held[p].reg.Some? && s.held[p].reg.value >= bound
            case Timer(id) => id >= bound
            case Expired(v, _) => v != w && JobOf(s, v).Idling?
            case Returned(v) => v != w && JobOf(s, v).Returning?
            case _ => false
  {
    if p.Running? || p.Hand? {
      TaskIsCounted(s, p);
    }
    assert KindOk(s.next, p, s.held[p]);
    assert PlaceOk(s, p, s.held[p].work);
  }

  /** This place holds an event or a timer that came after a call with this bound began. */
  predicate CameLater(s: State, p: Place, bound: nat)
    requires p in s.held
  {
    match p
    case Event(_, _) => s.held[p].reg.Some? && s.held[p].reg.value >= bound
    case Timer(id) => id >= bound
    case _ => false
  }

  /** So such a call misses earlier work if and only if there is such a callback or such a fiber. */
  lemma {:induction false} StoppingMisses(s: State, w: nat)
    requires Inv(s) && CountsAgree(s) && ProbesAgree(s) && Enabled(s, ProbeQueue(w))
    ensures (forall p :: p in s.held ==> CameLater(s, p, s.workers[w].job.probe.bound))
      <==> forall p :: p in s.held ==> !p.Expired? && !p.Returned?
  {
    forall p | p in s.held
      ensures CameLater(s, p, s.workers[w].job.probe.bound) <==> !p.Expired? && !p.Returned?
    {
      StoppingLeftovers(s, w, p);
    }
  }

  /** Work in a worker's hands makes that worker active. */
  lemma {:induction false} TaskIsCounted(s: State, p: Place)
    requires Inv(s) && p in s.held && (p.Running? || p.Hand?)
    ensures |ActiveWorkers(s.workers)| > 0
  {
    assert PlaceOk(s, p, s.held[p].work);
    if p.Running? {
      assert FiberOk(s.workers, p.fiber, s.fibers[p.fiber]);
      assert s.fibers[p.fiber].state.worker in ActiveWorkers(s.workers);
    } else {
      assert p.worker in ActiveWorkers(s.workers);
    }
  }

  // ---------------------------------------------------------------- leaving

  predicate AllLeft(s: State) {
    forall w :: w in s.workers ==> s.workers[w].job.Left?
  }

  /** There are workers, and any that have left or are about to did so after stop(). */
  ghost predicate LeftAfterStop(s: State) {
    s.workers != map[] && forall w :: w in s.workers && (s.workers[w].ended || s.workers[w].job.Left?) ==> s.stopped
  }

  /** Workers only leave after stop(), and the last one leaves no task behind that any of them could have taken. */
  ghost predicate LeavingAgrees(s: State) {
    && LeftAfterStop(s)
    && (AllLeft(s) ==> forall n: nat :: Queue(n) in s.held ==> s.held[Queue(n)].pin.Some?)
  }

  lemma {:induction false} KeepsLeaving(s: State, a: Action)
    requires SwitchesAgree(s.fibers, s.workers) && LeavingAgrees(s) && Enabled(s, a)
    ensures LeavingAgrees(Do(s, a))
  {
    if a.Leave? {
      forall n: nat | Queue(n) in s.held && s.held[Queue(n)].pin.None?
        ensures !AllLeft(Do(s, a))
      {
        LeaverIsNotLast(s, a.w, n);
      }
    } else {
      StaysLeft(s, a);
    }
  }

  lemma {:induction false} StaysLeft(s: State, a: Action)
    requires LeavingAgrees(s) && Enabled(s, a) && !a.Leave?
    ensures LeavingAgrees(Do(s, a))
  {
    if IsSwitch(a) {
      SwitchLeavesNobody(s, a);
    } else if IsIdle(a) {
      IdleLeavesNobody(s, a);
    } else {
      SameWorkers(s, a);
      if s.stopped {
        StopStays(s, a);
      }
    }
    if AllLeft(Do(s, a)) {
      StillAllLeft(s, a);
    }
  }

  lemma {:induction false} SwitchLeavesNobody(s: State, a: Action)
    requires LeftAfterStop(s) && Enabled(s, a) && IsSwitch(a)
    ensures LeftAfterStop(Do(s, a))
  {
    SwitchedWorker(s, a);
  }

  lemma {:induction false} IdleLeavesNobody(s: State, a: Action)
    requires LeftAfterStop(s) && Enabled(s, a) && IsIdle(a) && !a.Leave?
    ensures LeftAfterStop(Do(s, a))
  {
    assert a.w in Do(s, a).workers;
  }

  lemma {:induction false} StopStays(s: State, a: Action)
    requires Enabled(s, a) && s.stopped
    ensures Do(s, a).stopped
  {
  }

  /** A task pinned to no one that the leaving worker cannot take: its fiber runs on another worker. */
  lemma {:induction false} LeaverIsNotLast(s: State, w: nat, n: nat)
    requires SwitchesAgree(s.fibers, s.workers) && Enabled(s, Leave(w))
    requires Queue(n) in s.held && s.held[Queue(n)].pin.None?
    ensures !AllLeft(Do(s, Leave(w)))
  {
    assert !Runnable(s, w, n);
    var f := s.held[Queue(n)].work.fiber;
    assert FiberOk(s.workers, f, s.fibers[f]);
    var v := s.fibers[f].state.worker;
    assert Do(s, Leave(w)).workers[v].job.Busy?;
  }

  /** Once all have left, only steps that schedule nothing are possible. */
  lemma {:induction false} StillAllLeft(s: State, a: Action)
    requires LeavingAgrees(s) && Enabled(s, a) && !a.Leave? && AllLeft(Do(s, a))
    ensures AllLeft(s) && forall n: nat :: Queue(n) in Do(s, a).held ==>
              Queue(n) in s.held && Do(s, a).held[Queue(n)] == s.held[Queue(n)]
  {
    NobodyLeaves(s, a);
    AllLeftIsQuiet(s, a);
  }

  lemma {:induction false} NobodyLeaves(s: State, a: Action)
    requires Enabled(s, a) && !a.Leave? && AllLeft(Do(s, a))
    ensures AllLeft(s)
  {
    forall w | w in s.workers
      ensures s.workers[w].job.Left?
    {
      assert Do(s, a).workers[w].job.Left?;
    }
  }

  lemma {:induction false} AllLeftIsQuiet(s: State, a: Action)
    requires AllLeft(s) && s.workers != map[] && Enabled(s, a)
    requires forall w :: w in s.workers && s.workers[w].job.Left? ==> s.stopped
    ensures a.CancelTimer? || a.Settle? || a.DelEvent? || a.Stop?
    ensures forall n: nat :: Queue(n) in Do(s, a).held ==>
              Queue(n) in s.held && Do(s, a).held[Queue(n)] == s.held[Queue(n)]
  {
    var v :| v in s.workers;
    assert s.workers[v].job.Left?;
  }

  // ---------------------------------------------------------------- runs

  ghost predicate Run(states: seq<State>, acts: seq<Action>) {
    && |states| == |acts| + 1 && IsInit(states[0])
    && forall i {:trigger acts[i]} :: 0 <= i < |acts| ==>
          Enabled(states[i], acts[i]) && states[i + 1] == Do(states[i], acts[i])
  }

  ghost predicate Good(s: State) {
    Inv(s) && TasksAgree(s) && CountsAgree(s) && ProbesAgree(s) && LeavingAgrees(s)
  }

  lemma {:induction false} KeepsGood(s: State, a: Action)
    requires Good(s) && Enabled(s, a)
    ensures Good(Do(s, a))
  {
    KeepsInv(s, a);
    KeepsTasks(s, a);
    KeepsActive(s, a);
    KeepsPending(s, a);
    KeepsProbes(s, a);
    KeepsLeaving(s, a);
  }

  lemma {:induction false} InitGood(s: State)
    requires IsInit(s)
    ensures Good(s)
  {
    InitInv(s);
    InitTasks(s);
    assert ActiveWorkers(s.workers) == {};
    assert EventPlaces(s.held) == {};
    var w :| w in s.workers;
  }

  /** What holds at first and is kept by each step holds everywhere. */
  lemma {:induction false} Everywhere(states: seq<State>, n: nat, holds: State -> bool, i: nat)
    requires |states| == n + 1 && holds(states[0]) && i <= n
    requires forall k: nat {:trigger states[k]} :: k < n && holds(states[k]) ==> holds(states[k + 1])
    ensures holds(states[i])
  {
    if i > 0 {
      Everywhere(states, n, holds, i - 1);
      assert holds(states[i - 1 + 1]);
    }
  }

  /** In every state of every run. */
  lemma {:induction false} RunIsGood(states: seq<State>, acts: seq<Action>, i: nat)
    requires Run(states, acts) && i < |states|
    ensures Good(states[i])
  {
    InitGood(states[0]);
    forall k: nat | k < |acts| && Good(states[k])
      ensures Good(states[k + 1])
    {
      GoodAt(states, acts, k);
    }
    Everywhere(states, |acts|, Good, i);
  }

  lemma {:induction false} EnabledAt(states: seq<State>, acts: seq<Action>, i: nat)
    requires Run(states, acts) && i < |acts|
    ensures |states| == |acts| + 1 && Enabled(states[i], acts[i])
  {
  }

  lemma {:induction false} GoodAt(states: seq<State>, acts: seq<Action>, i: nat)
    requires Run(states, acts) && i < |acts| && Good(states[i])
    ensures Good(states[i + 1])
  {
    KeepsGood(states[i], acts[i]);
  }

  /** Everything that could make fiber f run again. */
  function Sources(s: State, f: nat): set<Place> {
    set p | p in s.held && Target(s.held[p].work) == Some(f)
  }

  /**
   * A fiber that waits, or is about to, has exactly one wake source; none only if its registration was
   * deleted with delEvent. A fiber that does not wait has none.
   */
  lemma {:induction false} ExactlyOneWakeSource(states: seq<State>, acts: seq<Action>, i: nat, f: nat)
    requires Run(states, acts) && i < |states| && f in states[i].fibers
    ensures |Sources(states[i], f)| == if Waiting(states[i].fibers[f]) && f !in states[i].abandoned then 1 else 0
  {
    var s := states[i];
    RunIsGood(states, acts, i);
    forall p | p in s.held && Target(s.held[p].work) == Some(f)
      ensures f in s.wake && p == s.wake[f]
    {
      HeldIsWake(s, p);
    }
    if f in s.wake {
      assert TargetAt(s.held, s.wake[f]) == Some(f);
      assert Sources(s, f) == {s.wake[f]};
    } else {
      assert Sources(s, f) == {};
    }
  }

  lemma {:induction false} OthersAbandonNone(s: State, a: Action)
    requires Enabled(s, a) && !a.DelEvent?
    ensures Do(s, a).abandoned == s.abandoned
  {
    hide Do, Enabled;
    if IsMove(a) {
      MoveEffect(s, a);
    } else if IsYield(a) {
      YieldEffect(s, a);
    } else if IsIdle(a) {
      IdleEffect(s, a);
    } else if a.BackInRun? {
      BackEffect(s, a.w);
    } else {
      PostAbandonsNone(s, a);
    }
  }

  lemma {:induction false} PostAbandonsNone(s: State, a: Action)
    requires Enabled(s, a) && !a.DelEvent? && (IsPost(a) || a.Start?)
    ensures Do(s, a).abandoned == s.abandoned
  {
  }

  /** delEvent on a fiber's registration is the only step that abandons it, and it then waits for ever. */
  lemma {:induction false} AbandonedByDelEvent(s: State, a: Action, f: nat)
    requires Good(s) && Enabled(s, a)
    ensures f in Do(s, a).abandoned <==>
      f in s.abandoned || (a.DelEvent? && s.held[Event(a.fd, a.write)].work == Resume(f))
    ensures f in s.abandoned ==> f in s.fibers && Waiting(s.fibers[f])
  {
    if !a.DelEvent? {
      OthersAbandonNone(s, a);
    } else {
      DelEventAbandons(s, a.fd, a.write, f);
    }
  }

  lemma {:induction false} DelEventAbandons(s: State, fd: nat, write: bool, f: nat)
    requires KindsAgree(s) && Enabled(s, DelEvent(fd, write))
    ensures f in Do(s, DelEvent(fd, write)).abandoned
      <==> f in s.abandoned || s.held[Event(fd, write)].work == Resume(f)
  {
    assert KindOk(s.next, Event(fd, write), s.held[Event(fd, write)]);
  }

  lemma {:induction false} NoSources(s: State, f: nat)
    requires WakeIsUnique(s.held, s.wake) && f !in s.wake
    ensures Sources(s, f) == {}
  {
    forall p | p in s.held && Target(s.held[p].work) == Some(f)
      ensures false
    {
      HeldIsWake(s, p);
    }
  }

  /**
   * But for a clash, a worker never switches to a fiber that runs, has ended, was never suspended or is still being
   * left; the branch that drops a terminated fiber is never taken; and the fiber given to a callback is fresh or
   * unused, with no wake source.
   */
  lemma {:induction false} SwitchesAreSafe(states: seq<State>, acts: seq<Action>, i: nat, w: nat)
    requires Run(states, acts) && i < |acts| && acts[i] == Start(w)
    ensures var s := states[i];
            match s.held[Hand(w)].work
            case Resume(f) =>
              f in s.fibers && (s.fibers[f].state.Hold? || s.fibers[f].state.Ready?) && !IsBeingLeft(s, f)
            case _ =>
              var g := CallbackFiber(s, w);
              (g in s.fibers ==> s.fibers[g].state == Init(w)) && Sources(s, g) == {}
  {
    hide Do, WakeIsUnique, WaitersWake, SwitchesAgree, KindsAgree, PlacesAgree, SerialsFresh, TasksAgree, CountsAgree,
      ProbesAgree, LeavingAgrees;
    var s := states[i];
    RunIsGood(states, acts, i);
    if s.held[Hand(w)].work.Resume? {
      HandIsWaiting(s, w);
    } else {
      CallbackFiberIsUnused(s, w);
      NoSources(s, CallbackFiber(s, w));
    }
  }

  /** Worker w's fiber f has yielded to HOLD in step j, and w is not past the switch before step i. */
  ghost predicate LeftSince(states: seq<State>, acts: seq<Action>, j: nat, i: nat, w: nat, f: nat)
    requires |states| == |acts| + 1
  {
    && j < i <= |acts| && acts[j] == YieldToHold(w) && JobOf(states[j], w).Busy? && JobOf(states[j], w).fiber == f
    && forall k: nat :: j < k < i ==> acts[k] != BackInRun(w)
  }

  lemma {:induction false} LeavingStep(s: State, a: Action, w: nat)
    requires Enabled(s, a)
    ensures JobOf(Do(s, a), w).Leaving? ==>
              if a == YieldToHold(w) then JobOf(s, w).Busy? && JobOf(s, w).fiber == JobOf(Do(s, a), w).fiber
              else JobOf(s, w) == JobOf(Do(s, a), w) && a != BackInRun(w)
    ensures JobOf(s, w).Leaving? && a != BackInRun(w) ==> JobOf(Do(s, a), w) == JobOf(s, w)
    ensures a == YieldToHold(w) ==> JobOf(s, w).Busy? && JobOf(Do(s, a), w).Leaving?
  {
    hide Do;
    if IsSwitch(a) {
      SwitchedWorker(s, a);
      SwitchLeaving(s, a);
    } else if IsIdle(a) {
      IdleEffect(s, a);
    } else {
      SameWorkers(s, a);
    }
  }

  lemma {:induction false} SwitchLeaving(s: State, a: Action)
    requires Enabled(s, a) && IsSwitch(a)
    ensures JobOf(s, a.w).Leaving? <==> a.BackInRun?
    ensures JobOf(Do(s, a), a.w).Leaving? <==> a.YieldToHold?
    ensures a.YieldToHold? ==> JobOf(s, a.w).Busy? && JobOf(Do(s, a), a.w).fiber == JobOf(s, a.w).fiber
  {
    hide Do;
    if IsYield(a) {
      YieldEffect(s, a);
      YieldWorkers(s, a);
    } else if a.BackInRun? {
      BackEffect(s, a.w);
    } else if a.Start? {
      StartedIsBusy(s, a.w);
    } else {
      MoveWorkers(s, a);
    }
  }

  lemma {:induction false} StartedIsBusy(s: State, w: nat)
    requires Enabled(s, Start(w))
    ensures !JobOf(Do(s, Start(w)), w).Leaving?
  {
  }

  lemma {:induction false} LeavingSince(states: seq<State>, acts: seq<Action>, i: nat, w: nat) returns (j: nat)
    requires Run(states, acts) && i < |states| && JobOf(states[i], w).Leaving?
    ensures LeftSince(states, acts, j, i, w, JobOf(states[i], w).fiber)
  {
    hide Do, Enabled, JobOf;
    NobodyLeavesAtFirst(states, acts, w);
    LeavingAt(states, acts, i - 1, w);
    if acts[i - 1] == YieldToHold(w) {
      j := i - 1;
    } else {
      j := LeavingSince(states, acts, i - 1, w);
    }
  }

  lemma {:induction false} NobodyLeavesAtFirst(states: seq<State>, acts: seq<Action>, w: nat)
    requires Run(states, acts)
    ensures !JobOf(states[0], w).Leaving?
  {
  }

  lemma {:induction false} LeavingAt(states: seq<State>, acts: seq<Action>, i: nat, w: nat)
    requires Run(states, acts) && i < |acts|
    ensures JobOf(states[i + 1], w).Leaving? ==>
              if acts[i] == YieldToHold(w)
              then JobOf(states[i], w).Busy? && JobOf(states[i], w).fiber == JobOf(states[i + 1], w).fiber
              else JobOf(states[i], w) == JobOf(states[i + 1], w) && acts[i] != BackInRun(w)
    ensures JobOf(states[i], w).Leaving? && acts[i] != BackInRun(w) ==> JobOf(states[i + 1], w) == JobOf(states[i], w)
    ensures acts[i] == YieldToHold(w) ==> JobOf(states[i], w).Busy? && JobOf(states[i + 1], w).Leaving?
  {
    hide Do, Enabled, JobOf;
    LeavingStep(states[i], acts[i], w);
  }

  lemma {:induction false} StillLeaving(states: seq<State>, acts: seq<Action>, j: nat, i: nat, w: nat, f: nat)
    requires Run(states, acts) && LeftSince(states, acts, j, i, w, f)
    ensures JobOf(states[i], w).Leaving? && JobOf(states[i], w).fiber == f
    decreases i
  {
    hide Do, Enabled, JobOf;
    LeavingAt(states, acts, i - 1, w);
    if j < i - 1 {
      StillLeaving(states, acts, j, i - 1, w, f);
    }
  }

  lemma {:induction false} ClashStep(s: State, a: Action)
    requires Enabled(s, a)
    ensures !s.clashed && (Do(s, a).clashed <==> a.Clash?)
  {
  }

  /** A clash, and nothing else, ends a run for good. */
  lemma {:induction false} ClashEndsRun(states: seq<State>, acts: seq<Action>, i: nat)
    requires Run(states, acts) && i < |states|
    ensures states[i].clashed <==> i > 0 && acts[i - 1].Clash?
    ensures states[i].clashed ==> i == |acts|
  {
    hide Enabled, Do;
    if i < |acts| {
      ClashStep(states[i], acts[i]);
    }
    if i > 0 {
      ClashStep(states[i - 1], acts[i - 1]);
    }
  }

  /**
   * A worker that has taken a suspended fiber switches to it too early if and only if the worker on which the fiber has
   * set its state to HOLD has not been through with it since.
   */
  lemma {:induction false} ClashesExactly(states: seq<State>, acts: seq<Action>, i: nat, v: nat, f: nat)
    requires Run(states, acts) && i < |states| && !states[i].clashed
    requires JobOf(states[i], v).Holding? && Hand(v) in states[i].held && states[i].held[Hand(v)].work == Resume(f)
    ensures Enabled(states[i], Clash(v)) <==> !Enabled(states[i], Start(v))
    ensures Enabled(states[i], Clash(v)) <==> exists w, j :: LeftSince(states, acts, j, i, w, f)
  {
    hide Do, LeftSince;
    if IsBeingLeft(states[i], f) {
      var w :| w in states[i].workers && states[i].workers[w].job.Leaving? && states[i].workers[w].job.fiber == f;
      var j := LeavingSince(states, acts, i, w);
      assert LeftSince(states, acts, j, i, w, f);
    }
    if w, j :| LeftSince(states, acts, j, i, w, f) {
      StillLeaving(states, acts, j, i, w, f);
      assert w in states[i].workers;
    }
  }

  lemma {:induction false} StaysAt(states: seq<State>, acts: seq<Action>, i: nat, n: nat)
    requires Run(states, acts) && i < |acts| && n in states[i].log.submitted
    ensures n in states[i + 1].log.submitted && states[i + 1].log.submitted[n] == states[i].log.submitted[n]
  {
    hide Do, Enabled, Inv, TasksAgree;
    RunIsGood(states, acts, i);
    SubmittedStays(states[i], acts[i], n);
  }

  lemma {:induction false} EntryAt(states: seq<State>, acts: seq<Action>, i: nat)
    requires Run(states, acts) && i < |acts| && IsSchedule(acts[i])
    ensures var n := states[i].next;
            n in states[i + 1].log.submitted && states[i + 1].log.submitted[n] == Scheduled(states[i], acts[i])
  {
    hide Do, Enabled, Scheduled;
    ScheduleIsOneMore(states[i], acts[i]);
  }

  /** The entry a step schedules stays what it was, through all stages. */
  lemma {:induction false} EntryStays(states: seq<State>, acts: seq<Action>, i: nat, k: nat)
    requires Run(states, acts) && i < k < |states| && IsSchedule(acts[i])
    ensures var n, s := states[i].next, states[k];
            n in s.log.submitted && s.log.submitted[n] == Scheduled(states[i], acts[i])
    decreases k
  {
    hide Do, Enabled, Good, Scheduled;
    if i + 1 < k {
      EntryStays(states, acts, i, k - 1);
      StaysAt(states, acts, k - 1, states[i].next);
    } else {
      EntryAt(states, acts, i);
    }
  }

  /** Where entry n is in each stage. */
  ghost predicate IsWhere(s: State, n: nat, item: Item) {
    match StageOf(s, n)
    case Unsubmitted => false
    case Queued => Queue(n) in s.held && s.held[Queue(n)] == item
    case Taken(w) => JobOf(s, w) == Holding(n) && Hand(w) in s.held && s.held[Hand(w)] == item
    case Active(w) => HasStarted(JobOf(s, w)) && JobOf(s, w).entry == n && JobOf(s, w).task == item
    case Finished(w) => true
  }

  lemma {:induction false} StageIsWhere(s: State, n: nat)
    requires Inv(s) && TasksAgree(s) && n in s.log.submitted
    ensures IsWhere(s, n, s.log.submitted[n])
    ensures n in s.log.entered && s.log.submitted[n].pin.Some? ==> s.log.entered[n] == s.log.submitted[n].pin.value
  {
    if n in s.log.entered && n !in s.log.finished {
      assert JobAgrees(s, s.log.entered[n], s.workers[s.log.entered[n]].job);
    }
  }

  /**
   * A task scheduled by step i is at every later point in the queue as it was, in the hands of the worker that took it,
   * run by that worker, or finished; and a pinned one is only ever taken by the worker it is pinned to.
   */
  lemma {:induction false} EnteredOnce(states: seq<State>, acts: seq<Action>, i: nat, k: nat)
    requires Run(states, acts) && i < k < |states| && IsSchedule(acts[i])
    ensures var n, item, s := states[i].next, Scheduled(states[i], acts[i]), states[k];
            IsWhere(s, n, item) && (n in s.log.entered && item.pin.Some? ==> s.log.entered[n] == item.pin.value)
  {
    EntryStays(states, acts, i, k);
    RunIsGood(states, acts, k);
    StageIsWhere(states[k], states[i].next);
  }

  function QueuedEntries(s: State): set<nat> {
    set n | n in s.log.submitted && Queue(n) in s.held
  }

  function TakenEntries(s: State): set<nat> {
    set w | w in s.workers && s.workers[w].job.Holding? :: s.workers[w].job.entry
  }

  function RunningEntries(s: State): set<nat> {
    set w | w in s.workers && HasStarted(s.workers[w].job) :: s.workers[w].job.entry
  }

  /** The stage of an entry says which of the four sets it is in. */
  lemma {:induction false} StageIsSet(s: State, n: nat)
    requires TasksAgree(s)
    ensures n in QueuedEntries(s) <==> StageOf(s, n) == Queued
    ensures n in TakenEntries(s) <==> StageOf(s, n).Taken?
    ensures n in RunningEntries(s) <==> StageOf(s, n).Active?
    ensures n in s.log.finished <==> StageOf(s, n).Finished?
    ensures n in s.log.submitted <==> !StageOf(s, n).Unsubmitted?
  {
    if n in TakenEntries(s) {
      var w :| w in s.workers && s.workers[w].job.Holding? && s.workers[w].job.entry == n;
      OwnStage(s, w);
    }
    if n in RunningEntries(s) {
      var w :| w in s.workers && HasStarted(s.workers[w].job) && s.workers[w].job.entry == n;
      OwnStage(s, w);
    }
    if StageOf(s, n).Taken? || StageOf(s, n).Active? {
      assert HasEntry(s.workers[s.log.entered[n]].job, n);
    }
  }

  predicate ShareEntry(a: Job, b: Job) {
    HasAny(a) && HasAny(b) && a.entry == b.entry
  }

  /** All submitted tasks are queued, taken, running or finished, none in two of these, and no two workers share one. */
  lemma {:induction false} TasksPartition(states: seq<State>, acts: seq<Action>, i: nat)
    requires Run(states, acts) && i < |states|
    ensures var s := states[i];
            && s.log.submitted.Keys == QueuedEntries(s) + TakenEntries(s) + RunningEntries(s) + s.log.finished
            && QueuedEntries(s) !! TakenEntries(s) !! RunningEntries(s) !! s.log.finished
            && forall v, w :: v in s.workers && w in s.workers && ShareEntry(s.workers[v].job, s.workers[w].job) ==>
                  v == w
  {
    var s := states[i];
    RunIsGood(states, acts, i);
    StagesCover(s);
    StagesAreDisjoint(s);
    forall v, w | v in s.workers && w in s.workers && ShareEntry(s.workers[v].job, s.workers[w].job)
      ensures v == w
    {
      EntryHasOneWorker(s, v, w);
    }
  }

  lemma {:induction false} StagesCover(s: State)
    requires TasksAgree(s)
    ensures s.log.submitted.Keys == QueuedEntries(s) + TakenEntries(s) + RunningEntries(s) + s.log.finished
  {
    var all := QueuedEntries(s) + TakenEntries(s) + RunningEntries(s) + s.log.finished;
    forall n: nat
      ensures n in s.log.submitted <==> n in all
    {
      StageIsSet(s, n);
    }
  }

  lemma {:induction false} StagesAreDisjoint(s: State)
    requires TasksAgree(s)
    ensures QueuedEntries(s) !! TakenEntries(s) !! RunningEntries(s) !! s.log.finished
  {
    forall n: nat
      ensures n in QueuedEntries(s) ==> n !in TakenEntries(s) && n !in RunningEntries(s) && n !in s.log.finished
      ensures n in TakenEntries(s) ==> n !in RunningEntries(s) && n !in s.log.finished
      ensures n in RunningEntries(s) ==> n !in s.log.finished
    {
      StageIsSet(s, n);
    }
  }

  lemma {:induction false} EntryHasOneWorker(s: State, v: nat, w: nat)
    requires TasksAgree(s) && v in s.workers && w in s.workers && ShareEntry(s.workers[v].job, s.workers[w].job)
    ensures v == w
  {
    OwnStage(s, v);
    OwnStage(s, w);
  }

  /** The worker that starts an entry is the one that took it, and what it runs is what was submitted. */
  lemma {:induction false} StartsItsEntry(states: seq<State>, acts: seq<Action>, i: nat, w: nat)
    requires Run(states, acts) && i < |acts| && acts[i] == Start(w)
    ensures var s, t := states[i], states[i + 1];
            var n := s.workers[w].job.entry;
            && n in s.log.entered && s.log.entered[n] == w && n in s.log.submitted
            && JobOf(t, w).Busy? && JobOf(t, w).entry == n && JobOf(t, w).task == s.log.submitted[n]
  {
    RunIsGood(states, acts, i);
    StartStarts(states[i], w);
    assert JobAgrees(states[i], w, states[i].workers[w].job);
  }

  /** No entry ever goes back a stage. */
  lemma {:induction false} StagesGrow(states: seq<State>, acts: seq<Action>, i: nat, k: nat, n: nat)
    requires Run(states, acts) && i <= k < |states|
    ensures Rank(StageOf(states[i], n)) <= Rank(StageOf(states[k], n))
    decreases k
  {
    if i < k {
      StagesGrow(states, acts, i, k - 1, n);
      StageGrowsAt(states, acts, k - 1, n);
    }
  }

  lemma {:induction false} StageGrowsAt(states: seq<State>, acts: seq<Action>, i: nat, n: nat)
    requires Run(states, acts) && i < |acts|
    ensures Rank(StageOf(states[i], n)) <= Rank(StageOf(states[i + 1], n))
  {
    RunIsGood(states, acts, i);
    StageGrows(states[i], acts[i], n);
  }

  lemma {:induction false} StartsAt(states: seq<State>, acts: seq<Action>, i: nat, w: nat)
    requires Run(states, acts) && i < |acts| && acts[i] == Start(w)
    ensures |states| == |acts| + 1 && w in states[i].workers && states[i].workers[w].job.Holding?
    ensures StageOf(states[i], states[i].workers[w].job.entry) == Taken(w)
    ensures StageOf(states[i + 1], states[i].workers[w].job.entry) == Active(w)
  {
    hide StageOf, Do, Inv, TasksAgree;
    RunIsGood(states, acts, i);
    OwnStage(states[i], w);
    StageSteps(states[i], acts[i], states[i].workers[w].job.entry);
  }

  /** No entry is started, and so none is entered, twice. */
  lemma {:induction false} StartedOnce(states: seq<State>, acts: seq<Action>, i: nat, k: nat, v: nat, w: nat)
    requires Run(states, acts) && i < k < |acts| && acts[i] == Start(v) && acts[k] == Start(w)
    ensures states[i].workers[v].job.entry != states[k].workers[w].job.entry
  {
    hide Run, StageOf, Do, Enabled;
    StartsAt(states, acts, i, v);
    StartsAt(states, acts, k, w);
    StagesGrow(states, acts, i + 1, k, states[i].workers[v].job.entry);
  }

  /** m_activeThreadCount is the number of workers with a task, m_pendingEventCount that of events not yet settled. */
  lemma {:induction false} CountersAreExact(states: seq<State>, acts: seq<Action>, i: nat)
    requires Run(states, acts) && i < |states|
    ensures states[i].active == |ActiveWorkers(states[i].workers)|
    ensures states[i].pending == |EventPlaces(states[i].held)| + |states[i].falling|
  {
    RunIsGood(states, acts, i);
  }

  /** Once all workers have left, every task is finished, or pinned to one of them and still queued. */
  lemma {:induction false} NothingLeftBehind(states: seq<State>, acts: seq<Action>, i: nat, n: nat)
    requires Run(states, acts) && i < |states| && AllLeft(states[i]) && n in states[i].log.submitted
    ensures states[i].stopped
    ensures StageOf(states[i], n).Finished?
            || (StageOf(states[i], n) == Queued && Queue(n) in states[i].held && states[i].held[Queue(n)].pin.Some?)
  {
    RunIsGood(states, acts, i);
    var w :| w in states[i].workers;
    assert states[i].workers[w].job.Left?;
    StageIsWhere(states[i], n);
  }

  ghost predicate BoundedBy(s: State, w: nat, bound: nat) {
    bound <= s.next && (JobOf(s, w).Idling? && !JobOf(s, w).probe.NoProbe? ==> JobOf(s, w).probe.bound >= bound)
  }

  lemma {:induction false} BoundStep(s: State, a: Action, w: nat, bound: nat)
    requires Enabled(s, a) && BoundedBy(s, w, bound)
    ensures BoundedBy(Do(s, a), w, bound)
  {
    hide Do;
    DoGrowsNext(s, a);
    if IsIdle(a) {
      IdleBoundStep(s, a, w, bound);
    } else {
      DoProbes(s, a);
    }
  }

  lemma {:induction false} IdleBoundStep(s: State, a: Action, w: nat, bound: nat)
    requires Enabled(s, a) && BoundedBy(s, w, bound) && IsIdle(a)
    ensures BoundedBy(Do(s, a), w, bound)
  {
  }

  lemma {:induction false} BoundAt(states: seq<State>, acts: seq<Action>, i: nat, w: nat, bound: nat)
    requires Run(states, acts) && i < |acts| && BoundedBy(states[i], w, bound)
    ensures BoundedBy(states[i + 1], w, bound)
  {
    hide Do, Enabled, BoundedBy;
    BoundStep(states[i], acts[i], w, bound);
  }

  lemma {:induction false} BoundBegins(states: seq<State>, acts: seq<Action>, i: nat, w: nat)
    requires Run(states, acts) && i < |acts| && acts[i] == ProbeTimers(w)
    ensures BoundedBy(states[i + 1], w, states[i].next)
  {
    LooksAtTimers(states[i], w);
  }

  lemma {:induction false} LooksAtTimers(s: State, w: nat)
    requires Enabled(s, ProbeTimers(w))
    ensures BoundedBy(Do(s, ProbeTimers(w)), w, s.next)
  {
  }

  /** From a look at the timers on, a call of stopping() only knows bounds from that look or later. */
  lemma {:induction false} BoundSince(states: seq<State>, acts: seq<Action>, j: nat, k: nat, w: nat)
    requires Run(states, acts) && j < k < |states| && acts[j] == ProbeTimers(w)
    ensures BoundedBy(states[k], w, states[j].next)
    decreases k
  {
    hide Do, Enabled, BoundedBy;
    if j + 1 < k {
      BoundSince(states, acts, j, k - 1, w);
      BoundAt(states, acts, k - 1, w, states[j].next);
    } else {
      BoundBegins(states, acts, j, w);
    }
  }

  /**
   * Work is never invisible to shutdown: when a call of stopping() that began with step j returns true at step k,
   * an event registered by step i before it is gone from every queue and hand, deleted or handled.
   */
  lemma {:induction false} ShutdownSeesEvents(states: seq<State>, acts: seq<Action>, i: nat, j: nat, k: nat, w: nat)
    requires Run(states, acts) && i < j < k < |acts|
    requires acts[i].AddEvent? || acts[i].AddEventCallback?
    requires acts[j] == ProbeTimers(w) && acts[k] == ProbeQueue(w)
    ensures !Outstanding(states[k], states[i].next)
  {
    hide Run, Do, Enabled, Good, BoundedBy, Outstanding;
    EnabledAt(states, acts, k);
    RunIsGood(states, acts, k);
    RegisteredBefore(states, acts, i, j, k, w);
    SeesEventsBefore(states[k], w, states[i].next);
  }

  lemma {:induction false} SeesEventsBefore(s: State, w: nat, r: nat)
    requires Good(s) && Enabled(s, ProbeQueue(w)) && BoundedBy(s, w, r + 1)
    ensures !Outstanding(s, r)
  {
    hide Inv, CountsAgree, ProbesAgree, TasksAgree, LeavingAgrees, Outstanding;
    StoppingSeesEvents(s, w, r);
  }

  lemma {:induction false} RegisteredBefore(states: seq<State>, acts: seq<Action>, i: nat, j: nat, k: nat, w: nat)
    requires Run(states, acts) && i < j < k < |acts|
    requires acts[i].AddEvent? || acts[i].AddEventCallback?
    requires acts[j] == ProbeTimers(w) && acts[k] == ProbeQueue(w)
    ensures BoundedBy(states[k], w, states[i].next + 1)
  {
    RegistrationCounts(states[i], acts[i]);
    NextGrows(states, acts, i + 1, j);
    BoundSince(states, acts, j, k, w);
  }

  lemma {:induction false} RegistrationCounts(s: State, a: Action)
    requires Enabled(s, a) && (a.AddEvent? || a.AddEventCallback?)
    ensures s.next < Do(s, a).next
  {
  }

  lemma {:induction false} NextStep(states: seq<State>, acts: seq<Action>, i: nat)
    requires Run(states, acts) && i < |acts|
    ensures states[i].next <= states[i + 1].next
  {
    DoGrowsNext(states[i], acts[i]);
  }

  lemma {:induction false} NextGrows(states: seq<State>, acts: seq<Action>, i: nat, j: nat)
    requires Run(states, acts) && i <= j < |states|
    ensures states[i].next <= states[j].next
  {
    forall k: nat | k < |acts|
      ensures states[k].next <= states[k + 1].next
    {
      NextStep(states, acts, k);
    }
    Chain(states, i, j);
  }

  lemma {:induction false} Chain(states: seq<State>, i: nat, j: nat)
    requires i <= j < |states| && forall k: nat :: k < |states| - 1 ==> states[k].next <= states[k + 1].next
    ensures states[i].next <= states[j].next
  {
    if i < j {
      Chain(states, i, j - 1);
      assert states[j - 1].next <= states[j - 1 + 1].next;
    }
  }

  // ---------------------------------------------------------------- handlers and timer callbacks

  /** Whatever comes from registration r is this item. */
  ghost predicate Carries(s: State, r: nat, item: Item) {
    && r < s.next
    && (forall p :: p in s.held && s.held[p].reg == Some(r) ==> s.held[p] == item)
    && (forall n :: n in s.log.submitted && s.log.submitted[n].reg == Some(r) ==> s.log.submitted[n] == item)
  }

  lemma {:induction false} KeepsCarried(s: State, a: Action, r: nat, item: Item)
    requires Enabled(s, a) && Carries(s, r, item)
    ensures Carries(Do(s, a), r, item)
  {
    DoGrowsNext(s, a);
    if IsMove(a) {
      MoveCarries(s, a, r, item);
    } else if IsYield(a) {
      YieldCarries(s, a, r, item);
    } else if a.Start? {
      StartCarries(s, a, r, item);
    } else {
      PostCarries(s, a, r, item);
    }
  }

  lemma {:induction false} MoveCarries(s: State, a: Action, r: nat, item: Item)
    requires Enabled(s, a) && Carries(s, r, item) && IsMove(a) && s.next <= Do(s, a).next
    ensures Carries(Do(s, a), r, item)
  {
    hide Do;
    MoveEffect(s, a);
    MoveLogs(s, a);
  }

  lemma {:induction false} MoveLogs(s: State, a: Action)
    requires Enabled(s, a) && IsMove(a)
    ensures Do(s, a).log.submitted == if To(s, a).Queue? then s.log.submitted[To(s, a).n := Moved(s, a)]
                                      else s.log.submitted
  {
  }

  lemma {:induction false} YieldCarries(s: State, a: Action, r: nat, item: Item)
    requires Enabled(s, a) && Carries(s, r, item) && IsYield(a) && s.next <= Do(s, a).next
    ensures Carries(Do(s, a), r, item)
  {
    hide Do;
    YieldEffect(s, a);
    YieldSubmitsNothing(s, a);
  }

  lemma {:induction false} YieldSubmitsNothing(s: State, a: Action)
    requires Enabled(s, a) && IsYield(a)
    ensures Do(s, a).log.submitted == s.log.submitted
  {
  }

  lemma {:induction false} StartCarries(s: State, a: Action, r: nat, item: Item)
    requires Enabled(s, a) && Carries(s, r, item) && a.Start? && s.next <= Do(s, a).next
    ensures Carries(Do(s, a), r, item)
  {
    hide Do;
    StartEffect(s, a.w);
    StartSubmitsNothing(s, a.w);
  }

  lemma {:induction false} StartSubmitsNothing(s: State, w: nat)
    requires Enabled(s, Start(w))
    ensures Do(s, Start(w)).log.submitted == s.log.submitted
  {
  }

  lemma {:induction false} PostCarries(s: State, a: Action, r: nat, item: Item)
    requires Enabled(s, a) && Carries(s, r, item) && !IsMove(a) && !IsYield(a) && !a.Start? && s.next <= Do(s, a).next
    ensures Carries(Do(s, a), r, item)
  {
    hide Do;
    PostLogs(s, a);
    PostHolds(s, a, r);
  }

  lemma {:induction false} PostLogs(s: State, a: Action)
    requires Enabled(s, a) && !IsMove(a) && !IsYield(a) && !a.Start?
    ensures Do(s, a).log.submitted == if a.Submit? then s.log.submitted[s.next := Item(Call(a.c), a.pin, None)]
                                      else s.log.submitted
  {
  }

  /** Only extracting a recurring timer's callback copies anything. */
  lemma {:induction false} PostHolds(s: State, a: Action, r: nat)
    requires Enabled(s, a) && !IsMove(a) && !IsYield(a) && !a.Start? && r < s.next
    ensures forall p :: p in Do(s, a).held && Do(s, a).held[p].reg == Some(r) ==>
              var q := if a.Recur? && p == Expired(a.w, s.next) then Timer(a.id) else p;
              q in s.held && Do(s, a).held[p] == s.held[q]
  {
  }

  /** What addEvent registers: the fiber that calls it, or a callback. */
  function HandlerOf(s: State, a: Action): Item
    requires (a.AddEvent? || a.AddEventCallback?) && Enabled(s, a)
  {
    Item(if a.AddEvent? then Resume(s.workers[a.w].job.fiber) else Call(a.c), None, Some(s.next))
  }

  /** No entry of the queue comes from a registration that is still to be made. */
  ghost predicate OlderEntries(s: State) {
    forall n :: n in s.log.submitted && s.log.submitted[n].reg.Some? ==> s.log.submitted[n].reg.value < s.next
  }

  lemma {:induction false} KeepsOlder(s: State, a: Action)
    requires KindsAgree(s) && OlderEntries(s) && Enabled(s, a)
    ensures OlderEntries(Do(s, a))
  {
    DoGrowsNext(s, a);
    if IsMove(a) {
      MoveKeepsOlder(s, a);
    } else if IsYield(a) {
      YieldSubmitsNothing(s, a);
    } else if a.Start? {
      StartSubmitsNothing(s, a.w);
    } else {
      PostKeepsOlder(s, a);
    }
  }

  lemma {:induction false} MoveKeepsOlder(s: State, a: Action)
    requires KindsAgree(s) && OlderEntries(s) && Enabled(s, a) && IsMove(a) && s.next <= Do(s, a).next
    ensures OlderEntries(Do(s, a))
  {
    hide Do;
    MoveEffect(s, a);
    MoveLogs(s, a);
    assert KindOk(s.next, From(s, a), s.held[From(s, a)]);
  }

  lemma {:induction false} PostKeepsOlder(s: State, a: Action)
    requires OlderEntries(s) && Enabled(s, a) && !IsMove(a) && !IsYield(a) && !a.Start? && s.next <= Do(s, a).next
    ensures OlderEntries(Do(s, a))
  {
  }

  lemma {:induction false} RunIsOlder(states: seq<State>, acts: seq<Action>, i: nat)
    requires Run(states, acts) && i < |states|
    ensures OlderEntries(states[i])
  {
    hide Do, Enabled, Inv;
    if i > 0 {
      RunIsOlder(states, acts, i - 1);
      RunIsGood(states, acts, i - 1);
      InvHasKinds(states[i - 1]);
      KeepsOlder(states[i - 1], acts[i - 1]);
    }
  }

  lemma InvHasKinds(s: State)
    requires Inv(s)
    ensures KindsAgree(s)
  {
  }

  lemma {:induction false} Registers(s: State, a: Action)
    requires KindsAgree(s) && OlderEntries(s) && (a.AddEvent? || a.AddEventCallback?) && Enabled(s, a)
    ensures var p := Event(a.fd, a.write); p in Do(s, a).held && Do(s, a).held[p] == HandlerOf(s, a)
    ensures Carries(Do(s, a), s.next, HandlerOf(s, a))
  {
    forall p | p in s.held
      ensures s.held[p].reg != Some(s.next)
    {
      assert KindOk(s.next, p, s.held[p]);
    }
  }

  lemma {:induction false} CarriedAt(states: seq<State>, acts: seq<Action>, i: nat, r: nat, item: Item)
    requires Run(states, acts) && i < |acts| && Carries(states[i], r, item)
    ensures Carries(states[i + 1], r, item)
  {
    hide Do, Enabled, Carries;
    KeepsCarried(states[i], acts[i], r, item);
  }

  /**
   * What addEvent has registered is registered there; and at every later point whatever carries this registration, in
   * the queue or anywhere else, is exactly that handler.
   */
  lemma {:induction false} HandlerStays(states: seq<State>, acts: seq<Action>, i: nat, k: nat)
    requires Run(states, acts) && i < k < |states| && (acts[i].AddEvent? || acts[i].AddEventCallback?)
    ensures Carries(states[k], states[i].next, HandlerOf(states[i], acts[i]))
    ensures Event(acts[i].fd, acts[i].write) in states[i + 1].held
    ensures states[i + 1].held[Event(acts[i].fd, acts[i].write)] == HandlerOf(states[i], acts[i])
    decreases k
  {
    hide Do, Enabled, Carries, HandlerOf, Inv;
    RunIsOlder(states, acts, i);
    RunIsGood(states, acts, i);
    InvHasKinds(states[i]);
    Registers(states[i], acts[i]);
    if i + 1 < k {
      HandlerStays(states, acts, i, k - 1);
      CarriedAt(states, acts, k - 1, states[i].next, HandlerOf(states[i], acts[i]));
    }
  }

  /** So an event that is triggered schedules what was registered for it. */
  lemma {:induction false} TriggersItsHandler(states: seq<State>, acts: seq<Action>, i: nat, k: nat)
    requires Run(states, acts) && i < k < |acts| && (acts[i].AddEvent? || acts[i].AddEventCallback?) && acts[k].Trigger?
    requires states[k].held[Event(acts[k].fd, acts[k].write)].reg == Some(states[i].next)
    ensures Scheduled(states[k], acts[k]) == HandlerOf(states[i], acts[i])
  {
    HandlerStays(states, acts, i, k);
  }

  /** Timer id exists, and if it is in the set, with this work. */
  ghost predicate TimerHas(s: State, id: nat, work: Work) {
    id < s.next && (Timer(id) in s.held ==> s.held[Timer(id)].work == work)
  }

  ghost predicate NoTimer(s: State, id: nat) {
    id < s.next && Timer(id) !in s.held
  }

  /** A timer in the set keeps its work, and one that has left the set does not come back. */
  lemma {:induction false} TimersStay(s: State, a: Action, id: nat, work: Work)
    requires Enabled(s, a) && id < s.next
    ensures id < Do(s, a).next
    ensures TimerHas(s, id, work) ==> TimerHas(Do(s, a), id, work)
    ensures NoTimer(s, id) ==> NoTimer(Do(s, a), id)
  {
    hide Do;
    DoGrowsNext(s, a);
    if IsMove(a) {
      MoveEffect(s, a);
    } else if IsYield(a) {
      YieldEffect(s, a);
    } else if a.Start? {
      StartEffect(s, a.w);
    } else {
      PostTimersStay(s, a, id);
    }
  }

  lemma {:induction false} PostTimersStay(s: State, a: Action, id: nat)
    requires Enabled(s, a) && id < s.next && !IsMove(a) && !IsYield(a) && !a.Start?
    ensures Timer(id) in Do(s, a).held ==> Timer(id) in s.held && Do(s, a).held[Timer(id)] == s.held[Timer(id)]
  {
  }

  lemma {:induction false} TimerAt(states: seq<State>, acts: seq<Action>, i: nat, k: nat, id: nat, work: Work)
    requires Run(states, acts) && i <= k < |states| && id < states[i].next
    ensures id < states[k].next
    ensures TimerHas(states[i], id, work) ==> TimerHas(states[k], id, work)
    ensures NoTimer(states[i], id) ==> NoTimer(states[k], id)
    decreases k
  {
    hide Do, Enabled;
    if i < k {
      TimerAt(states, acts, i, k - 1, id, work);
      TimersStay(states[k - 1], acts[k - 1], id, work);
    }
  }

  lemma {:induction false} SetsTimer(s: State, a: Action)
    requires (a.AddTimer? || a.Sleep?) && Enabled(s, a)
    ensures var work := if a.AddTimer? then Call(a.c) else Wake(s.workers[a.w].job.fiber);
            Timer(s.next) in Do(s, a).held && TimerHas(Do(s, a), s.next, work)
  {
  }

  lemma {:induction false} TakesTimer(s: State, a: Action)
    requires (a.Expire? || a.Recur? || a.CancelTimer?) && Enabled(s, a)
    ensures Timer(a.id) in s.held && (Timer(a.id) in Do(s, a).held <==> a.Recur?)
    ensures !a.CancelTimer? ==>
              var p := Expired(a.w, s.next); p in Do(s, a).held && Do(s, a).held[p] == s.held[Timer(a.id)]
  {
  }

  /**
   * A timer that was added, or a sleep: every time it expires its own callback is extracted, and it stays in the set if
   * and only if it recurs.
   */
  lemma {:induction false} ExpiresWithItsCallback(states: seq<State>, acts: seq<Action>, i: nat, k: nat)
    requires Run(states, acts) && i < k < |acts| && (acts[i].AddTimer? || acts[i].Sleep?)
    requires (acts[k].Expire? || acts[k].Recur?) && acts[k].id == states[i].next
    ensures var p, s := Expired(acts[k].w, states[k].next), states[i];
            && p in states[k + 1].held
            && states[k + 1].held[p].work == if acts[i].AddTimer? then Call(acts[i].c)
                                             else Wake(s.workers[acts[i].w].job.fiber)
    ensures Timer(acts[k].id) in states[k + 1].held <==> acts[k].Recur?
  {
    EnabledAt(states, acts, i);
    EnabledAt(states, acts, k);
    SetsTimer(states[i], acts[i]);
    var work := if acts[i].AddTimer? then Call(acts[i].c) else Wake(states[i].workers[acts[i].w].job.fiber);
    TimerAt(states, acts, i + 1, k, states[i].next, work);
    TakesTimer(states[k], acts[k]);
  }

  lemma {:induction false} LeavesTheSet(states: seq<State>, acts: seq<Action>, i: nat)
    requires Run(states, acts) && i < |acts| && (acts[i].CancelTimer? || acts[i].Expire?)
    ensures |states| == |acts| + 1 && NoTimer(states[i + 1], acts[i].id)
  {
    hide Do, Enabled;
    RunIsGood(states, acts, i);
    TakesTimer(states[i], acts[i]);
    assert KindOk(states[i].next, Timer(acts[i].id), states[i].held[Timer(acts[i].id)]);
    DoGrowsNext(states[i], acts[i]);
  }

  /** A cancelled timer, and one that has expired for good, never expires again. */
  lemma {:induction false} GoneForGood(states: seq<State>, acts: seq<Action>, i: nat, k: nat)
    requires Run(states, acts) && i < k < |acts| && (acts[i].CancelTimer? || acts[i].Expire?)
    requires acts[k].Expire? || acts[k].Recur? || acts[k].CancelTimer?
    ensures acts[k].id != acts[i].id
  {
    hide Do, Enabled, Run;
    LeavesTheSet(states, acts, i);
    EnabledAt(states, acts, k);
    TimerAt(states, acts, i + 1, k, acts[i].id, Call(0));
    TakesTimer(states[k], acts[k]);
  }

  // ---------------------------------------------------------------- leaving after stopping()

  /** Only a call of stopping() that returns true ends a worker's idle fiber, for good. */
  lemma {:induction false} EndedStep(s: State, a: Action, w: nat)
    requires Enabled(s, a)
    ensures w in s.workers <==> w in Do(s, a).workers
    ensures w in s.workers ==> (Do(s, a).workers[w].ended <==> s.workers[w].ended || a == ProbeQueue(w))
  {
    hide Do;
    if IsSwitch(a) {
      SwitchedWorker(s, a);
    } else if IsIdle(a) {
      IdleEffect(s, a);
      IdleEnds(s, a);
    } else {
      SameWorkers(s, a);
    }
  }

  lemma {:induction false} IdleEnds(s: State, a: Action)
    requires Enabled(s, a) && IsIdle(a) && a.w in Do(s, a).workers
    ensures Do(s, a).workers[a.w].ended <==> s.workers[a.w].ended || a.ProbeQueue?
    ensures s.workers[a.w].ended ==> !a.EnterIdle?
    ensures Do(s, a).workers[a.w].job.Idling? <==> a.EnterIdle? || a.ProbeTimers? || a.ProbePending?
    ensures Do(s, a).workers[a.w].job.Left? <==> a.Leave?
    ensures s.workers[a.w].job.Idling? <==> !a.EnterIdle? && !a.Leave?
  {
  }

  lemma {:induction false} EndedAt(states: seq<State>, acts: seq<Action>, i: nat, w: nat)
    requires Run(states, acts) && i < |acts|
    ensures w in states[i].workers <==> w in states[i + 1].workers
    ensures w in states[i].workers ==>
              (states[i + 1].workers[w].ended <==> states[i].workers[w].ended || acts[i] == ProbeQueue(w))
  {
    hide Do, Enabled;
    EndedStep(states[i], acts[i], w);
  }

  /** idle() has ended on a worker if and only if a call of stopping() has returned true there. */
  lemma {:induction false} EndedExactly(states: seq<State>, acts: seq<Action>, i: nat, w: nat)
    requires Run(states, acts) && i < |states| && w in states[i].workers
    ensures states[i].workers[w].ended <==> exists j: nat :: j < i && acts[j] == ProbeQueue(w)
  {
    hide Do, Enabled;
    if i > 0 {
      EndedAt(states, acts, i - 1, w);
      EndedExactly(states, acts, i - 1, w);
      assert acts[i - 1] == ProbeQueue(w) ==> exists j: nat :: j < i && acts[j] == ProbeQueue(w);
    }
  }

  ghost predicate EndedIsAwake(s: State, w: nat) {
    w in s.workers && s.workers[w].ended ==> !s.workers[w].job.Idling?
  }

  lemma {:induction false} KeepsAwake(s: State, a: Action, w: nat)
    requires Enabled(s, a) && EndedIsAwake(s, w)
    ensures EndedIsAwake(Do(s, a), w)
  {
    hide Do;
    EndedStep(s, a, w);
    if IsSwitch(a) {
      SwitchedWorker(s, a);
    } else if IsIdle(a) {
      IdleEffect(s, a);
      IdleEnds(s, a);
    } else {
      SameWorkers(s, a);
    }
  }

  lemma {:induction false} RunIsAwake(states: seq<State>, acts: seq<Action>, i: nat, w: nat)
    requires Run(states, acts) && i < |states|
    ensures EndedIsAwake(states[i], w)
  {
    hide Do, Enabled;
    if i > 0 {
      RunIsAwake(states, acts, i - 1, w);
      KeepsAwake(states[i - 1], acts[i - 1], w);
    }
  }

  /** From then on the worker never calls idle() again. */
  lemma {:induction false} EndedNeverIdles(states: seq<State>, acts: seq<Action>, i: nat, k: nat, w: nat)
    requires Run(states, acts) && i < k <= |acts| && acts[i] == ProbeQueue(w)
    ensures w in states[k].workers && states[k].workers[w].ended && !states[k].workers[w].job.Idling?
    ensures k < |acts| && IsIdle(acts[k]) && acts[k].w == w ==> acts[k].Leave?
  {
    EnabledAt(states, acts, i);
    WorkersStay(states, acts, i, k, w);
    EndedExactly(states, acts, k, w);
    RunIsAwake(states, acts, k, w);
    if k < |acts| && IsIdle(acts[k]) {
      EnabledAt(states, acts, k);
      IdleEffect(states[k], acts[k]);
      IdleEnds(states[k], acts[k]);
    }
  }

  lemma {:induction false} WorkersStay(states: seq<State>, acts: seq<Action>, i: nat, k: nat, w: nat)
    requires Run(states, acts) && i <= k < |states|
    ensures w in states[i].workers <==> w in states[k].workers
  {
    hide Do, Enabled;
    if i < k {
      WorkersStay(states, acts, i, k - 1, w);
      EndedAt(states, acts, k - 1, w);
    }
  }

  /** At the top of its loop it leaves run() as soon as there is no queued task it may take, and not before. */
  lemma {:induction false} LeavesIfNothingToTake(s: State, w: nat)
    requires w in s.workers && s.workers[w].ended && s.workers[w].job.Scanning? && !s.clashed
    ensures Enabled(s, Leave(w)) <==> forall n: nat :: !Enabled(s, Take(w, n))
  {
    if n: nat :| Runnable(s, w, n) {
      var m := FirstOf(s, w, n);
      assert Enabled(s, Take(w, m));
    }
  }

  lemma {:induction false} FirstOf(s: State, w: nat, n: nat) returns (m: nat)
    requires Runnable(s, w, n)
    ensures FirstRunnable(s, w, m)
    decreases n
  {
    if k: nat :| k < n && Runnable(s, w, k) {
      m := FirstOf(s, w, k);
    } else {
      m := n;
    }
  }

  /** And it has left exactly if it has taken that step. */
  lemma {:induction false} LeftExactly(states: seq<State>, acts: seq<Action>, i: nat, w: nat)
    requires Run(states, acts) && i < |states| && w in states[i].workers
    ensures states[i].workers[w].job.Left? <==> exists j: nat :: j < i && acts[j] == Leave(w)
  {
    hide Do, Enabled;
    if i > 0 {
      EndedAt(states, acts, i - 1, w);
      LeftExactly(states, acts, i - 1, w);
      LeftAt(states, acts, i - 1, w);
      assert acts[i - 1] == Leave(w) ==> exists j: nat :: j < i && acts[j] == Leave(w);
    }
  }

  lemma {:induction false} LeftAt(states: seq<State>, acts: seq<Action>, i: nat, w: nat)
    requires Run(states, acts) && i < |acts| && w in states[i].workers && w in states[i + 1].workers
    ensures states[i + 1].workers[w].job.Left? <==> states[i].workers[w].job.Left? || acts[i] == Leave(w)
  {
    hide Do, Enabled;
    LeftStep(states[i], acts[i], w);
  }

  lemma {:induction false} LeftStep(s: State, a: Action, w: nat)
    requires Enabled(s, a) && w in s.workers && w in Do(s, a).workers
    ensures Do(s, a).workers[w].job.Left? <==> s.workers[w].job.Left? || a == Leave(w)
  {
    hide Do;
    if IsSwitch(a) {
      SwitchedWorker(s, a);
      SwitcherHasNotLeft(s, a);
    } else if IsIdle(a) {
      IdleEffect(s, a);
      IdleEnds(s, a);
    } else {
      SameWorkers(s, a);
    }
  }

  lemma {:induction false} SwitcherHasNotLeft(s: State, a: Action)
    requires Enabled(s, a) && IsSwitch(a) && a.w in s.workers
    ensures !s.workers[a.w].job.Left?
  {
  }

  // ---------------------------------------------------------------- what stopping() misses

  ghost predicate Reached(s: State) {
    exists states, acts :: Run(states, acts) && states[|acts|] == s
  }

  lemma {:induction false} ReachStart(s: State)
    requires IsInit(s)
    ensures Reached(s)
  {
    assert Run([s], []);
  }

  lemma {:induction false} Reach(s: State, a: Action) returns (t: State)
    requires Reached(s) && Enabled(s, a)
    ensures t == Do(s, a) && Reached(t)
  {
    t := Do(s, a);
    var states, acts :| Run(states, acts) && states[|acts|] == s;
    assert Run(states + [t], acts + [a]);
  }

  lemma {:induction false} ReachProbe(s: State, w: nat) returns (t: State)
    requires Reached(s) && JobOf(s, w).Idling? && NoTimers(s) && !s.clashed
    ensures t == WithJob(s, w, Idling(SawNoTimer(s.next))) && Reached(t)
  {
    hide Reached;
    t := Reach(s, ProbeTimers(w));
  }

  /** A worker with nothing to do goes idle. */
  lemma {:induction false} ReachIdle(s: State, w: nat) returns (t: State)
    requires Reached(s) && JobOf(s, w).Scanning? && !s.workers[w].ended && QueueEmpty(s) && !s.clashed
    ensures t == WithJob(s, w, Idling(NoProbe)) && Reached(t)
  {
    hide Reached;
    t := Reach(s, EnterIdle(w));
  }

  const NEW_WORKER: Worker := Worker(Scanning, None, false)
  const SEVEN: Item := Item(Call(7), None, None)
  const NINE: Item := Item(Call(9), None, None)

  /** A state of two workers with the given jobs and no events, that has got one task, number 0. */
  function TwoWorkers(first: Worker, second: Job, held: map<Place, Item>, fibers: map<nat, Fiber>, next: nat,
                      finished: set<nat>, stopped: bool): State {
    State(fibers, held, map[0 := first, 1 := NEW_WORKER.(job := second)], One(HasAny(first.job)), 0, {}, stopped, false,
          next, map[], {}, Log(map[0 := SEVEN], if Queue(0) in held then map[] else map[0 := 0], finished))
  }

  lemma {:induction false} TaskQueued() returns (s: State)
    ensures Reached(s) && s == TwoWorkers(NEW_WORKER, Scanning, map[Queue(0) := SEVEN], map[], 1, {}, false)
  {
    hide Reached;
    s := State(map[], map[], map[0 := NEW_WORKER, 1 := NEW_WORKER], 0, 0, {}, false, false, 0, map[], {},
               Log(map[], map[], {}));
    assert 0 in s.workers;
    ReachStart(s);
    s := Reach(s, Submit(None, 7, None));
  }

  lemma {:induction false} TaskTaken() returns (s: State)
    ensures Reached(s)
    ensures s == TwoWorkers(Worker(Holding(0), None, false), Scanning, map[Hand(0) := SEVEN], map[], 2, {}, false)
  {
    hide Reached;
    s := TaskQueued();
    s := Reach(s, Take(0, 0));
    assert s.held == map[Hand(0) := SEVEN];
  }

  lemma {:induction false} TaskStarted() returns (s: State)
    ensures Reached(s)
    ensures s == TwoWorkers(Worker(Busy(2, SEVEN, 0), Some(2), false), Scanning, map[],
                            map[2 := Fiber(Exec(0), false)], 3, {}, false)
  {
    hide Reached;
    s := TaskTaken();
    s := Reach(s, Start(0));
    assert s.held == map[];
  }

  lemma {:induction false} TimerSet() returns (s: State)
    ensures Reached(s)
    ensures s == TwoWorkers(Worker(Busy(2, SEVEN, 0), Some(2), false), Scanning, map[Timer(3) := NINE],
                            map[2 := Fiber(Exec(0), false)], 4, {}, false)
  {
    hide Reached;
    s := TaskStarted();
    s := Reach(s, AddTimer(0, 9));
  }

  lemma {:induction false} FirstDone() returns (s: State)
    ensures Reached(s)
    ensures s == TwoWorkers(Worker(Scanning, Some(2), false), Scanning, map[Timer(3) := NINE],
                            map[2 := Fiber(Init(0), false)], 4, {0}, false)
  {
    hide Reached;
    s := TimerSet();
    s := Reach(s, Finish(0));
  }

  lemma {:induction false} QuietAfterStop() returns (s: State)
    ensures Reached(s)
    ensures s == TwoWorkers(Worker(Scanning, Some(2), false), Scanning, map[Timer(3) := NINE],
                            map[2 := Fiber(Init(0), false)], 4, {0}, true)
  {
    hide Reached;
    s := FirstDone();
    s := Reach(s, Stop);
  }

  lemma {:induction false} SecondIdles() returns (s: State)
    ensures Reached(s)
    ensures s == TwoWorkers(Worker(Scanning, Some(2), false), Idling(NoProbe), map[Timer(3) := NINE],
                            map[2 := Fiber(Init(0), false)], 4, {0}, true)
  {
    hide Reached;
    s := QuietAfterStop();
    s := ReachIdle(s, 1);
  }

  lemma {:induction false} BothIdle() returns (s: State)
    ensures Reached(s)
    ensures s == TwoWorkers(Worker(Idling(NoProbe), Some(2), false), Idling(NoProbe), map[Timer(3) := NINE],
                            map[2 := Fiber(Init(0), false)], 4, {0}, true)
  {
    hide Reached;
    s := SecondIdles();
    s := ReachIdle(s, 0);
  }

  lemma {:induction false} TimerTaken() returns (s: State)
    ensures Reached(s)
    ensures s == TwoWorkers(Worker(Idling(NoProbe), Some(2), false), Idling(NoProbe), map[Expired(1, 4) := NINE],
                            map[2 := Fiber(Init(0), false)], 5, {0}, true)
  {
    hide Reached;
    s := BothIdle();
    s := Reach(s, Expire(1, 3));
    assert s.held == map[Expired(1, 4) := NINE];
  }

  lemma {:induction false} NoTimerSeen() returns (s: State)
    ensures Reached(s)
    ensures s == TwoWorkers(Worker(Idling(SawNoTimer(5)), Some(2), false), Idling(NoProbe), map[Expired(1, 4) := NINE],
                            map[2 := Fiber(Init(0), false)], 5, {0}, true)
  {
    hide Reached;
    s := TimerTaken();
    s := ReachProbe(s, 0);
  }

  lemma {:induction false} ReachPending(s: State, w: nat) returns (t: State)
    requires Reached(s) && JobOf(s, w).Idling? && s.workers[w].job.probe.SawNoTimer? && s.pending == 0 && !s.clashed
    ensures t == WithJob(s, w, Idling(SawNoPending(s.workers[w].job.probe.bound))) && Reached(t)
  {
    hide Reached;
    t := Reach(s, ProbePending(w));
  }

  lemma {:induction false} NothingSeen() returns (s: State)
    ensures Reached(s)
    ensures s == TwoWorkers(Worker(Idling(SawNoPending(5)), Some(2), false), Idling(NoProbe),
                            map[Expired(1, 4) := NINE], map[2 := Fiber(Init(0), false)], 5, {0}, true)
  {
    hide Reached;
    s := NoTimerSeen();
    s := ReachPending(s, 0);
  }

  /**
   * stopping() does miss a due timer: another idle worker has just taken its callback out of the set, so
   * there are no timers, no events, no tasks and no active workers.
   */
  lemma {:induction false} StoppingMissesTimer() returns (s: State)
    ensures Reached(s) && Enabled(s, ProbeQueue(0))
    ensures Expired(1, 4) in s.held && s.held[Expired(1, 4)].work == Call(9)
  {
    hide Reached;
    s := NothingSeen();
  }

  lemma {:induction false} OtherIdles() returns (s: State)
    ensures Reached(s)
    ensures s == TwoWorkers(Worker(Busy(2, SEVEN, 0), Some(2), false), Idling(NoProbe), map[],
                            map[2 := Fiber(Exec(0), false)], 3, {}, true)
  {
    hide Reached;
    s := TaskStarted();
    s := Reach(s, Stop);
    s := ReachIdle(s, 1);
  }

  lemma {:induction false} OtherSeesNothing() returns (s: State)
    ensures Reached(s)
    ensures s == TwoWorkers(Worker(Busy(2, SEVEN, 0), Some(2), false), Idling(SawNoPending(3)), map[],
                            map[2 := Fiber(Exec(0), false)], 3, {}, true)
  {
    hide Reached;
    s := OtherIdles();
    s := ReachProbe(s, 1);
    s := ReachPending(s, 1);
  }

  lemma {:induction false} ReadyAndReturning() returns (s: State)
    ensures Reached(s) && s.active == 0 && s.pending == 0 && s.stopped && !s.clashed
    ensures s.held == map[Returned(0) := Item(Resume(2), None, None)] && s.fibers == map[2 := Fiber(Ready, false)]
    ensures JobOf(s, 1) == Idling(SawNoPending(3))
  {
    hide Reached;
    s := OtherSeesNothing();
    s := Reach(s, YieldToReady(0));
  }

  /**
   * It also misses a fiber that has yielded to READY, while its worker is between counting itself out and schedule().
   */
  lemma {:induction false} StoppingMissesReady() returns (s: State)
    ensures Reached(s) && Enabled(s, ProbeQueue(1))
    ensures Returned(0) in s.held && s.held[Returned(0)].work == Resume(2) && 2 in s.fibers
    ensures s.fibers[2].state == Ready
  {
    hide Reached;
    s := ReadyAndReturning();
  }

  // ---------------------------------------------------------------- a fiber that is not left yet

  lemma {:induction false} Registered() returns (s: State)
    ensures Reached(s) && !s.stopped && !s.clashed && s.next == 4
    ensures s.held == map[Event(5, false) := Item(Resume(2), None, Some(3))]
    ensures s.fibers == map[2 := Fiber(Exec(0), true)]
    ensures s.workers == map[0 := Worker(Busy(2, SEVEN, 0), Some(2), false), 1 := NEW_WORKER]
  {
    hide Reached;
    s := TaskStarted();
    s := Reach(s, AddEvent(0, 5, false));
  }

  lemma {:induction false} InHold() returns (s: State)
    ensures Reached(s) && !s.stopped && !s.clashed && s.next == 4
    ensures s.held == map[Event(5, false) := Item(Resume(2), None, Some(3))] && s.fibers == map[2 := Fiber(Hold, false)]
    ensures s.workers == map[0 := Worker(Leaving(2, SEVEN, 0), None, false), 1 := NEW_WORKER]
  {
    hide Reached;
    s := Registered();
    s := Reach(s, YieldToHold(0));
  }

  lemma {:induction false} Triggered() returns (s: State)
    ensures Reached(s) && !s.clashed && s.next == 5
    ensures s.held == map[Queue(4) := Item(Resume(2), None, Some(3))] && s.fibers == map[2 := Fiber(Hold, false)]
    ensures s.workers == map[0 := Worker(Leaving(2, SEVEN, 0), None, false), 1 := NEW_WORKER]
  {
    hide Reached;
    s := InHold();
    s := Reach(s, Trigger(None, 5, false));
    assert s.held == map[Queue(4) := Item(Resume(2), None, Some(3))];
  }

  lemma {:induction false} TakenTooEarly() returns (s: State)
    ensures Reached(s) && !s.clashed
    ensures s.held == map[Hand(1) := Item(Resume(2), None, Some(3))]
    ensures s.workers == map[0 := Worker(Leaving(2, SEVEN, 0), None, false), 1 := NEW_WORKER.(job := Holding(4))]
  {
    hide Reached;
    s := Triggered();
    s := Reach(s, Take(1, 4));
    assert s.held == map[Hand(1) := Item(Resume(2), None, Some(3))];
  }

  /**
   * A fiber registers for an event and sets its state to HOLD; the event is triggered and another worker takes the
   * fiber out of the queue, all before swapcontext: it switches to a context that is not saved yet.
   */
  lemma {:induction false} FiberStartsTooEarly() returns (s: State)
    ensures Reached(s) && Enabled(s, Clash(1))
    ensures s.held == map[Hand(1) := Item(Resume(2), None, Some(3))] && JobOf(s, 0) == Leaving(2, SEVEN, 0)
  {
    hide Reached;
    s := TakenTooEarly();
    assert 0 in s.workers && s.workers[0].job.Leaving?;
  }

  // ---------------------------------------------------------------- a worker that leaves

  /** One worker that has got one task, number 0, in fiber 2, after stop(). */
  function OneWorker(job: Job, ended: bool): State {
    State(map[2 := Fiber(Init(0), false)], map[], map[0 := Worker(job, Some(2), ended)], 0, 0, {}, true, false, 3,
          map[], {}, Log(map[0 := SEVEN], map[0 := 0], {0}))
  }

  lemma {:induction false} OneTaskTaken() returns (s: State)
    ensures Reached(s) && s.workers == map[0 := Worker(Holding(0), None, false)] && s.held == map[Hand(0) := SEVEN]
    ensures s.fibers == map[] && s.active == 1 && s.pending == 0 && s.falling == {} && !s.stopped && !s.clashed
    ensures s.next == 2 && s.wake == map[] && s.abandoned == {} && s.log == Log(map[0 := SEVEN], map[0 := 0], {})
  {
    hide Reached;
    s := State(map[], map[], map[0 := NEW_WORKER], 0, 0, {}, false, false, 0, map[], {}, Log(map[], map[], {}));
    assert 0 in s.workers;
    ReachStart(s);
    s := Reach(s, Submit(None, 7, None));
    s := Reach(s, Take(0, 0));
    assert s.held == map[Hand(0) := SEVEN];
  }

  lemma {:induction false} OneTaskRuns() returns (s: State)
    ensures Reached(s) && s.workers == map[0 := Worker(Busy(2, SEVEN, 0), Some(2), false)] && s.held == map[]
    ensures s.fibers == map[2 := Fiber(Exec(0), false)] && s.active == 1 && s.pending == 0 && s.falling == {}
    ensures !s.stopped && !s.clashed && s.next == 3 && s.wake == map[] && s.abandoned == {}
    ensures s.log == Log(map[0 := SEVEN], map[0 := 0], {})
  {
    hide Reached;
    s := OneTaskTaken();
    s := Reach(s, Start(0));
    assert s.held == map[];
  }

  lemma {:induction false} OneTaskDone() returns (s: State)
    ensures Reached(s) && s == OneWorker(Scanning, false)
  {
    hide Reached;
    s := OneTaskRuns();
    s := Reach(s, Finish(0));
    s := Reach(s, Stop);
  }

  lemma {:induction false} OneIsIdle() returns (s: State)
    ensures Reached(s) && s == OneWorker(Idling(SawNoPending(3)), false)
  {
    hide Reached;
    s := OneTaskDone();
    s := ReachIdle(s, 0);
    s := ReachProbe(s, 0);
    s := ReachPending(s, 0);
  }

  lemma {:induction false} OneIsEnded() returns (s: State)
    ensures Reached(s) && s == OneWorker(Scanning, true)
  {
    hide Reached;
    s := OneIsIdle();
    s := Reach(s, ProbeQueue(0));
  }

  /** All workers do leave: one that has run its task, after stop(). */
  lemma {:induction false} AllDoLeave() returns (s: State)
    ensures Reached(s) && AllLeft(s) && s.workers.Keys == {0} && s.log.finished == s.log.submitted.Keys == {0}
  {
    hide Reached;
    s := OneIsEnded();
    s := Reach(s, Leave(0));
  }
}
