/**
 * No wake-up is ever lost: in whatever state a run is, it can be continued so that a worker switches to a given fiber
 * that waits. The steps that lead there only do what is still to be done, and each of them leaves less.
 */
module Progress {
  import opened Options
  import opened Reactor
  import opened ReactorRuns
  import opened WakeTokens

  // ---------------------------------------------------------------- what is still to be done

  /** How many places the work at p has to pass before its fiber is switched to. */
  function Rank(p: Place, work: Work): nat {
    match p
    case Timer(_) => 6
    case Expired(_, _) => 5
    case Queue(_) => if work.Wake? then 4 else 1
    case Hand(_) => if work.Wake? then 3 else 0
    case _ => 2
  }

  function RankOf(s: State, f: nat): nat {
    if f in s.wake && s.wake[f] in s.held then Rank(s.wake[f], s.held[s.wake[f]].work) else 0
  }

  function Places(held: map<Place, Item>, kind: (Place, Item) -> bool): set<Place> {
    set p | p in held && kind(p, held[p])
  }

  predicate IsSleep(p: Place, item: Item) {
    item.work.Wake?
  }

  predicate IsBacklog(p: Place, item: Item) {
    p.Queue? || p.Returned? || p.Expired?
  }

  predicate IsExpired(p: Place, item: Item) {
    p.Expired?
  }

  function Armed(fibers: map<nat, Fiber>): set<nat> {
    set f | f in fibers && fibers[f].armed
  }

  function Leavers(workers: map<nat, Worker>): set<nat> {
    set w | w in workers && workers[w].job.Leaving?
  }

  /** Whether it takes a worker in idle() to move the work at p on. */
  predicate NeedsIdle(p: Place) {
    p.Timer? || p.Event?
  }

  /** How far a worker is from the top of run(), or from idle(). */
  function Phase(job: Job, idle: bool): nat {
    match job
    case Holding(_) => 5
    case Busy(_, _, _) => 4
    case Leaving(_, _, _) => 3
    case Returning => 3
    case Scanning => if idle then 2 else 1
    case Idling(_) => if idle then 1 else 2
    case Left => 0
  }

  function PhaseOf(s: State, w: nat, f: nat): nat {
    Phase(JobOf(s, w), f in s.wake && NeedsIdle(s.wake[f]))
  }

  /** t is closer than s to a switch to f, which worker w works on. */
  predicate Closer(t: State, s: State, w: nat, f: nat) {
    RankOf(t, f) < RankOf(s, f) || (RankOf(t, f) == RankOf(s, f) && LessToDo(t, s, w, f))
  }

  predicate LessToDo(t: State, s: State, w: nat, f: nat) {
    var a, b := |Places(t.held, IsSleep)|, |Places(s.held, IsSleep)|;
    a < b || (a == b && ShorterQueue(t, s, w, f))
  }

  predicate ShorterQueue(t: State, s: State, w: nat, f: nat) {
    var a, b := |Places(t.held, IsBacklog)|, |Places(s.held, IsBacklog)|;
    a < b || (a == b && FewerArmed(t, s, w, f))
  }

  predicate FewerArmed(t: State, s: State, w: nat, f: nat) {
    var a, b := |Armed(t.fibers)|, |Armed(s.fibers)|;
    a < b || (a == b && FewerExpired(t, s, w, f))
  }

  predicate FewerExpired(t: State, s: State, w: nat, f: nat) {
    var a, b := |Places(t.held, IsExpired)|, |Places(s.held, IsExpired)|;
    a < b || (a == b && Nearer(t, s, w, f))
  }

  predicate Nearer(t: State, s: State, w: nat, f: nat) {
    PhaseOf(t, w, f) < PhaseOf(s, w, f)
    || (PhaseOf(t, w, f) == PhaseOf(s, w, f) && |Leavers(t.workers)| < |Leavers(s.workers)|)
  }

  /** Worker w will go on taking tasks. */
  predicate Alive(s: State, w: nat) {
    w in s.workers && !s.workers[w].job.Left? && !s.workers[w].ended
  }

  /** Fiber f waits for its wake source, and worker w can help. */
  ghost predicate Ready(s: State, w: nat, f: nat) {
    Inv(s) && !s.clashed && f in s.wake && Alive(s, w)
  }

  // ---------------------------------------------------------------- counting

  lemma {:induction false} PlacesMove(held: map<Place, Item>, p: Place, q: Place, item: Item,
                                      kind: (Place, Item) -> bool)
    requires p in held && q !in held
    ensures |Places((held - {p})[q := item], kind)|
         == |Places(held, kind)| - One(kind(p, held[p])) + One(kind(q, item))
  {
    var held' := (held - {p})[q := item];
    var rest := Places(held, kind) - {p};
    assert Places(held, kind) == if kind(p, held[p]) then rest + {p} else rest;
    assert Places(held', kind) == if kind(q, item) then rest + {q} else rest;
  }

  lemma {:induction false} PlacesRemove(held: map<Place, Item>, p: Place, kind: (Place, Item) -> bool)
    requires p in held
    ensures |Places(held - {p}, kind)| == |Places(held, kind)| - One(kind(p, held[p]))
  {
    var rest := Places(held, kind) - {p};
    assert Places(held, kind) == if kind(p, held[p]) then rest + {p} else rest;
    assert Places(held - {p}, kind) == rest;
  }

  lemma {:induction false} ArmedUpdate(fibers: map<nat, Fiber>, f: nat, fiber: Fiber)
    requires !fiber.armed
    ensures |Armed(fibers[f := fiber])| == |Armed(fibers)| - One(f in fibers && fibers[f].armed)
  {
    var rest := Armed(fibers) - {f};
    assert Armed(fibers) == if f in fibers && fibers[f].armed then rest + {f} else rest;
    assert Armed(fibers[f := fiber]) == rest;
  }

  lemma {:induction false} FewerLeavers(workers: map<nat, Worker>, w: nat, worker: Worker)
    requires w in workers && workers[w].job.Leaving? && !worker.job.Leaving?
    ensures |Leavers(workers[w := worker])| < |Leavers(workers)|
  {
    assert Leavers(workers[w := worker]) == Leavers(workers) - {w};
    assert w in Leavers(workers);
    assert Leavers(workers) == (Leavers(workers) - {w}) + {w};
  }

  // ---------------------------------------------------------------- what a step leaves alone

  lemma {:induction false} StaysAlive(s: State, a: Action, w: nat)
    requires Enabled(s, a) && Alive(s, w) && !a.Leave? && !a.ProbeQueue?
    ensures Alive(Do(s, a), w)
  {
    hide Do, Enabled;
    EndedStep(s, a, w);
    LeftStep(s, a, w);
  }

  /** f still waits where it did. */
  predicate SameSource(t: State, s: State, f: nat) {
    && f in s.wake && f in t.wake && t.wake[f] == s.wake[f]
    && s.wake[f] in s.held && s.wake[f] in t.held && t.held[s.wake[f]] == s.held[s.wake[f]]
  }

  lemma SourceIsHeld(s: State, f: nat)
    requires WakeIsUnique(s.held, s.wake) && f in s.wake
    ensures s.wake[f] in s.held && Target(s.held[s.wake[f]].work) == Some(f)
  {
    assert TargetAt(s.held, s.wake[f]) == Some(f);
  }

  lemma {:induction false} StillReady(s: State, a: Action, w: nat, f: nat)
    requires Ready(s, w, f) && Enabled(s, a) && !a.Leave? && !a.ProbeQueue? && !a.Clash? && f in Do(s, a).wake
    ensures Ready(Do(s, a), w, f)
  {
    hide Do, Enabled, Inv, Alive;
    KeepsInv(s, a);
    StaysAlive(s, a, w);
    ClashStep(s, a);
  }

  // ---------------------------------------------------------------- steps that bring f itself on

  lemma {:induction false} RankFalls(s: State, a: Action)
    requires KindsAgree(s) && Enabled(s, a) && IsMove(a) && From(s, a) in s.held
    requires !s.held[From(s, a)].work.Call?
    ensures Rank(To(s, a), Moved(s, a).work) < Rank(From(s, a), s.held[From(s, a)].work)
  {
    hide KindsAgree, Do;
    assert KindOk(s.next, From(s, a), s.held[From(s, a)]) by { AnyKind(s, From(s, a)); }
  }

  lemma AnyKind(s: State, p: Place)
    requires KindsAgree(s) && p in s.held
    ensures KindOk(s.next, p, s.held[p])
  {
  }

  /** Its own work moves to the next place. */
  lemma {:induction false} MovesOn(s: State, a: Action, w: nat, f: nat)
    requires Ready(s, w, f) && Enabled(s, a) && IsMove(a) && From(s, a) == s.wake[f]
    ensures Ready(Do(s, a), w, f) && Closer(Do(s, a), s, w, f)
  {
    hide Do, KindsAgree, SwitchesAgree, WaitersWake, PlacesAgree, SerialsFresh, WakeIsUnique, Rank;
    SourceIsHeld(s, f);
    MoveEffect(s, a);
    RankFalls(s, a);
    MoveGoesToFree(s, a);
    StillReady(s, a, w, f);
  }

  /** Its timer's callback is switched to. */
  lemma {:induction false} SleeperStarts(s: State, v: nat, w: nat, f: nat)
    requires Ready(s, w, f) && Enabled(s, Start(v)) && s.wake[f] == Hand(v) && s.held[Hand(v)].work == Wake(f)
    ensures Ready(Do(s, Start(v)), w, f) && Closer(Do(s, Start(v)), s, w, f)
  {
    hide Inv;
    StillReady(s, Start(v), w, f);
  }

  // ---------------------------------------------------------------- steps that clear the way

  lemma {:induction false} MovePlaces(s: State, a: Action, kind: (Place, Item) -> bool)
    requires Inv(s) && Enabled(s, a) && IsMove(a)
    ensures From(s, a) in s.held
    ensures |Places(Do(s, a).held, kind)|
         == |Places(s.held, kind)| - One(kind(From(s, a), s.held[From(s, a)])) + One(kind(To(s, a), Moved(s, a)))
  {
    hide Do, WakeIsUnique, WaitersWake, SwitchesAgree, KindsAgree, PlacesAgree, SerialsFresh, Places;
    MoveEffect(s, a);
    MoveGoesToFree(s, a);
    PlacesMove(s.held, From(s, a), To(s, a), Moved(s, a), kind);
  }

  /** Work for others, or for nobody, moves on: what f waits for stays where it is. */
  lemma {:induction false} MoveKeepsSource(s: State, a: Action, w: nat, f: nat)
    requires Ready(s, w, f) && Enabled(s, a) && IsMove(a) && From(s, a) != s.wake[f]
    ensures Ready(Do(s, a), w, f) && SameSource(Do(s, a), s, f)
  {
    hide Do, SwitchesAgree, WaitersWake, KindsAgree, PlacesAgree, SerialsFresh;
    SourceIsHeld(s, f);
    MoveEffect(s, a);
    MoveGoesToFree(s, a);
    if Target(s.held[From(s, a)].work).Some? {
      HeldIsWake(s, From(s, a));
    }
    StillReady(s, a, w, f);
  }

  lemma {:induction false} OthersMoveOn(s: State, a: Action, w: nat, f: nat)
    requires Ready(s, w, f) && Enabled(s, a) && IsMove(a) && From(s, a) != s.wake[f]
    requires a.Take? || a.RunWake? || ((a.Flush? || a.Requeue?) && a.w == w)
    ensures Ready(Do(s, a), w, f) && Closer(Do(s, a), s, w, f)
  {
    hide Do, Inv, Places, Armed;
    MoveKeepsSource(s, a, w, f);
    MovePlaces(s, a, IsSleep);
    MovePlaces(s, a, IsBacklog);
    MovePlaces(s, a, IsExpired);
    MoveWorkers(s, a);
    MoveEffect(s, a);
    if a.RunWake? || a.Requeue? {
      MovedKind(s, a);
    }
  }

  /** A callback of a sleep runs once, and what has been back from a fiber was in no timer. */
  lemma {:induction false} MovedKind(s: State, a: Action)
    requires Inv(s) && Enabled(s, a) && (a.RunWake? || a.Requeue?)
    ensures From(s, a) in s.held && (s.held[From(s, a)].work.Wake? <==> a.RunWake?) && !Moved(s, a).work.Wake?
  {
    assert KindOk(s.next, From(s, a), s.held[From(s, a)]);
  }

  /** What the switch to a task changes, whichever kind it is. */
  lemma {:induction false} StartEffects(s: State, w: nat)
    requires Inv(s) && Enabled(s, Start(w))
    ensures var t, item, g := Do(s, Start(w)), s.held[Hand(w)], Switched(s, w);
            && t.fibers == s.fibers[g := Fiber(Exec(w), false)]
            && w in t.workers && t.workers[w].job.Busy?
            && t.wake == (if item.work.Resume? then s.wake - {g}
                          else if item.work.Wake? then s.wake[item.work.fiber := Running(g)] else s.wake)
            && Running(g) !in s.held
            && t.held == if item.work.Wake? then (s.held - {Hand(w)})[Running(g) := item] else s.held - {Hand(w)}
  {
    hide WakeIsUnique, WaitersWake;
    if s.held[Hand(w)].work.Resume? {
      HandIsWaiting(s, w);
      NoRunningCallback(s, s.held[Hand(w)].work.fiber);
    } else {
      CallbackFiberIsUnused(s, w);
    }
  }

  /** The fiber that worker w switches to for what it holds. */
  function Switched(s: State, w: nat): nat
    requires w in s.workers && Hand(w) in s.held
  {
    if s.held[Hand(w)].work.Resume? then s.held[Hand(w)].work.fiber else CallbackFiber(s, w)
  }

  lemma {:induction false} StartPlaces(s: State, w: nat, kind: (Place, Item) -> bool)
    requires Inv(s) && Enabled(s, Start(w))
    ensures var item := s.held[Hand(w)];
            |Places(Do(s, Start(w)).held, kind)| == |Places(s.held, kind)| - One(kind(Hand(w), item))
              + if item.work.Wake? then One(kind(Running(Switched(s, w)), item)) else 0
  {
    hide Do, Inv, Places, Switched, Enabled;
    HasHand(s, w);
    StartEffects(s, w);
    var item := s.held[Hand(w)];
    if item.work.Wake? {
      PlacesMove(s.held, Hand(w), Running(Switched(s, w)), item, kind);
    } else {
      PlacesRemove(s.held, Hand(w), kind);
    }
  }

  lemma {:induction false} HasHand(s: State, w: nat)
    requires Enabled(s, Start(w))
    ensures Hand(w) in s.held && w in s.workers && JobOf(s, w).Holding?
  {
  }

  /** Worker w starts what it holds, which is not for f. */
  lemma {:induction false} OthersStart(s: State, w: nat, f: nat)
    requires Ready(s, w, f) && Enabled(s, Start(w)) && s.wake[f] != Hand(w)
    ensures Ready(Do(s, Start(w)), w, f) && Closer(Do(s, Start(w)), s, w, f)
  {
    hide Do, Enabled, SwitchesAgree, WaitersWake, KindsAgree, PlacesAgree, SerialsFresh, Places, Armed;
    HasHand(s, w);
    StartEffects(s, w);
    SourceIsHeld(s, f);
    if Target(s.held[Hand(w)].work).Some? {
      HeldIsWake(s, Hand(w));
    }
    assert f in Do(s, Start(w)).wake && SameSource(Do(s, Start(w)), s, f);
    StillReady(s, Start(w), w, f);
    StartPlaces(s, w, IsSleep);
    StartPlaces(s, w, IsBacklog);
    StartPlaces(s, w, IsExpired);
    ArmedUpdate(s.fibers, Switched(s, w), Fiber(Exec(w), false));
  }

  /** A fiber that is about to yield yields. */
  lemma {:induction false} Yields(s: State, v: nat, w: nat, f: nat)
    requires Ready(s, w, f) && Enabled(s, YieldToHold(v))
    ensures Ready(Do(s, YieldToHold(v)), w, f) && Closer(Do(s, YieldToHold(v)), s, w, f)
  {
    hide Do, Enabled, WaitersWake, SwitchesAgree, KindsAgree, PlacesAgree, SerialsFresh, Places, Armed;
    var a := YieldToHold(v);
    YieldEffect(s, a);
    SourceIsHeld(s, f);
    StillReady(s, a, w, f);
    var g := s.workers[v].job.fiber;
    ArmedUpdate(s.fibers, g, Do(s, a).fibers[g]);
  }

  /** A fiber that is free to end, or a callback, ends. */
  lemma {:induction false} Finishes(s: State, w: nat, f: nat)
    requires Ready(s, w, f) && Enabled(s, Finish(w))
    ensures Ready(Do(s, Finish(w)), w, f) && Closer(Do(s, Finish(w)), s, w, f)
  {
    hide Do, Enabled, WaitersWake, SwitchesAgree, KindsAgree, PlacesAgree, SerialsFresh, Places, Armed;
    var a := Finish(w);
    YieldEffect(s, a);
    YieldWorkers(s, a);
    SourceIsHeld(s, f);
    StillReady(s, a, w, f);
    var g := s.workers[w].job.fiber;
    ArmedUpdate(s.fibers, g, Do(s, a).fibers[g]);
  }

  /** A worker that was leaving a fiber is back in run(). */
  lemma {:induction false} GetsBack(s: State, v: nat, w: nat, f: nat)
    requires Ready(s, w, f) && Enabled(s, BackInRun(v))
    ensures Ready(Do(s, BackInRun(v)), w, f) && Closer(Do(s, BackInRun(v)), s, w, f)
  {
    hide Do, Enabled, WaitersWake, SwitchesAgree, KindsAgree, PlacesAgree, SerialsFresh, Places, Armed, Leavers;
    var a := BackInRun(v);
    BackEffect(s, v);
    SourceIsHeld(s, f);
    StillReady(s, a, w, f);
    FewerLeavers(s.workers, v, Do(s, a).workers[v]);
  }

  /** Worker w changes between run() and idle(), whichever it takes to move what f waits for. */
  lemma {:induction false} ChangesPlace(s: State, a: Action, w: nat, f: nat)
    requires Ready(s, w, f) && Enabled(s, a) && a == if NeedsIdle(s.wake[f]) then EnterIdle(w) else LeaveIdle(w)
    ensures Ready(Do(s, a), w, f) && Closer(Do(s, a), s, w, f)
  {
    hide WaitersWake, SwitchesAgree, KindsAgree, PlacesAgree, SerialsFresh, Places, Armed, Leavers;
    SourceIsHeld(s, f);
    StillReady(s, a, w, f);
  }

  // ---------------------------------------------------------------- the next step

  /** This step switches to fiber f. */
  predicate SwitchesTo(s: State, a: Action, f: nat) {
    a.Start? && Hand(a.w) in s.held && s.held[Hand(a.w)].work == Resume(f)
  }

  lemma {:induction false} First(s: State, w: nat, n: nat) returns (m: nat)
    requires Runnable(s, w, n)
    ensures FirstRunnable(s, w, m) && m <= n
  {
    if k: nat :| k < n && Runnable(s, w, k) {
      m := First(s, w, k);
    } else {
      m := n;
    }
  }

  /** A fiber that is being left is no more, as soon as that worker is back in run(). */
  lemma {:induction false} LeaverReturns(s: State, g: nat, w: nat, f: nat) returns (a: Action)
    requires Ready(s, w, f) && IsBeingLeft(s, g)
    ensures Enabled(s, a) && Ready(Do(s, a), w, f) && Closer(Do(s, a), s, w, f)
  {
    hide Do, Closer, Ready;
    assert !s.clashed by { ReadyMeans(s, w, f); }
    var v :| v in s.workers && s.workers[v].job.Leaving? && s.workers[v].job.fiber == g;
    a := BackInRun(v);
    GetsBack(s, v, w, f);
  }

  lemma ReadyMeans(s: State, w: nat, f: nat)
    requires Ready(s, w, f)
    ensures Inv(s) && !s.clashed && f in s.wake && Alive(s, w) && WakeIsUnique(s.held, s.wake)
  {
  }

  lemma {:induction false} FromHand(s: State, v: nat, w: nat, f: nat) returns (a: Action)
    requires Ready(s, w, f) && s.wake[f] == Hand(v)
    ensures Enabled(s, a) && (SwitchesTo(s, a, f) || (Ready(Do(s, a), w, f) && Closer(Do(s, a), s, w, f)))
  {
    hide Do, Closer, WaitersWake, SwitchesAgree, KindsAgree, SerialsFresh;
    SourceIsHeld(s, f);
    assert PlaceOk(s, Hand(v), s.held[Hand(v)].work);
    if s.held[Hand(v)].work.Resume? && IsBeingLeft(s, f) {
      a := LeaverReturns(s, f, w, f);
    } else {
      a := Start(v);
      if s.held[Hand(v)].work.Wake? {
        SleeperStarts(s, v, w, f);
      }
    }
  }

  lemma {:induction false} Any(s: State, a: Action, w: nat, f: nat)
    requires Ready(s, w, f) && Enabled(s, a) && (a.RunWake? || ((a.Flush? || a.Requeue?) && a.w == w))
    ensures Ready(Do(s, a), w, f) && Closer(Do(s, a), s, w, f)
  {
    hide Do, Closer, Ready;
    ReadyMeans(s, w, f);
    if From(s, a) == s.wake[f] {
      MovesOn(s, a, w, f);
    } else {
      OthersMoveOn(s, a, w, f);
    }
  }

  lemma {:induction false} BusyStep(s: State, g: nat, w: nat, f: nat) returns (a: Action)
    requires Ready(s, w, f) && s.workers[w].job.Busy? && s.workers[w].job.fiber == g
    ensures Enabled(s, a) && Ready(Do(s, a), w, f) && Closer(Do(s, a), s, w, f)
  {
    hide Do, Closer, Enabled, WakeIsUnique, WaitersWake, SwitchesAgree, KindsAgree, PlacesAgree, SerialsFresh;
    RunsOn(s, w);
    a := WhatBusyCan(s, g, w);
    if a.RunWake? {
      Any(s, a, w, f);
    } else if a.YieldToHold? {
      Yields(s, w, w, f);
    } else {
      Finishes(s, w, f);
    }
  }

  lemma {:induction false} HoldingStep(s: State, w: nat, f: nat) returns (a: Action)
    requires Ready(s, w, f) && s.wake[f] != Hand(w) && JobOf(s, w).Holding?
    ensures Enabled(s, a) && Ready(Do(s, a), w, f) && Closer(Do(s, a), s, w, f)
  {
    hide Do, Closer, WakeIsUnique, WaitersWake, SwitchesAgree, KindsAgree, SerialsFresh;
    var item := s.held[Hand(w)];
    if item.work.Resume? && IsBeingLeft(s, item.work.fiber) {
      a := LeaverReturns(s, item.work.fiber, w, f);
    } else {
      a := Start(w);
      OthersStart(s, w, f);
    }
  }

  lemma {:induction false} ReturningStep(s: State, w: nat, f: nat) returns (a: Action)
    requires Ready(s, w, f) && JobOf(s, w).Returning?
    ensures Enabled(s, a) && Ready(Do(s, a), w, f) && Closer(Do(s, a), s, w, f)
  {
    hide Do, Closer, WakeIsUnique, WaitersWake, SwitchesAgree, KindsAgree, SerialsFresh;
    a := Requeue(w);
    Any(s, a, w, f);
  }

  /** What it has extracted from the timers goes into the queue before it leaves idle(). */
  lemma {:induction false} IdleStep(s: State, w: nat, f: nat) returns (a: Action)
    requires Ready(s, w, f) && JobOf(s, w).Idling? && !NeedsIdle(s.wake[f])
    ensures Enabled(s, a) && Ready(Do(s, a), w, f) && Closer(Do(s, a), s, w, f)
  {
    hide Do, Closer, Inv;
    if p :| p in s.held && p.Expired? && p.worker == w {
      a := Flush(w, p.id);
      Any(s, a, w, f);
    } else {
      a := LeaveIdle(w);
      ChangesPlace(s, a, w, f);
    }
  }

  /** It takes all the tasks that it can before it goes idle. */
  lemma {:induction false} ScanStep(s: State, w: nat, f: nat) returns (a: Action)
    requires Ready(s, w, f) && JobOf(s, w).Scanning? && NeedsIdle(s.wake[f])
    ensures Enabled(s, a) && Ready(Do(s, a), w, f) && Closer(Do(s, a), s, w, f)
  {
    hide Do, Closer, Inv;
    if n: nat :| Runnable(s, w, n) {
      var m := First(s, w, n);
      a := Take(w, m);
      OthersMoveOn(s, a, w, f);
    } else {
      a := EnterIdle(w);
      ChangesPlace(s, a, w, f);
    }
  }

  /** Worker w gets on with what it has in its hands. */
  lemma {:induction false} OwnStep(s: State, w: nat, f: nat) returns (a: Action)
    requires Ready(s, w, f) && s.wake[f] != Hand(w)
    requires JobOf(s, w).Scanning? ==> NeedsIdle(s.wake[f])
    requires JobOf(s, w).Idling? ==> !NeedsIdle(s.wake[f])
    ensures Enabled(s, a) && Ready(Do(s, a), w, f) && Closer(Do(s, a), s, w, f)
  {
    hide Do, Closer, Inv;
    match s.workers[w].job
    case Holding(_) =>
      a := HoldingStep(s, w, f);
    case Busy(g, _, _) =>
      a := BusyStep(s, g, w, f);
    case Leaving(_, _, _) =>
      a := BackInRun(w);
      GetsBack(s, w, w, f);
    case Returning =>
      a := ReturningStep(s, w, f);
    case Idling(_) =>
      a := IdleStep(s, w, f);
    case Scanning =>
      a := ScanStep(s, w, f);
  }

  lemma {:induction false} YieldsFirst(s: State, w: nat, f: nat) returns (a: Action)
    requires Ready(s, w, f) && IsExec(s, f)
    ensures Enabled(s, a) && Ready(Do(s, a), w, f) && Closer(Do(s, a), s, w, f)
  {
    hide Do, Closer, WakeIsUnique, KindsAgree, PlacesAgree, SerialsFresh;
    assert FiberOk(s.workers, f, s.fibers[f]);
    a := YieldToHold(s.fibers[f].state.worker);
    Yields(s, s.fibers[f].state.worker, w, f);
  }

  /** Worker w takes the first task it may, which comes to be f's. */
  lemma {:induction false} TakesFirst(s: State, n: nat, w: nat, f: nat) returns (a: Action)
    requires Ready(s, w, f) && s.wake[f] == Queue(n) && JobOf(s, w).Scanning? && Runnable(s, w, n)
    ensures Enabled(s, a) && Ready(Do(s, a), w, f) && Closer(Do(s, a), s, w, f)
  {
    hide Do, Closer, Inv, Runnable;
    var m := First(s, w, n);
    a := Take(w, m);
    if m == n {
      MovesOn(s, a, w, f);
    } else {
      OthersMoveOn(s, a, w, f);
    }
  }

  /** The fiber yields first if it has not yet. */
  lemma {:induction false} FromQueue(s: State, n: nat, w: nat, f: nat) returns (a: Action)
    requires Ready(s, w, f) && s.wake[f] == Queue(n)
    ensures Enabled(s, a) && Ready(Do(s, a), w, f) && Closer(Do(s, a), s, w, f)
  {
    hide Do, Enabled, Closer, WaitersWake, SwitchesAgree, KindsAgree, PlacesAgree, SerialsFresh;
    SourceIsHeld(s, f);
    AnyKind(s, Queue(n));
    if s.held[Queue(n)].work.Resume? && IsExec(s, f) {
      a := YieldsFirst(s, w, f);
    } else if JobOf(s, w).Scanning? {
      a := TakesFirst(s, n, w, f);
    } else {
      a := OwnStep(s, w, f);
    }
  }

  lemma {:induction false} FromEvent(s: State, fd: nat, write: bool, w: nat, f: nat) returns (a: Action)
    requires Ready(s, w, f) && s.wake[f] == Event(fd, write)
    ensures Enabled(s, a) && Ready(Do(s, a), w, f) && Closer(Do(s, a), s, w, f)
  {
    hide Do, Closer, Inv;
    assert s.wake[f] in s.held by { ReadyMeans(s, w, f); SourceIsHeld(s, f); }
    if MayPush(s, Some(w)) {
      a := Trigger(Some(w), fd, write);
      MovesOn(s, a, w, f);
    } else {
      a := OwnStep(s, w, f);
    }
  }

  lemma {:induction false} FromTimer(s: State, id: nat, w: nat, f: nat) returns (a: Action)
    requires Ready(s, w, f) && s.wake[f] == Timer(id)
    ensures Enabled(s, a) && Ready(Do(s, a), w, f) && Closer(Do(s, a), s, w, f)
  {
    hide Do, Closer, Inv;
    assert s.wake[f] in s.held by { ReadyMeans(s, w, f); SourceIsHeld(s, f); }
    if JobOf(s, w).Idling? {
      a := Expire(w, id);
      MovesOn(s, a, w, f);
    } else {
      a := OwnStep(s, w, f);
    }
  }

  lemma {:induction false} CallbackRuns(s: State, g: nat) returns (v: nat)
    requires SwitchesAgree(s.fibers, s.workers) && !s.clashed && IsExec(s, g) && Running(g) in s.held
    ensures Enabled(s, RunWake(v)) && From(s, RunWake(v)) == Running(g)
  {
    v := s.fibers[g].state.worker;
    assert FiberOk(s.workers, g, s.fibers[g]);
  }

  /** What is in the local vector of an idle worker, in a sleep callback or back from a fiber goes into the queue. */
  lemma {:induction false} IntoQueue(s: State, w: nat, f: nat) returns (a: Action)
    requires Ready(s, w, f) && (s.wake[f].Expired? || s.wake[f].Returned? || s.wake[f].Running?)
    ensures Enabled(s, a) && Ready(Do(s, a), w, f) && Closer(Do(s, a), s, w, f)
  {
    hide Do, Closer, WakeIsUnique, WaitersWake, SwitchesAgree, KindsAgree, SerialsFresh;
    SourceIsHeld(s, f);
    var p := s.wake[f];
    assert PlaceOk(s, p, s.held[p].work);
    if p.Running? {
      var v := CallbackRuns(s, p.fiber);
      a := RunWake(v);
    } else {
      a := if p.Expired? then Flush(p.worker, p.id) else Requeue(p.worker);
    }
    MovesOn(s, a, w, f);
  }

  /** In whatever state f waits, there is a step that switches to it or leaves less to do before. */
  lemma {:induction false} NextStep(s: State, w: nat, f: nat) returns (a: Action)
    requires Ready(s, w, f)
    ensures Enabled(s, a) && (SwitchesTo(s, a, f) || (Ready(Do(s, a), w, f) && Closer(Do(s, a), s, w, f)))
  {
    hide Do, Enabled, Closer, Inv;
    match s.wake[f]
    case Event(fd, write) =>
      a := FromEvent(s, fd, write, w, f);
    case Timer(id) =>
      a := FromTimer(s, id, w, f);
    case Queue(n) =>
      a := FromQueue(s, n, w, f);
    case Hand(v) =>
      a := FromHand(s, v, w, f);
    case _ =>
      a := IntoQueue(s, w, f);
  }

  // ---------------------------------------------------------------- every waiter can run

  /** These steps are possible from s one after the other. */
  ghost predicate Path(s: State, acts: seq<Action>)
    decreases |acts|
  {
    acts != [] ==> Enabled(s, acts[0]) && Path(Do(s, acts[0]), acts[1..])
  }

  ghost function After(s: State, acts: seq<Action>): State
    requires Path(s, acts)
    decreases |acts|
  {
    if acts == [] then s else After(Do(s, acts[0]), acts[1..])
  }

  /** Some worker can be brought to switch to f. */
  ghost predicate CanRun(s: State, f: nat) {
    exists acts: seq<Action>, a: Action ::
      Path(s, acts) && Enabled(After(s, acts), a) && SwitchesTo(After(s, acts), a, f)
  }

  lemma {:induction false} CanRunAfter(s: State, a: Action, f: nat)
    requires Enabled(s, a) && (SwitchesTo(s, a, f) || CanRun(Do(s, a), f))
    ensures CanRun(s, f)
  {
    hide Enabled, Do, SwitchesTo;
    if SwitchesTo(s, a, f) {
      assert Path(s, []) && After(s, []) == s;
    } else {
      var acts: seq<Action>, b: Action :| Path(Do(s, a), acts) && Enabled(After(Do(s, a), acts), b)
                                          && SwitchesTo(After(Do(s, a), acts), b, f);
      var more := [a] + acts;
      assert more[1..] == acts;
      assert Path(s, more) && After(s, more) == After(Do(s, a), acts);
    }
  }

  lemma {:induction false} WaiterCanRun(s: State, w: nat, f: nat)
    requires Ready(s, w, f)
    ensures CanRun(s, f)
    decreases RankOf(s, f), |Places(s.held, IsSleep)|, |Places(s.held, IsBacklog)|, |Armed(s.fibers)|,
              |Places(s.held, IsExpired)|, PhaseOf(s, w, f), |Leavers(s.workers)|
  {
    hide Enabled, Do, Ready, SwitchesTo, CanRun, RankOf, PhaseOf, Places, Armed, Leavers;
    var a := NextStep(s, w, f);
    if !SwitchesTo(s, a, f) {
      WaiterCanRun(Do(s, a), w, f);
    }
    CanRunAfter(s, a, f);
  }

  /** A longer run that begins with this one. */
  ghost predicate Continues(states: seq<State>, acts: seq<Action>, more: seq<State>, steps: seq<Action>) {
    Run(more, steps) && states <= more && acts < steps
  }

  /** Its last step switches to f, which runs then. */
  predicate EndsWithSwitchTo(states: seq<State>, acts: seq<Action>, f: nat) {
    && acts != [] && |states| == |acts| + 1 && SwitchesTo(states[|acts| - 1], acts[|acts| - 1], f)
    && IsExec(states[|acts|], f)
  }

  lemma {:induction false} OneMore(states: seq<State>, acts: seq<Action>, a: Action)
    requires Run(states, acts) && Enabled(states[|acts|], a)
    ensures Run(states + [Do(states[|acts|], a)], acts + [a])
  {
    hide Enabled, Do;
    var more, steps := states + [Do(states[|acts|], a)], acts + [a];
    forall i | 0 <= i < |steps|
      ensures Enabled(more[i], steps[i]) && more[i + 1] == Do(more[i], steps[i])
    {
      assert i < |acts| ==> more[i] == states[i] && more[i + 1] == states[i + 1] && steps[i] == acts[i];
    }
  }

  lemma {:induction false} FollowPath(states: seq<State>, acts: seq<Action>, path: seq<Action>)
    returns (more: seq<State>)
    requires Run(states, acts) && Path(states[|acts|], path)
    ensures Run(more, acts + path) && states <= more && more[|acts + path|] == After(states[|acts|], path)
    decreases |path|
  {
    hide Enabled, Do;
    if path == [] {
      more := states;
      assert acts + path == acts;
    } else {
      OneMore(states, acts, path[0]);
      more := FollowPath(states + [Do(states[|acts|], path[0])], acts + [path[0]], path[1..]);
      assert acts + [path[0]] + path[1..] == acts + path;
    }
  }

  lemma {:induction false} StaysAbandoned(states: seq<State>, acts: seq<Action>, i: nat, k: nat, f: nat)
    requires Run(states, acts) && i <= k < |states| && f in states[i].abandoned
    ensures f in states[k].abandoned
  {
    hide Enabled, Do, Good;
    if i < k {
      StaysAbandoned(states, acts, i, k - 1, f);
      RunIsGood(states, acts, k - 1);
      AbandonedByDelEvent(states[k - 1], acts[k - 1], f);
    }
  }

  /**
   * As long as a worker is there that has not terminated its idle fiber, a run can be continued up to a switch to a
   * fiber that waits if and only if that fiber was not abandoned.
   */
  lemma {:induction false} WaitersCanRunExactly(states: seq<State>, acts: seq<Action>, w: nat, f: nat)
    requires Run(states, acts) && !states[|acts|].clashed && Alive(states[|acts|], w)
    requires f in states[|acts|].fibers && Waiting(states[|acts|].fibers[f])
    ensures f !in states[|acts|].abandoned <==> exists more: seq<State>, steps: seq<Action> ::
              Continues(states, acts, more, steps) && EndsWithSwitchTo(more, steps, f)
  {
    hide Enabled, Do, SwitchesTo, Inv;
    if f !in states[|acts|].abandoned {
      var more, steps := WaiterRuns(states, acts, w, f);
      assert Continues(states, acts, more, steps) && EndsWithSwitchTo(more, steps, f);
    } else if more: seq<State>, steps: seq<Action> :|
              Continues(states, acts, more, steps) && EndsWithSwitchTo(more, steps, f) {
      AbandonedNeverRuns(states, acts, more, steps, f);
      assert false;
    }
  }

  lemma {:induction false} WaiterRuns(states: seq<State>, acts: seq<Action>, w: nat, f: nat)
    returns (more: seq<State>, steps: seq<Action>)
    requires Run(states, acts) && |states| == |acts| + 1 && !states[|acts|].clashed && Alive(states[|acts|], w)
    requires f in states[|acts|].fibers && Waiting(states[|acts|].fibers[f]) && f !in states[|acts|].abandoned
    ensures Continues(states, acts, more, steps) && EndsWithSwitchTo(more, steps, f)
  {
    hide Enabled, Do, SwitchesTo, Path, After, Run, Inv;
    var s := states[|acts|];
    RunIsGood(states, acts, |acts|);
    WaiterIsReady(s, w, f);
    WaiterCanRun(s, w, f);
    var path: seq<Action>, a: Action :| Path(s, path) && Enabled(After(s, path), a) && SwitchesTo(After(s, path), a, f);
    more, steps := SwitchBehind(states, acts, path, a, f);
  }

  lemma {:induction false} SwitchBehind(states: seq<State>, acts: seq<Action>, path: seq<Action>, a: Action, f: nat)
    returns (more: seq<State>, steps: seq<Action>)
    requires Run(states, acts) && Path(states[|acts|], path) && Enabled(After(states[|acts|], path), a)
    requires SwitchesTo(After(states[|acts|], path), a, f)
    ensures Continues(states, acts, more, steps) && EndsWithSwitchTo(more, steps, f)
  {
    hide Enabled, Do, SwitchesTo, Path, After, Inv, IsExec;
    var t := After(states[|acts|], path);
    var there := FollowPath(states, acts, path);
    RunIsGood(there, acts + path, |acts + path|);
    SwitchedRuns(t, a, f);
    OneMore(there, acts + path, a);
    more, steps := there + [Do(t, a)], acts + path + [a];
    assert more[|steps| - 1] == t;
    assert acts < steps;
  }

  lemma {:induction false} SwitchedRuns(s: State, a: Action, f: nat)
    requires Inv(s) && Enabled(s, a) && SwitchesTo(s, a, f)
    ensures IsExec(Do(s, a), f)
  {
    hide Do, Enabled, Inv;
    HasHand(s, a.w);
    StartEffects(s, a.w);
  }

  lemma WaiterIsReady(s: State, w: nat, f: nat)
    requires Good(s) && !s.clashed && Alive(s, w) && f in s.fibers && Waiting(s.fibers[f]) && f !in s.abandoned
    ensures Ready(s, w, f)
  {
  }

  lemma {:induction false} AbandonedNeverRuns(states: seq<State>, acts: seq<Action>, more: seq<State>,
                                              steps: seq<Action>, f: nat)
    requires Run(states, acts) && f in states[|acts|].abandoned && Continues(states, acts, more, steps)
    ensures !EndsWithSwitchTo(more, steps, f)
  {
    hide Enabled, Do, SwitchesAgree, KindsAgree, PlacesAgree, SerialsFresh;
    if EndsWithSwitchTo(more, steps, f) {
      var k := |steps| - 1;
      StaysAbandoned(more, steps, |acts|, k, f);
      RunIsGood(more, steps, k);
      HeldIsWake(more[k], Hand(steps[k].w));
    }
  }

  // ---------------------------------------------------------------- nobody is stuck

  /** A step in which worker w itself gets on. */
  predicate IsOwnStep(a: Action, w: nat) {
    && (a.Take? || a.EnterIdle? || a.Leave? || a.Clash? || a.Start? || a.RunWake? || a.YieldToHold? || a.Finish?
        || a.BackInRun? || a.Requeue? || a.Flush? || a.LeaveIdle?)
    && a.w == w
  }

  /** Only a clash stops a worker: one that has not left has always a step of its own. */
  lemma {:induction false} NobodyIsStuck(states: seq<State>, acts: seq<Action>, i: nat, w: nat) returns (a: Action)
    requires Run(states, acts) && i < |states| && !states[i].clashed
    requires w in states[i].workers && !states[i].workers[w].job.Left?
    ensures Enabled(states[i], a) && IsOwnStep(a, w)
  {
    hide Run, Inv, Enabled;
    RunIsGood(states, acts, i);
    if IsBetweenTasks(states[i].workers[w].job) {
      a := BetweenTasks(states[i], w);
    } else {
      a := WithTask(states[i], w);
    }
  }

  predicate IsBetweenTasks(job: Job) {
    job.Scanning? || job.Idling? || job.Leaving?
  }

  lemma {:induction false} BetweenTasks(s: State, w: nat) returns (a: Action)
    requires !s.clashed && w in s.workers && IsBetweenTasks(s.workers[w].job)
    ensures Enabled(s, a) && IsOwnStep(a, w)
  {
    match s.workers[w].job
    case Scanning =>
      if n: nat :| Runnable(s, w, n) {
        var m := First(s, w, n);
        a := Take(w, m);
      } else {
        a := if s.workers[w].ended then Leave(w) else EnterIdle(w);
      }
    case Idling(_) =>
      if p :| p in s.held && p.Expired? && p.worker == w {
        a := Flush(w, p.id);
      } else {
        a := LeaveIdle(w);
      }
    case Leaving(_, _, _) =>
      a := BackInRun(w);
  }

  lemma {:induction false} WithTask(s: State, w: nat) returns (a: Action)
    requires Inv(s) && !s.clashed && w in s.workers && !IsBetweenTasks(s.workers[w].job) && !s.workers[w].job.Left?
    ensures Enabled(s, a) && IsOwnStep(a, w)
  {
    hide WakeIsUnique, WaitersWake, SwitchesAgree, KindsAgree, SerialsFresh;
    match s.workers[w].job
    case Holding(_) =>
      var item := s.held[Hand(w)];
      a := if item.work.Resume? && IsBeingLeft(s, item.work.fiber) then Clash(w) else Start(w);
    case Busy(g, _, _) =>
      RunsOn(s, w);
      a := WhatBusyCan(s, g, w);
    case Returning =>
      a := Requeue(w);
  }

  /** A worker in a fiber runs the callback, yields if it is about to, or can end. */
  lemma {:induction false} WhatBusyCan(s: State, g: nat, w: nat) returns (a: Action)
    requires !s.clashed && w in s.workers && s.workers[w].job.Busy? && s.workers[w].job.fiber == g && g in s.fibers
    ensures Enabled(s, a) && IsOwnStep(a, w) && (a.RunWake? || a.YieldToHold? || a.Finish?)
  {
    a := if Running(g) in s.held then RunWake(w) else if s.fibers[g].armed then YieldToHold(w) else Finish(w);
  }
}
