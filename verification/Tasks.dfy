/**
 * Every entry of the task queue is at any time in exactly one stage: queued, taken, running or finished; and it goes
 * through them once, in this order, with one worker.
 */
module Tasks {
  import opened Options
  import opened Reactor
  import opened WakeTokens

  /** The steps that put an entry into the queue. */
  predicate IsSchedule(a: Action) {
    a.Submit? || a.Trigger? || a.Flush? || a.RunWake? || a.Requeue?
  }

  /** The steps by which a worker is through with its entry. */
  predicate IsEnd(a: Action) {
    a.YieldToReady? || a.Finish? || a.BackInRun?
  }

  /** All others that take, start or leave no task. */
  predicate IsQuiet(a: Action) {
    !IsSchedule(a) && !a.Take? && !a.Start? && !a.YieldToHold? && !IsEnd(a)
  }

  predicate HasAny(job: Job) {
    job.Holding? || HasStarted(job)
  }

  /** Its fiber runs, or has yielded and is still being left. */
  predicate HasStarted(job: Job) {
    job.Busy? || job.Leaving?
  }

  predicate HasEntry(job: Job, n: nat) {
    HasAny(job) && job.entry == n
  }

  /** What is in the queue are the entries nobody has taken, as they were submitted. */
  ghost predicate QueueAgrees(s: State) {
    && (forall n: nat :: Queue(n) in s.held ==>
          n in s.log.submitted && n !in s.log.entered && s.held[Queue(n)] == s.log.submitted[n])
    && (forall n: nat :: n in s.log.submitted && n !in s.log.entered ==> Queue(n) in s.held)
  }

  /** Only submitted entries are taken, by the worker they are pinned to, and only taken ones finished. */
  ghost predicate HistoryAgrees(s: State) {
    && (forall n :: n in s.log.submitted ==> n < s.next)
    && (forall n :: n in s.log.entered ==> n in s.log.submitted)
    && (forall n :: n in s.log.entered && s.log.submitted[n].pin.Some? ==>
          s.log.entered[n] == s.log.submitted[n].pin.value)
    && (forall n :: n in s.log.finished ==> n in s.log.entered)
  }

  /** Worker w has taken entry n and not finished with it. */
  predicate Owns(s: State, w: nat, n: nat) {
    n in s.log.submitted && n in s.log.entered && s.log.entered[n] == w && n !in s.log.finished
  }

  /** What a worker holds, or runs, is an entry it has taken, as that was submitted. */
  predicate JobAgrees(s: State, w: nat, job: Job) {
    match job
    case Holding(n) => Owns(s, w, n) && (Hand(w) in s.held ==> s.held[Hand(w)] == s.log.submitted[n])
    case Busy(_, task, n) => Owns(s, w, n) && task == s.log.submitted[n]
    case Leaving(_, task, n) => Owns(s, w, n) && task == s.log.submitted[n]
    case _ => true
  }

  ghost predicate JobsAgree(s: State) {
    && (forall w :: w in s.workers ==> JobAgrees(s, w, s.workers[w].job))
    && (forall n :: n in s.log.entered && n !in s.log.finished ==>
          s.log.entered[n] in s.workers && HasEntry(s.workers[s.log.entered[n]].job, n))
  }

  ghost predicate TasksAgree(s: State) {
    QueueAgrees(s) && HistoryAgrees(s) && JobsAgree(s)
  }

  lemma {:induction false} InitTasks(s: State)
    requires IsInit(s)
    ensures TasksAgree(s)
  {
  }

  // ---------------------------------------------------------------- steps that leave the entries alone

  ghost predicate SameQueue(s: State, t: State) {
    && (forall n: nat :: Queue(n) in t.held <==> Queue(n) in s.held)
    && (forall n: nat :: Queue(n) in s.held && Queue(n) in t.held ==> t.held[Queue(n)] == s.held[Queue(n)])
  }

  /** What is in a hand was there before, and nobody gets or loses an entry. */
  ghost predicate SameHands(s: State, t: State) {
    && (forall w: nat :: Hand(w) in t.held ==> Hand(w) in s.held && t.held[Hand(w)] == s.held[Hand(w)])
    && t.workers.Keys == s.workers.Keys
    && (forall w :: w in s.workers && w in t.workers && s.workers[w].job != t.workers[w].job ==>
          !HasAny(s.workers[w].job) && !HasAny(t.workers[w].job))
  }

  /** The queue, the hands and the history are the same. */
  ghost predicate SameEntries(s: State, t: State) {
    t.log == s.log && s.next <= t.next && SameQueue(s, t) && SameHands(s, t)
  }

  lemma {:induction false} SameEntriesAgree(s: State, t: State)
    requires TasksAgree(s) && SameEntries(s, t)
    ensures TasksAgree(t)
  {
    forall w | w in t.workers
      ensures JobAgrees(t, w, t.workers[w].job)
    {
      assert JobAgrees(s, w, s.workers[w].job);
    }
  }

  lemma {:induction false} QuietIsSame(s: State, a: Action)
    requires Enabled(s, a) && IsQuiet(a)
    ensures SameEntries(s, Do(s, a))
  {
    if IsIdle(a) {
      IdleIsSame(s, a);
    } else if a.Expire? {
      ExpireIsSame(s, a);
    } else {
      PostIsSame(s, a);
    }
  }

  lemma {:induction false} IdleIsSame(s: State, a: Action)
    requires Enabled(s, a) && IsIdle(a)
    ensures SameEntries(s, Do(s, a))
  {
    IdleChanges(s, a);
  }

  /** A worker at the top of its loop or in idle() stays there, or leaves. */
  lemma {:induction false} IdleChanges(s: State, a: Action)
    requires Enabled(s, a) && IsIdle(a)
    ensures var t := Do(s, a);
            && t.held == s.held && t.log == s.log && t.next == s.next
            && a.w in s.workers && a.w in t.workers && t.workers == s.workers[a.w := t.workers[a.w]]
            && !HasAny(s.workers[a.w].job) && !HasAny(t.workers[a.w].job)
  {
  }

  lemma {:induction false} ExpireIsSame(s: State, a: Action)
    requires Enabled(s, a) && a.Expire?
    ensures SameEntries(s, Do(s, a))
  {
  }

  lemma {:induction false} PostIsSame(s: State, a: Action)
    requires Enabled(s, a) && IsPost(a) && !a.Submit?
    ensures SameEntries(s, Do(s, a))
  {
    hide SameEntries;
    PostKeepsQueue(s, a);
    PostKeepsHands(s, a);
    AreSame(s, Do(s, a));
  }

  lemma {:induction false} AreSame(s: State, t: State)
    requires t.log == s.log && s.next <= t.next && SameQueue(s, t) && SameHands(s, t)
    ensures SameEntries(s, t)
  {
  }

  lemma {:induction false} PostKeepsQueue(s: State, a: Action)
    requires Enabled(s, a) && IsPost(a) && !a.Submit?
    ensures Do(s, a).log == s.log && s.next <= Do(s, a).next && SameQueue(s, Do(s, a))
  {
  }

  lemma {:induction false} PostKeepsHands(s: State, a: Action)
    requires Enabled(s, a) && IsPost(a) && !a.Submit?
    ensures SameHands(s, Do(s, a))
  {
  }

  // ---------------------------------------------------------------- scheduling, taking, starting, leaving

  /** The item a scheduling step submits. */
  function Scheduled(s: State, a: Action): Item
    requires IsSchedule(a) && Enabled(s, a)
  {
    match a
    case Submit(_, c, pin) => Item(Call(c), pin, None)
    case Trigger(_, fd, wr) => s.held[Event(fd, wr)]
    case Flush(w, id) => s.held[Expired(w, id)]
    case RunWake(w) =>
      var work := s.held[Running(s.workers[w].job.fiber)].work;
      Item(if work.Call? then work else Resume(work.fiber), None, None)
    case Requeue(w) => s.held[Returned(w)]
  }

  /** Entry s.next has been submitted, and otherwise nothing of entries has changed. */
  ghost predicate OneMore(s: State, t: State, item: Item) {
    && t.log == Logged(s.log, Queue(s.next), item) && t.next == s.next + 1
    && Queue(s.next) in t.held && t.held[Queue(s.next)] == item
    && (forall n: nat :: n != s.next ==> (Queue(n) in t.held <==> Queue(n) in s.held))
    && (forall n: nat :: Queue(n) in s.held && Queue(n) in t.held && n != s.next ==>
          t.held[Queue(n)] == s.held[Queue(n)])
    && SameHands(s, t)
  }

  lemma {:induction false} ScheduleIsOneMore(s: State, a: Action)
    requires Enabled(s, a) && IsSchedule(a)
    ensures OneMore(s, Do(s, a), Scheduled(s, a))
  {
    if a.Submit? {
      SubmitIsOneMore(s, a);
    } else {
      MoveIsOneMore(s, a);
    }
  }

  lemma {:induction false} SubmitIsOneMore(s: State, a: Action)
    requires Enabled(s, a) && a.Submit?
    ensures OneMore(s, Do(s, a), Scheduled(s, a))
  {
  }

  lemma {:induction false} MoveIsOneMore(s: State, a: Action)
    requires Enabled(s, a) && IsSchedule(a) && IsMove(a)
    ensures OneMore(s, Do(s, a), Scheduled(s, a))
  {
    hide Do;
    MoveEffect(s, a);
    MoveWorkers(s, a);
    MoveIsLogged(s, a);
  }

  lemma {:induction false} MoveIsLogged(s: State, a: Action)
    requires Enabled(s, a) && IsSchedule(a) && IsMove(a)
    ensures Do(s, a).log == Logged(s.log, Queue(s.next), Scheduled(s, a)) && Scheduled(s, a) == Moved(s, a)
  {
  }

  lemma {:induction false} OneMoreAgrees(s: State, t: State, item: Item)
    requires TasksAgree(s) && SerialsFresh(s) && OneMore(s, t, item)
    ensures TasksAgree(t)
  {
    forall w | w in t.workers
      ensures JobAgrees(t, w, t.workers[w].job)
    {
      assert JobAgrees(s, w, s.workers[w].job);
    }
  }

  lemma {:induction false} TakeAgrees(s: State, w: nat, n: nat)
    requires TasksAgree(s) && Enabled(s, Take(w, n))
    ensures TasksAgree(Do(s, Take(w, n)))
  {
    var t := Do(s, Take(w, n));
    forall v | v in t.workers
      ensures JobAgrees(t, v, t.workers[v].job)
    {
      assert JobAgrees(s, v, s.workers[v].job);
    }
  }

  /** Worker w goes on from a task it holds to running it. */
  ghost predicate Started(s: State, t: State, w: nat) {
    && t.log == s.log && s.next <= t.next
    && SameQueue(s, t)
    && (forall v: nat :: Hand(v) in t.held ==> Hand(v) in s.held && t.held[Hand(v)] == s.held[Hand(v)])
    && w in t.workers && t.workers == s.workers[w := t.workers[w]]
    && t.workers[w].job.Busy? && JobOf(s, w).Holding? && t.workers[w].job.entry == JobOf(s, w).entry
    && Hand(w) in s.held && t.workers[w].job.task == s.held[Hand(w)]
  }

  /** In a run a fiber in a worker's hands has not terminated, so Start always switches. */
  lemma {:induction false} StartStarts(s: State, w: nat)
    requires Inv(s) && Enabled(s, Start(w))
    ensures Started(s, Do(s, Start(w)), w)
  {
    if s.held[Hand(w)].work.Resume? {
      HandIsWaiting(s, w);
      ResumeStarts(s, w);
    } else {
      CallbackStarts(s, w);
    }
  }

  lemma {:induction false} ResumeStarts(s: State, w: nat)
    requires Enabled(s, Start(w)) && s.held[Hand(w)].work.Resume?
    requires var f := s.held[Hand(w)].work.fiber; f in s.fibers && !s.fibers[f].state.Term?
    ensures Started(s, StartTask(s, w, s.held[Hand(w)]), w)
  {
  }

  lemma {:induction false} CallbackStarts(s: State, w: nat)
    requires Enabled(s, Start(w)) && !s.held[Hand(w)].work.Resume?
    ensures Started(s, StartTask(s, w, s.held[Hand(w)]), w)
  {
  }

  lemma {:induction false} StartedAgrees(s: State, t: State, w: nat)
    requires TasksAgree(s) && Started(s, t, w)
    ensures TasksAgree(t)
  {
    forall v | v in t.workers
      ensures JobAgrees(t, v, t.workers[v].job)
    {
      assert JobAgrees(s, v, s.workers[v].job);
    }
  }

  /** The fiber worker w runs has yielded to HOLD. */
  ghost predicate Yielded(s: State, t: State, w: nat) {
    && t.log == s.log && s.next <= t.next && t.held == s.held
    && w in s.workers && s.workers[w].job.Busy? && w in t.workers && t.workers == s.workers[w := t.workers[w]]
    && t.workers[w].job == Leaving(s.workers[w].job.fiber, s.workers[w].job.task, s.workers[w].job.entry)
  }

  lemma {:induction false} HoldYields(s: State, w: nat)
    requires Enabled(s, YieldToHold(w))
    ensures Yielded(s, Do(s, YieldToHold(w)), w)
  {
  }

  lemma {:induction false} YieldedAgrees(s: State, t: State, w: nat)
    requires TasksAgree(s) && Yielded(s, t, w)
    ensures TasksAgree(t)
  {
    forall v | v in t.workers
      ensures JobAgrees(t, v, t.workers[v].job)
    {
      assert JobAgrees(s, v, s.workers[v].job);
    }
  }

  /** Worker w is through with the entry it runs. */
  ghost predicate Ended(s: State, t: State, w: nat) {
    && HasStarted(JobOf(s, w)) && !HasAny(JobOf(t, w))
    && w in t.workers && t.workers == s.workers[w := t.workers[w]]
    && t.log == LogEnd(s.log, JobOf(s, w).entry)
    && s.next <= t.next
    && SameQueue(s, t)
    && (forall v: nat :: Hand(v) in t.held ==> Hand(v) in s.held && t.held[Hand(v)] == s.held[Hand(v)])
  }

  lemma {:induction false} YieldEnds(s: State, a: Action)
    requires Enabled(s, a) && IsEnd(a)
    ensures Ended(s, Do(s, a), a.w)
  {
  }

  lemma {:induction false} EndedAgrees(s: State, t: State, w: nat)
    requires TasksAgree(s) && Ended(s, t, w)
    ensures TasksAgree(t)
  {
    assert JobAgrees(s, w, s.workers[w].job);
    forall v | v in t.workers
      ensures JobAgrees(t, v, t.workers[v].job)
    {
      assert JobAgrees(s, v, s.workers[v].job);
    }
  }

  lemma {:induction false} KeepsTasks(s: State, a: Action)
    requires Inv(s) && TasksAgree(s) && Enabled(s, a)
    ensures TasksAgree(Do(s, a))
  {
    if IsSchedule(a) {
      ScheduleIsOneMore(s, a);
      OneMoreAgrees(s, Do(s, a), Scheduled(s, a));
    } else if a.Take? {
      TakeAgrees(s, a.w, a.n);
    } else if a.Start? {
      StartStarts(s, a.w);
      StartedAgrees(s, Do(s, a), a.w);
    } else if a.YieldToHold? {
      HoldYields(s, a.w);
      YieldedAgrees(s, Do(s, a), a.w);
    } else if IsEnd(a) {
      YieldEnds(s, a);
      EndedAgrees(s, Do(s, a), a.w);
    } else {
      QuietIsSame(s, a);
      SameEntriesAgree(s, Do(s, a));
    }
  }

  /** What was submitted as an entry does not change. */
  lemma {:induction false} SubmittedStays(s: State, a: Action, n: nat)
    requires Inv(s) && TasksAgree(s) && Enabled(s, a) && n in s.log.submitted
    ensures n in Do(s, a).log.submitted && Do(s, a).log.submitted[n] == s.log.submitted[n]
  {
    hide Do, Enabled, Inv, QueueAgrees, JobsAgree;
    if IsSchedule(a) {
      ScheduleIsOneMore(s, a);
    } else if a.Start? {
      StartStarts(s, a.w);
    } else if a.YieldToHold? {
      HoldYields(s, a.w);
    } else if IsEnd(a) {
      YieldEnds(s, a);
    } else if a.Take? {
      TakeSubmitsNothing(s, a.w, a.n);
    } else {
      QuietIsSame(s, a);
    }
  }

  lemma {:induction false} TakeSubmitsNothing(s: State, w: nat, n: nat)
    requires Enabled(s, Take(w, n))
    ensures Do(s, Take(w, n)).log.submitted == s.log.submitted
  {
  }

  // ---------------------------------------------------------------- stages

  datatype Stage = Unsubmitted | Queued | Taken(worker: nat) | Active(worker: nat) | Finished(worker: nat)

  function StageOf(s: State, n: nat): Stage {
    if n !in s.log.submitted then Unsubmitted
    else if n !in s.log.entered then Queued
    else if n in s.log.finished then Finished(s.log.entered[n])
    else if JobOf(s, s.log.entered[n]).Holding? then Taken(s.log.entered[n])
    else Active(s.log.entered[n])
  }

  /** How one step changes the stage of entry n. */
  function NextStage(s: State, a: Action, n: nat): Stage {
    match StageOf(s, n)
    case Unsubmitted => if IsSchedule(a) && n == s.next then Queued else Unsubmitted
    case Queued => if a.Take? && a.n == n then Taken(a.w) else Queued
    case Taken(w) => if a == Start(w) then Active(w) else Taken(w)
    case Active(w) => if IsEnd(a) && a.w == w then Finished(w) else Active(w)
    case Finished(w) => Finished(w)
  }

  /** The entry a worker has is in the stage its job says. */
  lemma {:induction false} OwnStage(s: State, w: nat)
    requires TasksAgree(s) && w in s.workers && HasAny(s.workers[w].job)
    ensures StageOf(s, s.workers[w].job.entry) == if s.workers[w].job.Holding? then Taken(w) else Active(w)
  {
    assert JobAgrees(s, w, s.workers[w].job);
  }

  lemma {:induction false} QuietStage(s: State, t: State, n: nat)
    requires TasksAgree(s) && SameEntries(s, t)
    ensures StageOf(t, n) == StageOf(s, n)
  {
  }

  lemma {:induction false} ScheduleStage(s: State, t: State, item: Item, n: nat)
    requires TasksAgree(s) && SerialsFresh(s) && OneMore(s, t, item)
    ensures StageOf(t, n) == if n == s.next then Queued else StageOf(s, n)
    ensures StageOf(s, s.next) == Unsubmitted
  {
  }

  lemma {:induction false} TakeStage(s: State, w: nat, m: nat, n: nat)
    requires TasksAgree(s) && Enabled(s, Take(w, m))
    ensures StageOf(s, m) == Queued
    ensures StageOf(Do(s, Take(w, m)), n) == if n == m then Taken(w) else StageOf(s, n)
  {
    var v := if n in s.log.entered then s.log.entered[n] else w;
    if n in s.log.entered && v == w {
      assert HasEntry(s.workers[w].job, n) || n in s.log.finished;
    }
  }

  lemma {:induction false} StartStage(s: State, t: State, w: nat, n: nat)
    requires TasksAgree(s) && Started(s, t, w)
    ensures StageOf(s, JobOf(s, w).entry) == Taken(w)
    ensures StageOf(t, n) == if n == JobOf(s, w).entry then Active(w) else StageOf(s, n)
    ensures StageOf(s, n) == Taken(w) <==> n == JobOf(s, w).entry
  {
    OwnStage(s, w);
  }

  lemma {:induction false} HoldStage(s: State, t: State, w: nat, n: nat)
    requires TasksAgree(s) && Yielded(s, t, w)
    ensures StageOf(t, n) == StageOf(s, n)
  {
  }

  lemma {:induction false} EndStage(s: State, t: State, w: nat, n: nat)
    requires TasksAgree(s) && Ended(s, t, w)
    ensures StageOf(s, JobOf(s, w).entry) == Active(w)
    ensures StageOf(t, n) == if n == JobOf(s, w).entry then Finished(w) else StageOf(s, n)
    ensures StageOf(s, n) == Active(w) <==> n == JobOf(s, w).entry
  {
    OwnStage(s, w);
  }

  /** Entries go through the stages in order, each by the step of its worker that is named for it. */
  lemma {:induction false} StageSteps(s: State, a: Action, n: nat)
    requires Inv(s) && TasksAgree(s) && Enabled(s, a)
    ensures StageOf(Do(s, a), n) == NextStage(s, a, n)
  {
    hide Do, Enabled, Inv, TasksAgree, StageOf;
    if IsSchedule(a) {
      ScheduleSteps(s, a, n);
    } else if a.Take? {
      TakeStage(s, a.w, a.n, n);
    } else if a.Start? {
      StartSteps(s, a.w, n);
    } else if a.YieldToHold? {
      HoldSteps(s, a.w, n);
    } else if IsEnd(a) {
      YieldSteps(s, a, n);
    } else {
      QuietSteps(s, a, n);
    }
  }

  lemma {:induction false} ScheduleSteps(s: State, a: Action, n: nat)
    requires Inv(s) && TasksAgree(s) && Enabled(s, a) && IsSchedule(a)
    ensures StageOf(Do(s, a), n) == NextStage(s, a, n)
  {
    hide Do, Enabled, Inv, TasksAgree, StageOf, NextStage, OneMore;
    ScheduleIsOneMore(s, a);
    InvHasSerials(s);
    ScheduleStage(s, Do(s, a), Scheduled(s, a), n);
    ScheduleNext(s, a, n);
  }

  lemma {:induction false} InvHasSerials(s: State)
    requires Inv(s)
    ensures SerialsFresh(s)
  {
  }

  lemma {:induction false} StartSteps(s: State, w: nat, n: nat)
    requires Inv(s) && TasksAgree(s) && Enabled(s, Start(w))
    ensures StageOf(Do(s, Start(w)), n) == NextStage(s, Start(w), n)
  {
    hide Do, Enabled, Inv, TasksAgree, StageOf, Started;
    StartStarts(s, w);
    StartStage(s, Do(s, Start(w)), w, n);
  }

  lemma {:induction false} HoldSteps(s: State, w: nat, n: nat)
    requires Inv(s) && TasksAgree(s) && Enabled(s, YieldToHold(w))
    ensures StageOf(Do(s, YieldToHold(w)), n) == NextStage(s, YieldToHold(w), n)
  {
    hide Do, Enabled, Inv, TasksAgree, StageOf, Yielded;
    HoldYields(s, w);
    HoldStage(s, Do(s, YieldToHold(w)), w, n);
  }

  lemma {:induction false} YieldSteps(s: State, a: Action, n: nat)
    requires Inv(s) && TasksAgree(s) && Enabled(s, a) && IsEnd(a)
    ensures StageOf(Do(s, a), n) == NextStage(s, a, n)
  {
    hide Do, Enabled, Inv, TasksAgree, StageOf, NextStage, Ended;
    YieldEnds(s, a);
    EndStage(s, Do(s, a), a.w, n);
    YieldNext(s, a, n);
  }

  lemma {:induction false} YieldNext(s: State, a: Action, n: nat)
    requires IsEnd(a)
    ensures NextStage(s, a, n) == if StageOf(s, n) == Active(a.w) then Finished(a.w) else StageOf(s, n)
  {
  }

  lemma {:induction false} ScheduleNext(s: State, a: Action, n: nat)
    requires IsSchedule(a)
    ensures NextStage(s, a, n) == if StageOf(s, n) == Unsubmitted && n == s.next then Queued else StageOf(s, n)
  {
  }

  lemma {:induction false} QuietSteps(s: State, a: Action, n: nat)
    requires Inv(s) && TasksAgree(s) && Enabled(s, a) && IsQuiet(a)
    ensures StageOf(Do(s, a), n) == NextStage(s, a, n)
  {
    hide Do, Enabled, Inv, TasksAgree, StageOf, SameEntries;
    QuietIsSame(s, a);
    QuietStage(s, Do(s, a), n);
  }

  function Rank(stage: Stage): nat {
    match stage
    case Unsubmitted => 0
    case Queued => 1
    case Taken(_) => 2
    case Active(_) => 3
    case Finished(_) => 4
  }

  lemma {:induction false} StageGrows(s: State, a: Action, n: nat)
    requires Inv(s) && TasksAgree(s) && Enabled(s, a)
    ensures Rank(StageOf(s, n)) <= Rank(StageOf(Do(s, a), n))
  {
    StageSteps(s, a, n);
    NextRank(s, a, n);
  }

  lemma {:induction false} NextRank(s: State, a: Action, n: nat)
    ensures Rank(StageOf(s, n)) <= Rank(NextStage(s, a, n))
  {
  }
}
