/**
 * One call of do_io in yuan/hook.cc with a timeout, among everything that can happen to its registration: the event,
 * its timeout callbacks of this and earlier rounds, and other threads. What a wake-up is, and that it is not lost or
 * doubled, is the subject of Reactor; here it is the timeout and the flag the callbacks share.
 */
module DoIo {
  import opened Options

  /**
   * A timeout callback: in the timer set, taken out and not begun, between setting the flag and cancelEvent, over, or
   * cancelled.
   */
  datatype Callback = InSet | Taken | Marked | Done | Cancelled

  datatype Result = Value | Error | TimedOut

  /**
   * Where the fiber is: about to call the system, about to register, registered, suspended, or back with the caller.
   */
  datatype Phase = Try | HasTimer | Registered | Suspended | Returned(result: Result)

  datatype Call = Call(
    phase: Phase,
    callbacks: seq<Callback>, // one for each round so far
    cancelled: bool,          // tinfo->cancelled
    registered: bool,         // the event context still holds the fiber
    early: bool,              // history: the flag was set when the fiber registered last
    refused: bool,            // history: since then epoll_ctl has refused to let cancelEvent remove it
    marker: Option<nat>       // history: the round whose callback set it
  )

  const START: Call := Call(Try, [], false, false, false, false, None)

  datatype Action =
    | SystemCall(again: bool)   // the original function: EAGAIN, or anything else
    | Register(ok: bool)        // addEvent
    | Yield
    | Wake                      // the event fires, or another thread cancels it
    | Resume                    // a worker switches back: cancel the timer, look at the flag
    | Expire(k: nat)            // listExpiredCbs takes the callback of round k
    | Begin(k: nat)             // it runs up to setting the flag
    | CancelEvent(k: nat, ok: bool) // and calls cancelEvent, which epoll_ctl may refuse

  predicate Enabled(c: Call, a: Action) {
    match a
    case SystemCall(_) => c.phase == Try
    case Register(_) => c.phase == HasTimer
    case Yield => c.phase == Registered
    case Wake => c.registered
    case Resume => c.phase == Suspended && !c.registered
    case Expire(k) => k < |c.callbacks| && c.callbacks[k] == InSet
    case Begin(k) => k < |c.callbacks| && c.callbacks[k] == Taken
    case CancelEvent(k, _) => k < |c.callbacks| && c.callbacks[k] == Marked
  }

  /** timer->cancel() on the timer of this round. */
  function CancelTimer(cs: seq<Callback>): seq<Callback> {
    if cs != [] && cs[|cs| - 1] == InSet then cs[|cs| - 1 := Cancelled] else cs
  }

  function Do(c: Call, a: Action): Call
    requires Enabled(c, a)
  {
    match a
    case SystemCall(again) =>
      if again then c.(phase := HasTimer, callbacks := c.callbacks + [InSet]) else c.(phase := Returned(Value))
    case Register(ok) =>
      if ok then c.(phase := Registered, registered := true, early := c.cancelled, refused := false)
      else c.(phase := Returned(Error), callbacks := CancelTimer(c.callbacks))
    case Yield => c.(phase := Suspended)
    case Wake => c.(registered := false)
    case Resume => c.(phase := if c.cancelled then Returned(TimedOut) else Try, callbacks := CancelTimer(c.callbacks))
    case Expire(k) => c.(callbacks := c.callbacks[k := Taken])
    case Begin(k) =>
      // the shared information is gone once the call has returned, and the first callback to come wins
      if c.phase.Returned? || c.cancelled then c.(callbacks := c.callbacks[k := Done])
      else c.(cancelled := true, marker := Some(k), callbacks := c.callbacks[k := Marked])
    case CancelEvent(k, ok) =>
      if c.registered && !ok then c.(callbacks := c.callbacks[k := Done], refused := true)
      else c.(callbacks := c.callbacks[k := Done], registered := false)
  }

  ghost predicate Run(calls: seq<Call>, acts: seq<Action>) {
    && |calls| == |acts| + 1 && calls[0] == START
    && forall i {:trigger acts[i]} :: 0 <= i < |acts| ==>
          Enabled(calls[i], acts[i]) && calls[i + 1] == Do(calls[i], acts[i])
  }

  /** Round k's callback is between setting the flag and cancelEvent. */
  predicate IsMarked(c: Call, k: nat) {
    k < |c.callbacks| && c.callbacks[k] == Marked
  }

  predicate IsInSet(c: Call, k: nat) {
    k < |c.callbacks| && c.callbacks[k] == InSet
  }

  /** Round k's callback has run. */
  predicate HasBegun(c: Call, k: nat) {
    k < |c.callbacks| && (c.callbacks[k].Marked? || c.callbacks[k].Done?)
  }

  /** The timer of the last round has not been used or cancelled. */
  predicate LastIsPending(c: Call) {
    c.callbacks != [] && (c.callbacks[|c.callbacks| - 1].InSet? || c.callbacks[|c.callbacks| - 1].Taken?)
  }

  /** Something is still on its way that will end the wait for lack of time. */
  predicate CanTimeOut(c: Call) {
    if c.marker.None? then LastIsPending(c) else IsMarked(c, c.marker.value)
  }

  ghost predicate Inv(c: Call) {
    && (c.registered ==> c.phase.Registered? || c.phase.Suspended?)
    && (c.cancelled <==> c.marker.Some?)
    && (c.marker.Some? ==> HasBegun(c, c.marker.value))
    && (forall j: nat :: IsMarked(c, j) ==> c.marker == Some(j))
    && (c.phase == Returned(TimedOut) ==> c.cancelled)
    && (c.registered && !c.early && !c.refused ==> CanTimeOut(c))
    && (c.phase == HasTimer && !c.cancelled ==> CanTimeOut(c))
    && (c.registered && (c.early || c.refused) ==> c.cancelled)
    && (c.registered && c.refused ==> !CanTimeOut(c))
    && (forall j: nat :: IsInSet(c, j) ==> c.phase != Try && !c.phase.Returned? && j + 1 == |c.callbacks|)
  }

  lemma KeepsMarks(c: Call, a: Action)
    requires Inv(c) && Enabled(c, a)
    ensures forall j: nat :: IsMarked(Do(c, a), j) ==> Do(c, a).marker == Some(j)
  {
    forall j: nat | IsMarked(Do(c, a), j)
      ensures Do(c, a).marker == Some(j)
    {
      assert IsMarked(c, j) || a == Begin(j);
    }
  }

  lemma KeepsSet(c: Call, a: Action)
    requires Inv(c) && Enabled(c, a)
    ensures forall j: nat :: IsInSet(Do(c, a), j) ==>
              Do(c, a).phase != Try && !Do(c, a).phase.Returned? && j + 1 == |Do(c, a).callbacks|
  {
    forall j: nat | IsInSet(Do(c, a), j)
      ensures Do(c, a).phase != Try && !Do(c, a).phase.Returned? && j + 1 == |Do(c, a).callbacks|
    {
      assert IsInSet(c, j) || a.SystemCall?;
    }
  }

  lemma Keeps(c: Call, a: Action)
    requires Inv(c) && Enabled(c, a)
    ensures Inv(Do(c, a))
  {
    assert a.CancelEvent? ==> IsMarked(c, a.k);
    KeepsMarks(c, a);
    KeepsSet(c, a);
  }

  lemma {:induction false} RunKeeps(calls: seq<Call>, acts: seq<Action>, i: nat)
    requires Run(calls, acts) && i < |calls|
    ensures Inv(calls[i])
  {
    if i > 0 {
      RunKeeps(calls, acts, i - 1);
      Keeps(calls[i - 1], acts[i - 1]);
    }
  }

  /** A call that has returned has left no timer in the set, whichever way it returned. */
  lemma {:induction false} ReturnedLeavesNoTimer(calls: seq<Call>, acts: seq<Action>, i: nat, k: nat)
    requires Run(calls, acts) && i < |calls| && calls[i].phase.Returned? && k < |calls[i].callbacks|
    ensures calls[i].callbacks[k] != InSet
  {
    RunKeeps(calls, acts, i);
    assert !IsInSet(calls[i], k);
  }

  /** A call that has returned stays as it is, and why it has returned is in the run. */
  lemma ReturnsBy(c: Call, a: Action)
    requires Enabled(c, a)
    ensures c.phase.Returned? ==> Do(c, a).phase == c.phase
    ensures !c.phase.Returned? ==>
              && (Do(c, a).phase == Returned(Value) <==> a == SystemCall(false))
              && (Do(c, a).phase == Returned(Error) <==> a == Register(false))
              && (Do(c, a).phase == Returned(TimedOut) <==> a == Resume && c.cancelled)
    ensures c.phase.Returned? ==> !a.SystemCall? && !a.Register? && !a.Resume?
  {
  }

  lemma {:induction false} ReturnedAt(calls: seq<Call>, acts: seq<Action>, i: nat, result: Result,
                                      cause: (Call, Action) -> bool)
    requires Run(calls, acts) && i < |calls|
    requires forall c, a {:trigger cause(c, a)} :: Enabled(c, a) ==>
               (Do(c, a).phase == Returned(result) <==> c.phase == Returned(result) || cause(c, a))
    ensures calls[i].phase == Returned(result) <==> exists j: nat :: j < i && cause(calls[j], acts[j])
  {
    hide Do, Enabled;
    if i > 0 {
      ReturnedAt(calls, acts, i - 1, result, cause);
      var last := cause(calls[i - 1], acts[i - 1]);
      assert last ==> exists j: nat :: j < i && cause(calls[j], acts[j]);
    }
  }

  /**
   * The call returns what the original function did if and only if that did not say EAGAIN, an error of its own if and
   * only if addEvent failed, and a timeout if and only if the flag was set when a worker switched back to it.
   */
  lemma {:induction false} ReturnsExactly(calls: seq<Call>, acts: seq<Action>, i: nat)
    requires Run(calls, acts) && i < |calls|
    ensures calls[i].phase == Returned(Value) <==> exists j: nat :: j < i && acts[j] == SystemCall(false)
    ensures calls[i].phase == Returned(Error) <==> exists j: nat :: j < i && acts[j] == Register(false)
    ensures calls[i].phase == Returned(TimedOut) <==> exists j: nat :: j < i && acts[j] == Resume && calls[j].cancelled
  {
    hide Do, Enabled, Run;
    forall c, a | Enabled(c, a) {
      ReturnsBy(c, a);
    }
    ReturnedAt(calls, acts, i, Value, (c, a) => a == SystemCall(false));
    ReturnedAt(calls, acts, i, Error, (c, a) => a == Register(false));
    ReturnedAt(calls, acts, i, TimedOut, (c: Call, a: Action) => a == Resume && c.cancelled);
  }

  /**
   * A registered fiber's wait can still time out, unless epoll_ctl has refused the timeout's cancelEvent or the flag
   * had been set before it registered; then it can exactly as long as that callback has not called cancelEvent.
   */
  lemma TimeoutIsPending(calls: seq<Call>, acts: seq<Action>, i: nat)
    requires Run(calls, acts) && i < |calls| && calls[i].registered
    ensures !calls[i].early ==> (CanTimeOut(calls[i]) <==> !calls[i].refused)
    ensures calls[i].early ==> (CanTimeOut(calls[i]) <==> exists k: nat :: IsMarked(calls[i], k))
  {
    RunKeeps(calls, acts, i);
    if calls[i].early && CanTimeOut(calls[i]) {
      assert IsMarked(calls[i], calls[i].marker.value);
    }
  }

  /**
   * A timeout is reported only if the callback of one of this call's own timers has set the flag, and at most one
   * has.
   */
  lemma TimedOutMeansExpired(calls: seq<Call>, acts: seq<Action>, i: nat, j: nat, k: nat)
    requires Run(calls, acts) && i < |calls|
    ensures calls[i].phase == Returned(TimedOut) ==> calls[i].marker.Some? && HasBegun(calls[i], calls[i].marker.value)
    ensures IsMarked(calls[i], j) && IsMarked(calls[i], k) ==> j == k
  {
    RunKeeps(calls, acts, i);
  }

  /** Once lost, the timeout stays lost: only an event or another thread ends that wait. */
  lemma LostStaysLost(c: Call, a: Action)
    requires Inv(c) && Enabled(c, a) && c.registered && !CanTimeOut(c)
    ensures a == Wake || (Do(c, a).registered && !CanTimeOut(Do(c, a)))
  {
    assert a.CancelEvent? ==> IsMarked(c, a.k);
  }

  ghost predicate Reached(c: Call) {
    exists calls, acts :: Run(calls, acts) && calls[|acts|] == c
  }

  lemma Reach(c: Call, a: Action) returns (d: Call)
    requires Reached(c) && Enabled(c, a)
    ensures d == Do(c, a) && Reached(d)
  {
    d := Do(c, a);
    var calls, acts :| Run(calls, acts) && calls[|acts|] == c;
    assert Run(calls + [d], acts + [a]);
  }

  /** A timer that runs out before addEvent: cancelEvent finds nothing, and the fiber is suspended without a timeout. */
  lemma TimeoutLost() returns (c: Call)
    ensures Reached(c) && c.phase == Suspended && c.registered && !CanTimeOut(c)
  {
    assert Run([START], []);
    c := START;
    c := Reach(c, SystemCall(true));
    c := Reach(c, Expire(0));
    c := Reach(c, Begin(0));
    c := Reach(c, CancelEvent(0, true));
    c := Reach(c, Register(true));
    c := Reach(c, Yield);
  }

  /** A timer that runs out while epoll_ctl refuses to remove the event: the fiber stays suspended without a timeout. */
  lemma RefusalLosesTimeout() returns (c: Call)
    ensures Reached(c) && c.phase == Suspended && c.registered && !c.early && !CanTimeOut(c)
  {
    assert Run([START], []);
    c := START;
    c := Reach(c, SystemCall(true));
    c := Reach(c, Register(true));
    c := Reach(c, Yield);
    c := Reach(c, Expire(0));
    c := Reach(c, Begin(0));
    c := Reach(c, CancelEvent(0, false));
  }

  // ---------------------------------------------------------------- whose timeout it is

  /** From c to d within the same round. */
  ghost predicate Continues(c: Call, d: Call) {
    exists calls, acts :: Path(calls, acts) && calls[0] == c && calls[|acts|] == d && |d.callbacks| == |c.callbacks|
  }

  ghost predicate Path(calls: seq<Call>, acts: seq<Action>) {
    && |calls| == |acts| + 1
    && forall i {:trigger acts[i]} :: 0 <= i < |acts| ==>
          Enabled(calls[i], acts[i]) && calls[i + 1] == Do(calls[i], acts[i])
  }

  /** A timeout may be reported in this round that the callback of an earlier one has caused. */
  ghost predicate CanBeCutShort(c: Call) {
    exists d :: Continues(c, d) && d.phase == Returned(TimedOut) && d.marker.Some? && d.marker.value + 1 < |c.callbacks|
  }

  /**
   * Some earlier round's callback had been taken out of the timer set when its round came to timer->cancel(), and it
   * has set the flag, or not begun while the flag is not set.
   */
  predicate EarlierIsTaken(c: Call) {
    if c.marker.Some? then c.marker.value + 1 < |c.callbacks|
    else exists j: nat :: j + 1 < |c.callbacks| && c.callbacks[j] == Taken
  }

  /** No callback of an earlier round is on its way, and none has set the flag. */
  ghost predicate OwnRound(c: Call, rounds: nat) {
    && rounds <= |c.callbacks|
    && (forall j: nat :: j + 1 < rounds ==> !c.callbacks[j].Taken? && !c.callbacks[j].InSet? && c.marker != Some(j))
  }

  lemma OwnRoundStays(c: Call, a: Action, rounds: nat)
    requires OwnRound(c, rounds) && Enabled(c, a)
    ensures OwnRound(Do(c, a), rounds)
  {
  }

  lemma {:induction false} OwnRoundAll(calls: seq<Call>, acts: seq<Action>, i: nat, rounds: nat)
    requires Path(calls, acts) && i < |calls| && OwnRound(calls[0], rounds)
    ensures OwnRound(calls[i], rounds)
  {
    if i > 0 {
      OwnRoundAll(calls, acts, i - 1, rounds);
      OwnRoundStays(calls[i - 1], acts[i - 1], rounds);
    }
  }

  /** Once set, the flag stays with the callback that set it. */
  lemma {:induction false} MarkerStays(calls: seq<Call>, acts: seq<Action>, i: nat)
    requires Path(calls, acts) && i < |calls| && Inv(calls[0]) && calls[0].marker.Some?
    ensures Inv(calls[i]) && calls[i].marker == calls[0].marker
  {
    if i > 0 {
      MarkerStays(calls, acts, i - 1);
      Keeps(calls[i - 1], acts[i - 1]);
    }
  }

  /**
   * In front of addEvent: a timeout that this round reports can be an earlier one's if and only if an earlier callback
   * had been taken out of the timer set when its own round came to timer->cancel(), and is first.
   */
  lemma {:induction false} CutShortExactly(calls: seq<Call>, acts: seq<Action>, i: nat)
    requires Run(calls, acts) && i < |calls| && calls[i].phase == HasTimer
    ensures CanBeCutShort(calls[i]) <==> EarlierIsTaken(calls[i])
  {
    RunKeeps(calls, acts, i);
    CutShortFrom(calls[i]);
  }

  lemma {:induction false} CutShortFrom(c: Call)
    requires Inv(c) && c.phase == HasTimer
    ensures CanBeCutShort(c) <==> EarlierIsTaken(c)
  {
    if c.marker.Some? {
      if EarlierIsTaken(c) {
        CutShortAtOnce(c);
      }
      forall d | Continues(c, d)
        ensures d.marker == c.marker
      {
        var calls, acts :| Path(calls, acts) && calls[0] == c && calls[|acts|] == d;
        MarkerStays(calls, acts, |acts|);
      }
    } else if EarlierIsTaken(c) {
      var j: nat :| j + 1 < |c.callbacks| && c.callbacks[j] == Taken;
      CutShort(c, j);
    } else {
      NotCutShort(c);
    }
  }

  lemma {:induction false} NotCutShort(c: Call)
    requires Inv(c) && c.phase == HasTimer && c.marker.None? && !EarlierIsTaken(c)
    ensures !CanBeCutShort(c)
  {
    forall j: nat | j + 1 < |c.callbacks|
      ensures !c.callbacks[j].Taken? && !c.callbacks[j].InSet?
    {
      assert !IsInSet(c, j);
    }
    assert OwnRound(c, |c.callbacks|);
    forall d | Continues(c, d)
      ensures d.marker.Some? ==> d.marker.value + 1 >= |c.callbacks|
    {
      var calls, acts :| Path(calls, acts) && calls[0] == c && calls[|acts|] == d;
      OwnRoundAll(calls, acts, |acts|, |c.callbacks|);
    }
  }

  /** The flag is set already, and the event comes. */
  lemma {:induction false} CutShortAtOnce(c: Call)
    requires Inv(c) && c.phase == HasTimer && c.marker.Some? && c.marker.value + 1 < |c.callbacks|
    ensures CanBeCutShort(c)
  {
    var c1 := Do(c, Register(true));
    var c2 := Do(c1, Yield);
    var c3 := Do(c2, Wake);
    var c4 := Do(c3, Resume);
    var calls, acts := [c, c1, c2, c3, c4], [Register(true), Yield, Wake, Resume];
    assert Path(calls, acts);
    assert calls[0] == c && calls[|acts|] == c4;
    assert Continues(c, c4);
  }

  /** A reported timeout is this round's own if all earlier callbacks were cancelled in time. */
  lemma {:induction false} OwnIfCancelled(calls: seq<Call>, acts: seq<Action>, i: nat)
    requires Run(calls, acts) && i < |calls| && calls[i].phase == Returned(TimedOut)
    requires forall j: nat :: j + 1 < |calls[i].callbacks| ==> calls[i].callbacks[j] == Cancelled
    ensures calls[i].marker == Some(|calls[i].callbacks| - 1)
  {
    RunKeeps(calls, acts, i);
  }

  /** But not only then: one that was taken out may still be waiting to begin when the round's own has set the flag. */
  lemma {:induction false} OwnThoughTaken() returns (c: Call)
    ensures Reached(c) && c.phase == Returned(TimedOut) && c.marker == Some(1)
    ensures |c.callbacks| == 2 && c.callbacks[0] == Taken
  {
    c := SecondRound();
    c := Reach(c, Expire(1));
    c := Reach(c, Begin(1));
    c := Reach(c, CancelEvent(1, true));
    c := Reach(c, Yield);
    c := Reach(c, Resume);
  }

  /** That callback runs between addEvent and the yield. */
  lemma {:induction false} CutShort(c: Call, j: nat)
    requires c.phase == HasTimer && !c.cancelled && j + 1 < |c.callbacks| && c.callbacks[j] == Taken
    ensures CanBeCutShort(c)
  {
    var c1 := Do(c, Register(true));
    var c2 := Do(c1, Begin(j));
    var c3 := Do(c2, CancelEvent(j, true));
    var c4 := Do(c3, Yield);
    var c5 := Do(c4, Resume);
    var calls, acts := [c, c1, c2, c3, c4, c5], [Register(true), Begin(j), CancelEvent(j, true), Yield, Resume];
    assert Path(calls, acts);
    assert calls[0] == c && calls[|acts|] == c5;
    assert Continues(c, c5);
  }

  /** A callback taken out in the first round ends the second one, whose own timer has not run out. */
  lemma OldCallbackCutsShort() returns (c: Call)
    ensures Reached(c) && c.phase == Returned(TimedOut) && c.marker == Some(0)
    ensures |c.callbacks| == 2 && c.callbacks[1] == Cancelled
  {
    c := SecondRound();
    c := Reach(c, Begin(0));
    c := Reach(c, CancelEvent(0, true));
    c := Reach(c, Yield);
    c := Reach(c, Resume);
  }

  lemma SecondRound() returns (c: Call)
    ensures Reached(c) && c == Call(Registered, [Taken, InSet], false, true, false, false, None)
  {
    assert Run([START], []);
    c := START;
    c := Reach(c, SystemCall(true));
    c := Reach(c, Register(true));
    c := Reach(c, Yield);
    c := Reach(c, Expire(0));
    c := Reach(c, Wake);
    c := Reach(c, Resume);
    c := Reach(c, SystemCall(true));
    c := Reach(c, Register(true));
  }
}
