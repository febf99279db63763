/** yuan/iomanager.cc: event registration per file descriptor, and its accounting. */
module IoManagers {
  import opened Options
  import opened Words

  /** IOManager::Event without NONE; an Event value of the source is a set of these. */
  datatype Event = READ | WRITE

  /** What a registration runs when it is triggered, and in which scheduler. */
  datatype Handler = Fiber(scheduler: nat, fiber: nat) | Callback(scheduler: nat, cb: nat)

  /** FdContext::EventContext, with None for a null pointer or an empty function. */
  datatype EventContext = EventContext(scheduler: Option<nat>, fiber: Option<nat>, cb: Option<nat>)

  const EMPTY: EventContext := EventContext(None, None, None)

  /** One registered event. */
  datatype Key = Key(fd: nat, event: Event)

  /** A populated context: the scheduler and exactly one of fiber and callback. */
  function ContextOf(h: Handler): EventContext {
    match h
    case Fiber(s, f) => EventContext(Some(s), Some(f), None)
    case Callback(s, c) => EventContext(Some(s), None, Some(c))
  }

  class FdContext {
    const fd: nat
    var readContext: EventContext
    var writeContext: EventContext
    var events: set<Event>

    constructor (fd: nat)
      ensures this.fd == fd && events == {} && readContext == EMPTY && writeContext == EMPTY
    {
      this.fd := fd;
      readContext, writeContext := EMPTY, EMPTY;
      events := {};
    }

    function GetEventContext(event: Event): EventContext
      reads this
    {
      if event.READ? then readContext else writeContext
    }

    method SetEventContext(event: Event, c: EventContext)
      modifies this`readContext, this`writeContext
      ensures GetEventContext(event) == c
      ensures forall e :: e != event ==> GetEventContext(e) == old(GetEventContext(e))
    {
      if event.READ? {
        readContext := c;
      } else {
        writeContext := c;
      }
    }

    /** The bits and the contexts are those of the registrations of this descriptor. */
    ghost predicate Agrees(registered: map<Key, Handler>)
      reads this
    {
      && (forall e :: e in events <==> Key(fd, e) in registered)
      && (forall e :: GetEventContext(e) ==
                      if Key(fd, e) in registered then ContextOf(registered[Key(fd, e)]) else EMPTY)
    }

    /** triggerEvent: hands the handler over and forgets it. A failed assertion of the source is ok == false. */
    method TriggerEvent(event: Event, tasks: seq<Handler>, ghost registered: map<Key, Handler>)
      returns (ok: bool, tasks': seq<Handler>)
      requires Agrees(registered)
      modifies this
      ensures ok <==> event in old(events)
      ensures ok ==> tasks' == tasks + [registered[Key(fd, event)]] && Agrees(registered - {Key(fd, event)})
      ensures ok ==> events == old(events) - {event}
      ensures !ok ==> tasks' == tasks && Agrees(registered) && events == old(events)
    {
      tasks' := tasks;
      if event !in events {
        return false, tasks;
      }
      var c := GetEventContext(event);
      if c.scheduler.None? {
        return false, tasks;
      }
      if c.cb.Some? {
        tasks' := tasks + [Callback(c.scheduler.value, c.cb.value)];
      } else if c.fiber.Some? {
        tasks' := tasks + [Fiber(c.scheduler.value, c.fiber.value)];
      }
      SetEventContext(event, EMPTY);
      events := events - {event};
      ok := true;
    }
  }

  datatype Op = ADD | MOD | DEL

  /** The kernel's side: which events it watches for which descriptor. */
  class Epoll {
    var interest: map<nat, set<Event>>

    constructor ()
      ensures interest == map[]
    {
      interest := map[];
    }

    /** epoll_ctl: refused for a wrong operation, and for any other reason when fault is set. */
    method Ctl(op: Op, fd: nat, events: set<Event>, fault: bool) returns (ok: bool)
      modifies this
      ensures ok <==> !fault && (op == ADD <==> fd !in old(interest))
      ensures interest == if !ok then old(interest)
                          else if op == DEL then old(interest) - {fd} else old(interest)[fd := events]
    {
      ok := !fault && (op == ADD <==> fd !in interest);
      if ok {
        interest := if op == DEL then interest - {fd} else interest[fd := events];
      }
    }
  }

  /** The kernel watches each descriptor for its registered events and no others. */
  ghost predicate Watches(interest: map<nat, set<Event>>, registered: map<Key, Handler>) {
    && (forall fd :: fd in interest ==> interest[fd] != {})
    && (forall k {:trigger k in registered} :: k in registered <==> k.fd in interest && k.event in interest[k.fd])
  }

  /** The events registered for one descriptor. */
  ghost predicate EventsOf(registered: map<Key, Handler>, fd: nat, events: set<Event>) {
    forall e :: e in events <==> Key(fd, e) in registered
  }

  lemma WatchedIffAny(interest: map<nat, set<Event>>, registered: map<Key, Handler>, fd: nat, events: set<Event>)
    requires Watches(interest, registered) && EventsOf(registered, fd, events)
    ensures fd in interest <==> events != {}
    ensures fd in interest ==> interest[fd] == events
  {
    if fd in interest {
      var e :| e in interest[fd];
      assert Key(fd, e) in registered;
      forall e' ensures e' in interest[fd] <==> e' in events {
        assert Key(fd, e') in registered <==> e' in interest[fd];
      }
    } else {
      forall e ensures e !in events {
        assert e in events <==> Key(fd, e) in registered;
      }
    }
  }

  lemma WatchesMore(interest: map<nat, set<Event>>, registered: map<Key, Handler>, fd: nat, events: set<Event>,
                    e: Event, h: Handler)
    requires Watches(interest, registered) && EventsOf(registered, fd, events)
    ensures Watches(interest[fd := events + {e}], registered[Key(fd, e) := h])
  {
  }

  lemma WatchesLess(interest: map<nat, set<Event>>, registered: map<Key, Handler>, fd: nat, events: set<Event>,
                    less: set<Event>,
                    registered': map<Key, Handler>)
    requires Watches(interest, registered) && EventsOf(registered, fd, events) && less <= events
    requires registered' == map k | k in registered && (k.fd == fd ==> k.event in less) :: registered[k]
    ensures Watches(if less == {} then interest - {fd} else interest[fd := less], registered')
  {
  }

  function HandlerOf(registered: map<Key, Handler>, fd: nat, event: Event): seq<Handler> {
    if Key(fd, event) in registered then [registered[Key(fd, event)]] else []
  }

  /** The handlers of these events of a descriptor, READ before WRITE. */
  function Handlers(registered: map<Key, Handler>, fd: nat, events: set<Event>): seq<Handler> {
    (if READ in events then HandlerOf(registered, fd, READ) else [])
    + (if WRITE in events then HandlerOf(registered, fd, WRITE) else [])
  }

  function Without(registered: map<Key, Handler>, fd: nat, events: set<Event>): map<Key, Handler> {
    map k | k in registered && !(k.fd == fd && k.event in events) :: registered[k]
  }

  /** The events idle() takes a report for: EPOLLIN, EPOLLOUT, and both for EPOLLERR or EPOLLHUP. */
  function Reported(input: bool, output: bool, errorOrHangup: bool): set<Event> {
    (if input || errorOrHangup then {READ} else {}) + (if output || errorOrHangup then {WRITE} else {})
  }

  /** A report of one kind is for one event. */
  lemma OneReport(registered: map<Key, Handler>, fd: nat)
    ensures Without(registered, fd, Reported(true, false, false)) == registered - {Key(fd, READ)}
    ensures Without(registered, fd, Reported(false, true, false)) == registered - {Key(fd, WRITE)}
    ensures Key(fd, READ) in registered ==>
              Handlers(registered, fd, Reported(true, false, false)) == [registered[Key(fd, READ)]]
    ensures Key(fd, WRITE) in registered ==>
              Handlers(registered, fd, Reported(false, true, false)) == [registered[Key(fd, WRITE)]]
    ensures Key(fd, READ) in registered ==>
              AnyOf(registered, fd, Reported(true, false, false)) && AllOf(registered, fd, Reported(true, false, false))
    ensures Key(fd, WRITE) in registered ==>
              AnyOf(registered, fd, Reported(false, true, false)) && AllOf(registered, fd, Reported(false, true, false))
  {
    WithoutOne(registered, fd, READ);
    WithoutOne(registered, fd, WRITE);
  }

  lemma WithoutOne(registered: map<Key, Handler>, fd: nat, event: Event)
    ensures Without(registered, fd, {event}) == registered - {Key(fd, event)}
  {
    forall k
      ensures k in Without(registered, fd, {event}) <==> k in registered - {Key(fd, event)}
    {
      assert k == Key(k.fd, k.event);
    }
  }

  /** The registered events of a descriptor are all it can have. */
  lemma AllEvents(registered: map<Key, Handler>, fd: nat, events: set<Event>)
    requires EventsOf(registered, fd, events)
    ensures Without(registered, fd, events) == Without(registered, fd, {READ, WRITE})
    ensures Handlers(registered, fd, events) == Handlers(registered, fd, {READ, WRITE})
  {
    var few, all := Without(registered, fd, events), Without(registered, fd, {READ, WRITE});
    forall k
      ensures k in few <==> k in all
    {
      assert k == Key(k.fd, k.event) && (k.event.READ? || k.event.WRITE?);
    }
    assert few == all;
  }

  /** READ and then WRITE is both. */
  lemma ReadThenWrite(registered: map<Key, Handler>, fd: nat, seen: set<Event>)
    ensures Without(Without(registered, fd, seen * {READ}), fd, seen * {WRITE}) == Without(registered, fd, seen)
    ensures Handlers(registered, fd, seen * {READ})
        + Handlers(Without(registered, fd, seen * {READ}), fd, seen * {WRITE})
         == Handlers(registered, fd, seen)
  {
    var once, twice := Without(registered, fd, seen),
        Without(Without(registered, fd, seen * {READ}), fd, seen * {WRITE});
    forall k: Key
      ensures k in once <==> k in twice
    {
      assert k.event.READ? || k.event.WRITE?;
    }
    assert once == twice;
  }

  predicate AnyOf(registered: map<Key, Handler>, fd: nat, events: set<Event>) {
    exists e :: e in events && Key(fd, e) in registered
  }

  predicate AllOf(registered: map<Key, Handler>, fd: nat, events: set<Event>) {
    forall e :: e in events ==> Key(fd, e) in registered
  }

  lemma SeenEvents(registered: map<Key, Handler>, fd: nat, events: set<Event>, seen: set<Event>)
    requires EventsOf(registered, fd, events)
    ensures AnyOf(registered, fd, seen) <==> events * seen != {}
    ensures AllOf(registered, fd, seen) <==> seen <= events
  {
    if AnyOf(registered, fd, seen) {
      var e :| e in seen && Key(fd, e) in registered;
      assert e in events * seen;
    }
    if e :| e in events * seen {
      assert e in seen && Key(fd, e) in registered;
    }
  }

  datatype AddResult = Added | Failed | Aborted

  class IOManager {
    const epoll: Epoll
    var fdContexts: seq<FdContext>
    var pendingEventCount: int
    var tasks: seq<Handler>                 // what has been handed to schedulers
    ghost var registered: map<Key, Handler> // the events registered now

    ghost predicate Valid()
      reads this, epoll, fdContexts
    {
      && |fdContexts| >= 64 && ContextsAgree()
      && (forall k :: k in registered ==> k.fd < |fdContexts|)
      && pendingEventCount == |registered|
      && Watches(epoll.interest, registered)
    }

    ghost predicate ContextsAgree()
      reads this, fdContexts
    {
      forall i :: 0 <= i < |fdContexts| ==> fdContexts[i].fd == i && fdContexts[i].Agrees(registered)
    }

    constructor ()
      ensures Valid() && registered == map[] && tasks == [] && |fdContexts| == 64
      ensures fresh(epoll) && forall i :: 0 <= i < |fdContexts| ==> fresh(fdContexts[i])
    {
      epoll := new Epoll();
      pendingEventCount := 0;
      tasks, registered := [], map[];
      fdContexts := [];
      new;
      ResizeFdContexts(64);
    }

    /**
     * resizeFdContexts: the list gets this size, and new slots get contexts of their own. A smaller size cuts the list:
     * addEvent computes the size before it has the write lock, so another thread may have made it longer since. The
     * invariant survives if and only if no registered descriptor is cut off.
     */
    method ResizeFdContexts(size: nat)
      modifies this`fdContexts
      ensures |fdContexts| == size
      ensures forall i :: 0 <= i < size && i < |old(fdContexts)| ==> fdContexts[i] == old(fdContexts)[i]
      ensures forall i :: |old(fdContexts)| <= i < size ==> IsNew(fdContexts[i], i) && fresh(fdContexts[i])
      ensures old(Valid()) ==> (Valid() <==> size >= 64 && forall k :: k in registered ==> k.fd < size)
    {
      ghost var before := fdContexts;
      if size < |fdContexts| {
        fdContexts := fdContexts[..size];
      }
      for i := |fdContexts| to size
        invariant |fdContexts| == i
        invariant forall j :: 0 <= j < i && j < |before| ==> fdContexts[j] == before[j]
        invariant forall j :: |before| <= j < i ==> IsNew(fdContexts[j], j) && fresh(fdContexts[j])
      {
        var c := new FdContext(i);
        fdContexts := fdContexts + [c];
      }
    }

    /** A context of this number without events. */
    ghost predicate IsNew(c: FdContext, fd: nat)
      reads c
    {
      c.fd == fd && c.events == {} && c.readContext == EMPTY && c.writeContext == EMPTY
    }

    /** The list of contexts only got longer. */
    twostate predicate Grew()
      reads this
    {
      && old(fdContexts) <= fdContexts
      && forall i :: |old(fdContexts)| <= i < |fdContexts| ==> fresh(fdContexts[i])
    }

    /** The lookup in addEvent: an unknown descriptor makes the list half as long again as its number. */
    method FindContext(fd: nat) returns (c: FdContext)
      requires Valid()
      modifies this`fdContexts
      ensures Valid() && Grew()
      ensures fd < |fdContexts| && c == fdContexts[fd]
      ensures |fdContexts| == if fd < |old(fdContexts)| then |old(fdContexts)| else fd * 3 / 2
    {
      if fd >= |fdContexts| {
        ResizeFdContexts(fd * 3 / 2);
      }
      c := fdContexts[fd];
    }

    /**
     * addEvent by a fiber (cb absent) or with a callback. It aborts when the event is registered already,
     * fails when epoll_ctl does, and otherwise registers exactly this handler.
     */
    method AddEvent(fd: nat, event: Event, h: Handler, fault: bool) returns (r: AddResult)
      requires Valid()
      modifies this`fdContexts, this`pendingEventCount, this`registered, epoll, fdContexts
      ensures Valid() && Grew() && tasks == old(tasks)
      ensures r == if Key(fd, event) in old(registered) then Aborted else if fault then Failed else Added
      ensures registered == if r == Added then old(registered)[Key(fd, event) := h] else old(registered)
      ensures |fdContexts| == if fd < |old(fdContexts)| then |old(fdContexts)| else fd * 3 / 2
    {
      var c := FindContext(fd);
      r := Register(c, event, h, fault);
    }

    method Register(c: FdContext, event: Event, h: Handler, fault: bool) returns (r: AddResult)
      requires Valid() && c in fdContexts
      modifies this`pendingEventCount, this`registered, epoll, fdContexts
      ensures Valid()
      ensures r == if Key(c.fd, event) in old(registered) then Aborted else if fault then Failed else Added
      ensures registered == if r == Added then old(registered)[Key(c.fd, event) := h] else old(registered)
    {
      hide Watches;
      if event in c.events {
        return Aborted;
      }
      var op := if c.events != {} then MOD else ADD;
      WatchedIffAny(epoll.interest, registered, c.fd, c.events);
      WatchesMore(epoll.interest, registered, c.fd, c.events, event, h);
      var ok := epoll.Ctl(op, c.fd, c.events + {event}, fault);
      if !ok {
        return Failed;
      }
      pendingEventCount := pendingEventCount + 1;
      Enter(c, event, h);
      r := Added;
    }

    /** Setting the bit and the context of one more registration. */
    method Enter(c: FdContext, event: Event, h: Handler)
      requires ContextsAgree() && c in fdContexts && event !in c.events
      modifies this`registered, fdContexts
      ensures ContextsAgree() && registered == old(registered)[Key(c.fd, event) := h]
    {
      c.events := c.events + {event};
      assert c.GetEventContext(event) == EMPTY;
      c.SetEventContext(event, ContextOf(h));
      registered := registered[Key(c.fd, event) := h];
    }

    /** Clearing the bit and the context of a registration. */
    method Forget(c: FdContext, event: Event)
      requires ContextsAgree() && c in fdContexts && event in c.events
      modifies this`registered, fdContexts
      ensures ContextsAgree() && registered == old(registered) - {Key(c.fd, event)}
    {
      c.events := c.events - {event};
      c.SetEventContext(event, EMPTY);
      registered := registered - {Key(c.fd, event)};
    }

    /** triggerEvent and the decrement behind it, for an event that is registered. */
    method Trigger(c: FdContext, event: Event)
      requires ContextsAgree() && c in fdContexts && event in c.events
      modifies this`registered, this`tasks, this`pendingEventCount, fdContexts
      ensures ContextsAgree() && registered == old(registered) - {Key(c.fd, event)}
      ensures Key(c.fd, event) in old(registered) && tasks == old(tasks) + [old(registered)[Key(c.fd, event)]]
      ensures pendingEventCount - |registered| == old(pendingEventCount - |registered|)
      ensures c.events == old(c.events) - {event}
    {
      var sure;
      sure, tasks := c.TriggerEvent(event, tasks, registered);
      pendingEventCount := pendingEventCount - 1;
      registered := registered - {Key(c.fd, event)};
    }

    /** epoll_ctl on the way to fewer events: MOD while some are left, DEL otherwise. Only a fault makes it fail. */
    method Narrow(c: FdContext, left: set<Event>, fault: bool, ghost fewer: map<Key, Handler>) returns (ok: bool)
      requires Watches(epoll.interest, registered) && EventsOf(registered, c.fd, c.events) && left < c.events
      requires fewer == map k | k in registered && (k.fd == c.fd ==> k.event in left) :: registered[k]
      modifies epoll
      ensures ok <==> !fault
      ensures Watches(epoll.interest, if ok then fewer else registered)
    {
      WatchedIffAny(epoll.interest, registered, c.fd, c.events);
      WatchesLess(epoll.interest, registered, c.fd, c.events, left, fewer);
      ok := epoll.Ctl(if left != {} then MOD else DEL, c.fd, left, fault);
    }

    /** delEvent: forgets the registration without running its handler. */
    method DelEvent(fd: nat, event: Event, fault: bool) returns (ok: bool)
      requires Valid()
      modifies this`pendingEventCount, this`registered, epoll, fdContexts
      ensures Valid()
      ensures ok <==> Key(fd, event) in old(registered) && !fault
      ensures registered == if ok then old(registered) - {Key(fd, event)} else old(registered)
    {
      hide Watches;
      if fd >= |fdContexts| {
        return false;
      }
      var c := fdContexts[fd];
      if event !in c.events {
        return false;
      }
      var left := c.events - {event};
      ok := Narrow(c, left, fault, registered - {Key(fd, event)});
      if !ok {
        return false;
      }
      pendingEventCount := pendingEventCount - 1;
      Forget(c, event);
    }

    /** cancelEvent: as delEvent, but the handler is handed to its scheduler. */
    method CancelEvent(fd: nat, event: Event, fault: bool) returns (ok: bool)
      requires Valid()
      modifies this`pendingEventCount, this`registered, this`tasks, epoll, fdContexts
      ensures Valid()
      ensures ok <==> Key(fd, event) in old(registered) && !fault
      ensures registered == if ok then old(registered) - {Key(fd, event)} else old(registered)
      ensures tasks == if ok then old(tasks) + [old(registered)[Key(fd, event)]] else old(tasks)
    {
      hide Watches;
      if fd >= |fdContexts| {
        return false;
      }
      var c := fdContexts[fd];
      if event !in c.events {
        return false;
      }
      var left := c.events - {event};
      ok := Narrow(c, left, fault, registered - {Key(fd, event)});
      if !ok {
        return false;
      }
      Trigger(c, event);
    }

    /** `if (seen & event)` around triggerEvent and the decrement; a failed assertion of triggerEvent is ok == false. */
    method TriggerIf(c: FdContext, event: Event, seen: set<Event>) returns (ok: bool)
      requires ContextsAgree() && c in fdContexts
      modifies this`registered, this`tasks, this`pendingEventCount, fdContexts
      ensures ok <==> seen * {event} <= old(c.events)
      ensures ok ==> ContextsAgree() && registered == Without(old(registered), c.fd, seen * {event})
      ensures ok ==> tasks == old(tasks) + Handlers(old(registered), c.fd, seen * {event})
      ensures ok ==> pendingEventCount - |registered| == old(pendingEventCount - |registered|)
      ensures ok ==> c.events == old(c.events) - seen * {event}
    {
      if event in seen {
        if event !in c.events {
          return false;
        }
        Trigger(c, event);
      }
      assert registered == Without(old(registered), c.fd, seen * {event});
      ok := true;
    }

    /** READ, then WRITE. */
    method TriggerAll(c: FdContext, seen: set<Event>) returns (ok: bool)
      requires ContextsAgree() && c in fdContexts
      modifies this`registered, this`tasks, this`pendingEventCount, fdContexts
      ensures ok <==> seen <= old(c.events)
      ensures ok ==> ContextsAgree() && registered == Without(old(registered), c.fd, seen)
      ensures ok ==> tasks == old(tasks) + Handlers(old(registered), c.fd, seen)
      ensures ok ==> pendingEventCount - |registered| == old(pendingEventCount - |registered|)
    {
      ReadThenWrite(registered, c.fd, seen);
      ok := TriggerIf(c, READ, seen);
      if ok {
        ok := TriggerIf(c, WRITE, seen);
      }
    }

    /** cancelAll: both events of a descriptor, the handler of READ first. */
    method CancelAll(fd: nat, fault: bool) returns (ok: bool)
      requires Valid()
      modifies this`pendingEventCount, this`registered, this`tasks, epoll, fdContexts
      ensures Valid()
      ensures ok <==> !fault && (Key(fd, READ) in old(registered) || Key(fd, WRITE) in old(registered))
      ensures registered == if ok then Without(old(registered), fd, {READ, WRITE}) else old(registered)
      ensures tasks == if ok then old(tasks) + Handlers(old(registered), fd, {READ, WRITE}) else old(tasks)
    {
      if fd >= |fdContexts| {
        return false;
      }
      var c := fdContexts[fd];
      if c.events == {} {
        return false;
      }
      ok := Narrow(c, {}, fault, Without(registered, fd, {READ, WRITE}));
      if !ok {
        return false;
      }
      AllEvents(registered, fd, c.events);
      var sure := TriggerAll(c, c.events);
    }

    /** One report, as the events it is taken for. */
    method DeliverEvents(fd: nat, seen: set<Event>, fault: bool) returns (aborted: bool)
      requires Valid() && fd < |fdContexts|
      modifies this`pendingEventCount, this`registered, this`tasks, epoll, fdContexts
      ensures aborted <==> !fault && AnyOf(old(registered), fd, seen) && !AllOf(old(registered), fd, seen)
      ensures !aborted ==> Valid()
      ensures !aborted && (fault || !AnyOf(old(registered), fd, seen)) ==>
                registered == old(registered) && tasks == old(tasks)
      ensures !aborted && !fault && AnyOf(old(registered), fd, seen) ==>
                && registered == Without(old(registered), fd, seen)
                && tasks == old(tasks) + Handlers(old(registered), fd, seen)
    {
      hide Watches, Handlers;
      var c := fdContexts[fd];
      SeenEvents(registered, fd, c.events, seen);
      if c.events * seen == {} {
        return false;
      }
      var left := c.events - seen;
      var ok := Narrow(c, left, fault, Without(registered, fd, seen));
      if !ok {
        return false;
      }
      ok := TriggerAll(c, seen);
      aborted := !ok;
    }

    /**
     * idle() handling one reported epoll_event of a descriptor. An error or hang-up counts as both events. If
     * that names an event nobody registered beside one that somebody did, the assertion in triggerEvent fails.
     */
    method Deliver(fd: nat, input: bool, output: bool, errorOrHangup: bool, fault: bool) returns (aborted: bool)
      requires Valid() && fd < |fdContexts|
      modifies this`pendingEventCount, this`registered, this`tasks, epoll, fdContexts
      ensures var seen := Reported(input, output, errorOrHangup);
              aborted <==> !fault && AnyOf(old(registered), fd, seen) && !AllOf(old(registered), fd, seen)
      ensures !aborted ==> Valid()
      ensures !aborted && (fault || !AnyOf(old(registered), fd, Reported(input, output, errorOrHangup))) ==>
                registered == old(registered) && tasks == old(tasks)
      ensures !aborted && !fault && AnyOf(old(registered), fd, Reported(input, output, errorOrHangup)) ==>
                && registered == Without(old(registered), fd, Reported(input, output, errorOrHangup))
                && tasks == old(tasks) + Handlers(old(registered), fd, Reported(input, output, errorOrHangup))
      ensures !fault && input && !output && !errorOrHangup && Key(fd, READ) in old(registered) ==>
                && !aborted && registered == old(registered) - {Key(fd, READ)}
                && tasks == old(tasks) + [old(registered)[Key(fd, READ)]]
      ensures !fault && output && !input && !errorOrHangup && Key(fd, WRITE) in old(registered) ==>
                && !aborted && registered == old(registered) - {Key(fd, WRITE)}
                && tasks == old(tasks) + [old(registered)[Key(fd, WRITE)]]
    {
      hide *;
      OneReport(registered, fd);
      aborted := DeliverEvents(fd, Reported(input, output, errorOrHangup), fault);
    }
  }

  /**
   * Two calls of addEvent on a fresh IOManager, for descriptors 200 and 100, that both find the list too short: the
   * second resizes it to 150 after the first has registered, and the registration has no context any more.
   */
  method ShrinkLosesEvent(h: Handler) returns (io: IOManager)
    ensures Key(200, READ) in io.registered && |io.fdContexts| == 150 && !io.Valid()
  {
    io := new IOManager();
    var r := io.AddEvent(200, READ, h, false);
    io.ResizeFdContexts(100 * 3 / 2);
    assert Key(200, READ) in io.registered;
  }

  /** An error report for a descriptor with only READ registered. */
  method HangUpAborts(h: Handler) returns (io: IOManager, aborted: bool)
    ensures aborted
  {
    io := new IOManager();
    var r := io.AddEvent(5, READ, h, false);
    assert Key(5, READ) in io.registered && Key(5, WRITE) !in io.registered;
    aborted := io.Deliver(5, false, false, true, false);
  }

  /** What the invariant says of one descriptor, in the terms of the source. */
  lemma Accounting(io: IOManager, fd: nat)
    requires io.Valid() && fd < |io.fdContexts|
    ensures io.pendingEventCount == |io.registered|
    ensures var c := io.fdContexts[fd];
            && (fd in io.epoll.interest <==> c.events != {})
            && (fd in io.epoll.interest ==> io.epoll.interest[fd] == c.events)
            && forall e :: var x := c.GetEventContext(e);
                 if e in c.events then x.scheduler.Some? && (x.fiber.Some? <==> x.cb.None?) else x == EMPTY
  {
    WatchedIffAny(io.epoll.interest, io.registered, fd, io.fdContexts[fd].events);
  }

  // ---------------------------------------------------------------- how long idle() sleeps

  const MAX_TIMEOUT: int := 3000
  /** The timeout idle() passes to epoll_wait for the time to the next timer; a negative one waits for ever. */
  function EpollTimeout(next: nat): int {
    if next == U64 - 1 then MAX_TIMEOUT
    else if CastToInt(next) < MAX_TIMEOUT then CastToInt(next) else MAX_TIMEOUT
  }

  /** idle() sleeps no longer than until the next timer exactly when bit 31 of that time is clear. */
  lemma TimeoutIsSafe(next: nat)
    requires next < U64
    ensures 0 <= EpollTimeout(next) <= MAX_TIMEOUT && EpollTimeout(next) <= next
      <==> next == U64 - 1 || next / INT_LIMIT % 2 == 0
    ensures next < INT_LIMIT ==> EpollTimeout(next) == if next < MAX_TIMEOUT then next else MAX_TIMEOUT
  {
    var q := next / INT_LIMIT;
    assert next % U32 == next % INT_LIMIT + INT_LIMIT * (q % 2) by {
      ModStep(next, INT_LIMIT, 2, U32);
    }
  }

  /** A timer 2^31 milliseconds away, some 25 days, makes idle() wait without a limit. */
  lemma TimeoutLost()
    ensures EpollTimeout(INT_LIMIT) < 0
  {
  }
}
