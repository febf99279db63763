/**
 * yuan/timer.cc: an ordered set of timers keyed by a field that changes. A step is one locked region; clearing
 * m_tickled in getNextTimer and the call of onTimerInsertedAtFront lie outside the lock and are steps of their own.
 */
module Timers {
  import opened Options
  import opened Words

  class Timer {
    const addr: nat           // the address, which orders timers due at the same time
    const recurring: bool
    var ms: nat
    var next: nat
    var cb: Option<nat>
    ghost const callable: bool // created with a callback
    ghost var base: nat        // the clock reading the deadline counts from
    ghost var fired: nat       // how often listExpiredCbs has returned it
    ghost var cancelled: bool

    constructor (addr: nat, ms: nat, cb: Option<nat>, recurring: bool, now: nat)
      ensures this.addr == addr && this.ms == ms && this.cb == cb && this.recurring == recurring
      ensures next == (now + ms) % U64 && base == now && fired == 0 && !cancelled && callable == cb.Some?
    {
      this.addr, this.ms, this.cb, this.recurring := addr, ms, cb, recurring;
      next := (now + ms) % U64;
      base, fired, cancelled, callable := now, 0, false, cb.Some?;
    }
  }

  /** Timer::Comparator. */
  predicate Less(a: Timer, b: Timer)
    reads a, b
  {
    a.next < b.next || (a.next == b.next && a.addr < b.addr)
  }

  ghost predicate Sorted(s: seq<Timer>)
    reads s
  {
    forall i, j :: 0 <= i < j < |s| ==> Less(s[i], s[j])
  }

  predicate Distinct(s: seq<Timer>) {
    forall i, j :: 0 <= i < j < |s| ==> s[i] != s[j]
  }

  lemma SortedIsDistinct(s: seq<Timer>)
    requires Sorted(s)
    ensures Distinct(s)
  {
    forall i, j | 0 <= i < j < |s|
      ensures s[i] != s[j]
    {
      assert Less(s[i], s[j]);
    }
  }

  ghost function CbsOf(s: seq<Timer>): (r: seq<Option<nat>>)
    reads s
    ensures |r| == |s| && forall i :: 0 <= i < |s| ==> r[i] == s[i].cb
  {
    if s == [] then [] else [s[0].cb] + CbsOf(s[1..])
  }

  ghost function FiredOf(s: seq<Timer>): (r: seq<nat>)
    reads s
    ensures |r| == |s| && forall i :: 0 <= i < |s| ==> r[i] == s[i].fired
  {
    if s == [] then [] else [s[0].fired] + FiredOf(s[1..])
  }

  ghost function MsOf(s: seq<Timer>): (r: seq<nat>)
    reads s
    ensures |r| == |s| && forall i :: 0 <= i < |s| ==> r[i] == s[i].ms
  {
    if s == [] then [] else [s[0].ms] + MsOf(s[1..])
  }

  /** The set's find: the element that is neither less nor greater, or the end. */
  method Find(s: seq<Timer>, t: Timer) returns (i: nat)
    requires Sorted(s)
    requires forall j :: 0 <= j < |s| && s[j].addr == t.addr ==> s[j] == t
    ensures i <= |s| && (i < |s| <==> t in s)
    ensures i < |s| ==> s[i] == t
  {
    i := 0;
    while i < |s| && Less(s[i], t)
      invariant i <= |s| && forall j :: 0 <= j < i ==> Less(s[j], t)
    {
      i := i + 1;
    }
    if i < |s| && Less(t, s[i]) {
      i := |s|;
    }
  }

  /** The set's insert of an element that is not there, and its place. */
  method Insert(s: seq<Timer>, t: Timer) returns (s': seq<Timer>, i: nat)
    requires Sorted(s)
    requires forall j :: 0 <= j < |s| ==> s[j].addr != t.addr
    ensures Sorted(s') && i <= |s| && s' == s[..i] + [t] + s[i..]
  {
    i := 0;
    while i < |s| && Less(s[i], t)
      invariant i <= |s| && forall j :: 0 <= j < i ==> Less(s[j], t)
    {
      i := i + 1;
    }
    s' := s[..i] + [t] + s[i..];
  }

  predicate RolledBack(now: nat, previous: nat) {
    now < (previous - 60 * 60 * 1000) % U64
  }

  /** More than an hour before; a clock in its first hour counts as 2^64 milliseconds further on. */
  predicate HourBefore(now: nat, last: nat) {
    now + 3_600_000 < last || (last < 3_600_000 && now + 3_600_000 < last + U64)
  }

  lemma RolledBackIsAnHour(now: nat, previous: nat)
    requires now < U64 && previous < U64
    ensures RolledBack(now, previous) <==> HourBefore(now, previous)
  {
  }

  /** The set's upper_bound of a timer due now at this address. */
  method UpperBound(s: seq<Timer>, now: nat, addr: nat) returns (k: nat)
    requires Sorted(s)
    ensures k <= |s|
    ensures forall j :: 0 <= j < k ==> s[j].next < now || (s[j].next == now && s[j].addr <= addr)
    ensures forall j :: k <= j < |s| ==> now < s[j].next || (s[j].next == now && addr < s[j].addr)
  {
    k := 0;
    while k < |s| && !(now < s[k].next || (now == s[k].next && addr < s[k].addr))
      invariant k <= |s|
      invariant forall j :: 0 <= j < k ==> s[j].next < now || (s[j].next == now && s[j].addr <= addr)
    {
      k := k + 1;
    }
  }

  /** Taking the old period off a deadline and adding the new one counts it from the same past reading. */
  lemma SamePast(base: nat, was: nat, ms: nat)
    ensures ((base + was) % U64 - was + ms) % U64 == (base + ms) % U64
  {
  }

  function Waiting(s: seq<Timer>, i: nat): set<Timer>
    requires i <= |s|
  {
    set t | t in s[i..]
  }

  lemma {:induction false} WaitingNext(s: seq<Timer>, i: nat)
    requires Distinct(s) && i < |s|
    ensures s[i] in Waiting(s, i) && Waiting(s, i) - {s[i]} == Waiting(s, i + 1)
  {
    assert s[i..] == [s[i]] + s[i + 1..];
  }

  lemma Emptied<K, V>(m: map<K, V>, out: set<K>)
    ensures m - out == map[] <==> m.Keys <= out
  {
    if m - out == map[] {
      forall k | k in m.Keys
        ensures k in out
      {
        assert k !in m - out;
      }
    }
  }

  /** What a thread that has called getNextTimer will wait for; Pending while the call has not read the set yet. */
  datatype Deadline = Pending | Until(at: nat) | Forever

  lemma InSlices<T>(s: seq<T>, k: nat, x: T)
    requires k <= |s| && (x in s[k..] || x in s[..k])
    ensures x in s
  {
  }

  class TimerManager {
    var timers: seq<Timer>        // m_timers, a std::set in the order of Less
    var tickled: bool
    var previousTime: nat
    ghost var known: set<Timer>   // all timers that exist
    ghost var clock: nat          // the latest clock reading of any thread
    ghost var polls: map<nat, Deadline> // threads not notified since they began to poll
    ghost var notifying: nat      // calls of onTimerInsertedAtFront that are decided and not made yet

    // ---------------------------------------------------------------- integrity of the set

    ghost predicate Valid()
      reads this`timers, this`clock, this`known, known, timers
    {
      && Sorted(timers) && (forall t :: t in timers ==> t in known)
      && (forall t :: t in known ==> TimerOk(t))
      && (forall s, t :: s in known && t in known && s.addr == t.addr ==> s == t)
    }

    /**
     * A timer made with a callback is in the set exactly while it has one; its deadline is a past clock reading
     * plus its period; and a one-shot timer is in exactly one of three states: waiting, fired once, cancelled.
     */
    ghost predicate TimerOk(t: Timer)
      reads this`timers, this`clock, t
    {
      && t.ms < U64 && t.next == (t.base + t.ms) % U64 && t.base <= clock
      && (if t.callable then t in timers <==> t.cb.Some? else t.cb.None? && !t.cancelled)
      && (if t.recurring then t in timers <==> !t.cancelled
          else t.fired == (if t in timers || t.cancelled then 0 else 1) && !(t in timers && t.cancelled))
    }

    constructor (now: nat)
      ensures Valid() && Awake() && timers == [] && known == {} && clock == now && previousTime == now
      ensures notifying == 0 && polls == map[] && !tickled
    {
      timers, tickled, previousTime := [], false, now;
      known, clock, polls, notifying := {}, now, map[], 0;
    }

    /** Any thread reads the clock. */
    ghost method Tick(now: nat)
      requires Valid() && clock <= now
      modifies this`clock
      ensures Valid() && clock == now && (old(Awake()) ==> Awake())
    {
      clock := now;
    }

    // ---------------------------------------------------------------- waking pollers

    /** No timer is due before what this thread waits for. */
    ghost predicate Covers(d: Deadline)
      reads this, timers
    {
      match d
      case Pending => true
      case Until(at) => timers == [] || at <= timers[0].next
      case Forever => timers == []
    }

    /** Nobody who has not been notified, and is not about to be, can sleep past a timer. */
    ghost predicate Awake()
      reads this, timers
    {
      notifying == 0 ==> (tickled ==> polls == map[]) && forall p :: p in polls ==> Covers(polls[p])
    }

    // ---------------------------------------------------------------- timers

    /** What a cancelled, refreshed or reset timer goes through: the find succeeds and the element is erased. */
    method Erase(t: Timer) returns (found: bool)
      requires Valid() && t in known
      modifies this`timers
      ensures found == (t in old(timers)) && t !in timers && Sorted(timers) && OthersOk({t})
      ensures forall u :: u in timers <==> u in old(timers) && u != t
      ensures old(Awake()) ==> Awake()
      ensures old(Awake()) && found ==> Allows(t.next)
    {
      var i := Find(timers, t);
      found := i < |timers|;
      if found {
        timers := timers[..i] + timers[i + 1..];
      }
    }

    /** A timer due then may go into the set without a notification. */
    ghost predicate Allows(next: nat)
      reads this`notifying, this`polls
    {
      notifying == 0 ==> forall p :: p in polls ==> polls[p] != Forever && (polls[p].Until? ==> polls[p].at <= next)
    }

    lemma AllowsLater(next: nat, later: nat)
      requires Allows(next) && next <= later
      ensures Allows(later)
    {
    }

    /** And only then: nobody may wait for longer than a timer that is in the set. */
    lemma AwakeAllows(t: Timer)
      requires Sorted(timers) && t in timers
      ensures Awake() ==> Allows(t.next)
    {
      var i: nat :| i < |timers| && timers[i] == t;
      assert i > 0 ==> Less(timers[0], timers[i]);
      assert Awake() ==> forall p :: p in polls && notifying == 0 ==> Covers(polls[p]);
    }

    /** All timers but these are in order. */
    ghost predicate OthersOk(out: set<Timer>)
      reads this`timers, this`clock, this`known, known, timers
    {
      && (forall u :: u in timers ==> u in known)
      && (forall u :: u in known && u !in out ==> TimerOk(u))
      && (forall s, u :: s in known && u in known && s.addr == u.addr ==> s == u)
    }

    /** The key of a timer changes while it is not in the set. */
    method Rekey(t: Timer, ms: nat, next: nat, ghost base: nat)
      requires Sorted(timers) && OthersOk({t}) && t !in timers && ms < U64 && next == (base + ms) % U64
      modifies t`next, t`base, t`ms
      ensures Sorted(timers) && OthersOk({t}) && (old(Awake()) ==> Awake())
      ensures t.ms == ms && t.base == base && t.next == next
    {
      t.ms, t.base, t.next := ms, base, next;
    }

    method Cancel(t: Timer) returns (ok: bool)
      requires Valid() && t in known
      modifies this`timers, t`cb, t`cancelled
      ensures Valid() && ok == old(t.cb.Some?)
      ensures ok ==> t in old(timers) && t.cb.None? && t.cancelled
      ensures ok ==> forall u :: u in timers <==> u in old(timers) && u != t
      ensures !ok ==> timers == old(timers) && t.cb == old(t.cb) && t.cancelled == old(t.cancelled)
      ensures old(Awake()) ==> Awake()
    {
      ok := t.cb.Some?;
      if ok {
        var found := Erase(t);
        t.cb := None;
        t.cancelled := true;
      }
    }

    method PutIn(t: Timer, ghost out: set<Timer>) returns (i: nat)
      requires Sorted(timers) && t !in timers && t in known && t in out && OthersOk(out)
      modifies this`timers
      ensures Sorted(timers) && OthersOk(out) && forall u :: u in timers <==> u in old(timers) || u == t
      ensures i <= |old(timers)| && timers == old(timers)[..i] + [t] + old(timers)[i..]
    {
      timers, i := Insert(timers, t);
    }

    /** A plain insert of a timer that is not in the set. */
    method InsertPlain(t: Timer, ghost out: set<Timer>)
      requires Sorted(timers) && t !in timers && t in known && t in out && OthersOk(out)
      modifies this`timers
      ensures Sorted(timers) && OthersOk(out) && forall u :: u in timers <==> u in old(timers) || u == t
      ensures old(Awake()) ==> (Awake() <==> Allows(t.next))
    {
      hide Sorted, OthersOk, TimerOk;
      var i := PutIn(t, out);
      AwakeAllows(t);
    }

    /** The private addTimer, up to the unlock: whether the caller has to call onTimerInsertedAtFront. */
    method AddLocked(t: Timer) returns (atFront: bool)
      requires Sorted(timers) && t !in timers && t in known && OthersOk({t})
      modifies this`timers, this`tickled, this`notifying
      ensures Sorted(timers) && OthersOk({t}) && forall u :: u in timers <==> u in old(timers) || u == t
      ensures old(Awake()) ==> Awake()
      ensures notifying == old(notifying) + if atFront then 1 else 0
      ensures timers != [] && (atFront <==> timers[0] == t && !old(tickled))
      ensures tickled == (old(tickled) || atFront)
    {
      hide Valid, Sorted, OthersOk, TimerOk;
      var i := PutIn(t, {t});
      atFront := i == 0 && !tickled;
      if atFront {
        tickled := true;
        notifying := notifying + 1;
      }
    }

    /** Back into the set with another deadline, and no look at the front. */
    method RequeuePlain(t: Timer, next: nat, ghost base: nat)
      requires Sorted(timers) && OthersOk({t}) && t !in timers && t in known && t.ms < U64
      requires next == (base + t.ms) % U64
      modifies this`timers, t`next, t`base, t`ms
      ensures Sorted(timers) && OthersOk({t}) && (old(Awake()) ==> (Awake() <==> Allows(next)))
      ensures forall u :: u in timers <==> u in old(timers) || u == t
      ensures t.ms == old(t.ms) && t.base == base && t.next == next
    {
      Rekey(t, t.ms, next, base);
      InsertPlain(t, {t});
    }

    /** Back into the set with another key, as addTimer puts it there. */
    method Requeue(t: Timer, ms: nat, next: nat, ghost base: nat) returns (atFront: bool)
      requires Sorted(timers) && OthersOk({t}) && t !in timers && t in known && ms < U64 && next == (base + ms) % U64
      modifies this`timers, this`tickled, this`notifying, t`next, t`base, t`ms
      ensures Sorted(timers) && OthersOk({t}) && (old(Awake()) ==> Awake())
      ensures forall u :: u in timers <==> u in old(timers) || u == t
      ensures t.ms == ms && t.base == base && t.next == next
      ensures notifying == old(notifying) + if atFront then 1 else 0
    {
      Rekey(t, ms, next, base);
      atFront := AddLocked(t);
    }

    /**
     * The call of onTimerInsertedAtFront, and the threads it wakes, which may be only one of those that wait. Nobody
     * can sleep past a timer afterwards if and only if all wake up, or m_tickled is clear again and those who sleep on
     * wait for nothing that is due later than a timer.
     */
    method Notify(ghost woken: set<nat>)
      requires Valid() && notifying > 0
      modifies this`notifying, this`polls
      ensures Valid() && polls == old(polls) - woken && notifying == old(notifying) - 1
      ensures Awake() <==> notifying > 0 || old(polls).Keys <= woken
                           || (!tickled && forall p :: p in old(polls) && p !in woken ==> old(Covers(polls[p])))
    {
      ghost var before := polls;
      notifying := notifying - 1;
      polls := polls - woken;
      assert forall p :: p in polls <==> p in before && p !in woken;
      assert polls == map[] <==> before.Keys <= woken by {
        Emptied(before, woken);
      }
      assert forall d :: Covers(d) == old(Covers(d));
    }

    /** addTimer; now was read by the constructor of Timer, before the lock. */
    method AddTimer(addr: nat, ms: nat, cb: Option<nat>, recurring: bool, now: nat) returns (t: Timer, atFront: bool)
      requires Valid() && ms < U64 && now <= clock && forall u :: u in known ==> u.addr != addr
      modifies this`timers, this`tickled, this`notifying, this`known
      ensures Valid() && fresh(t) && known == old(known) + {t} && (old(Awake()) ==> Awake())
      ensures t.next == (now + ms) % U64 && t.ms == ms && t.cb == cb && t.callable == cb.Some?
      ensures t.recurring == recurring
      ensures forall u :: u in timers <==> u in old(timers) || u == t
      ensures notifying == old(notifying) + if atFront then 1 else 0
      ensures timers != [] && (atFront <==> timers[0] == t && !old(tickled)) && tickled == (old(tickled) || atFront)
    {
      t := new Timer(addr, ms, cb, recurring, now);
      known := known + {t};
      atFront := AddLocked(t);
    }

    lemma WithCallbackIsIn(t: Timer)
      requires Valid() && t in known && t.cb.Some?
      ensures TimerOk(t) && t in timers
    {
    }

    lemma BackInOrder(t: Timer)
      requires Sorted(timers) && OthersOk({t}) && TimerOk(t)
      ensures Valid()
    {
    }

    /** The locked part of refresh for a timer with a callback. */
    method RefreshInSet(t: Timer, now: nat) returns (found: bool)
      requires Valid() && t in known && t.cb.Some? && clock == now < U64
      modifies this`timers, t`next, t`base, t`ms
      ensures Valid() && found && t.ms == old(t.ms) && t.next == (now + t.ms) % U64
      ensures forall u :: u in timers <==> u in old(timers)
      ensures old(Awake()) && now + t.ms < U64 ==> Awake()
      ensures old(Awake()) ==> (Awake() <==> old(Allows((now + t.ms) % U64)))
    {
      hide Awake, Allows, Covers, Sorted, OthersOk, Valid;
      ghost var calm := Awake();
      WithCallbackIsIn(t);
      found := Erase(t);
      if !found {
        return;
      }
      ghost var was := t.next;
      RequeuePlain(t, (now + t.ms) % U64, now);
      if calm && now + t.ms < U64 {
        AllowsLater(was, now + t.ms);
      }
      BackInOrder(t);
    }

    /**
     * refresh; the deadline moves to a full period from now, without a look at the front. Wake-ups are kept if and only
     * if nobody waits for longer than that; always, if the new deadline stays below 2^64.
     */
    method Refresh(t: Timer, now: nat) returns (ok: bool)
      requires Valid() && t in known && clock <= now < U64
      modifies this`timers, this`clock, t`next, t`base, t`ms
      ensures Valid() && ok == old(t.cb.Some?) && clock == now && t.ms == old(t.ms)
      ensures forall u :: u in timers <==> u in old(timers)
      ensures t.next == if ok then (now + t.ms) % U64 else old(t.next)
      ensures old(Awake()) && now + t.ms < U64 ==> Awake()
      ensures old(Awake()) && ok ==> (Awake() <==> old(Allows((now + t.ms) % U64)))
    {
      Tick(now);
      ok := t.cb.Some?;
      if ok {
        ok := RefreshInSet(t, now);
      }
    }

    /** The locked part of reset for a timer with a callback. */
    method ResetInSet(t: Timer, ms: nat, fromNow: bool, now: nat) returns (found: bool, atFront: bool)
      requires Valid() && t in known && t.cb.Some? && ms < U64 && clock == now < U64
      modifies this`timers, this`tickled, this`notifying, t`next, t`base, t`ms
      ensures Valid() && found && (old(Awake()) ==> Awake())
      ensures forall u :: u in timers <==> u in old(timers)
      ensures notifying == old(notifying) + if atFront then 1 else 0
      ensures t.ms == ms && t.base == (if fromNow then now else old(t.base)) && t.next == (t.base + ms) % U64
    {
      hide Awake, Allows, Covers, Sorted, OthersOk, Valid;
      atFront := false;
      WithCallbackIsIn(t);
      found := Erase(t);
      if !found {
        return;
      }
      SamePast(t.base, t.ms, ms);
      if fromNow {
        atFront := Requeue(t, ms, (now + ms) % U64, now);
      } else {
        atFront := Requeue(t, ms, (t.next - t.ms + ms) % U64, t.base);
      }
      BackInOrder(t);
    }

    /**
     * reset: the period changes, counted from now or from the last start. Nothing happens if it would stay the same.
     */
    method Reset(t: Timer, ms: nat, fromNow: bool, now: nat) returns (ok: bool, atFront: bool)
      requires Valid() && t in known && ms < U64 && clock <= now < U64
      modifies this`timers, this`clock, this`tickled, this`notifying, t`next, t`base, t`ms
      ensures Valid() && clock == now && (old(Awake()) ==> Awake())
      ensures ok == (old(t.cb.Some?) || (ms == old(t.ms) && !fromNow))
      ensures forall u :: u in timers <==> u in old(timers)
      ensures notifying == old(notifying) + if atFront then 1 else 0
      ensures if old(t.cb.Some?) && !(ms == old(t.ms) && !fromNow)
              then t.ms == ms && t.next == ((if fromNow then now else t.base) + ms) % U64
                && t.base == (if fromNow then now else old(t.base))
              else t.ms == old(t.ms) && t.next == old(t.next) && t.base == old(t.base)
    {
      clock := now;
      atFront := false;
      if ms == t.ms && !fromNow {
        return true, false;
      }
      ok := t.cb.Some?;
      if ok {
        ok, atFront := ResetInSet(t, ms, fromNow, now);
      }
    }

    // ---------------------------------------------------------------- expiry

    /** detectClockRollover: the clock went back by more than an hour. */
    method DetectClockRollover(now: nat) returns (rollover: bool)
      modifies this`previousTime
      ensures rollover == RolledBack(now, old(previousTime)) && previousTime == now
    {
      rollover := now < (previousTime - 60 * 60 * 1000) % U64;
      previousTime := now;
    }

    /** A timer that was in the set, with its members as they were there. */
    ghost predicate Due(t: Timer)
      reads this`clock, t
    {
      && t.ms < U64 && t.next == (t.base + t.ms) % U64 && t.base <= clock
      && t.callable == t.cb.Some? && !t.cancelled && (!t.recurring ==> t.fired == 0)
    }

    /** What listExpiredCbs does with one expired timer. */
    method Fire(t: Timer, now: nat, ghost out: set<Timer>) returns (cb: Option<nat>)
      requires Sorted(timers) && t !in timers && t in known && t in out && OthersOk(out) && Due(t) && now <= clock
      modifies this`timers, t
      ensures Sorted(timers) && OthersOk(out - {t}) && cb == old(t.cb) && t.fired == old(t.fired) + 1
      ensures forall u :: u in timers <==> u in old(timers) || (u == t && t.recurring)
      ensures if t.recurring then t.next == (now + t.ms) % U64 && t.base == now && t.cb == old(t.cb) else t.cb.None?
      ensures t.ms == old(t.ms)
      ensures old(Awake()) && (t.recurring ==> Allows((now + t.ms) % U64)) ==> Awake()
    {
      cb := t.cb;
      t.fired := t.fired + 1;
      if t.recurring {
        t.next, t.base := (now + t.ms) % U64, now;
        InsertPlain(t, out);
      } else {
        t.cb := None;
      }
    }

    lemma FirstIsLeast()
      requires Sorted(timers) && timers != []
      ensures forall j :: 0 <= j < |timers| ==> timers[0].next <= timers[j].next
    {
      forall j | 0 <= j < |timers|
        ensures timers[0].next <= timers[j].next
      {
        assert j > 0 ==> Less(timers[0], timers[j]);
      }
    }

    /** How many timers, in deadline order, listExpiredCbs takes out of the set. */
    method CountExpired(now: nat, addr: nat) returns (k: nat, ghost rolled: bool)
      requires Valid()
      modifies this`previousTime
      ensures Valid() && k <= |timers| && (old(Awake()) ==> Awake())
      ensures rolled == (timers != [] && RolledBack(now, old(previousTime)))
      ensures previousTime == if timers == [] then old(previousTime) else now
      ensures rolled ==> k == |timers|
      ensures !rolled ==> forall j :: 0 <= j < |timers| ==>
                if j < k then timers[j].next < now || (timers[j].next == now && timers[j].addr <= addr)
                else now < timers[j].next || (timers[j].next == now && addr < timers[j].addr)
    {
      rolled := false;
      if timers == [] {
        return 0, false;
      }
      var rollover := DetectClockRollover(now);
      rolled := rollover;
      if !rollover && now < timers[0].next {
        FirstIsLeast();
        return 0, false;
      }
      if rollover {
        k := |timers|;
      } else {
        k := UpperBound(timers, now, addr);
      }
    }

    /** A timer after it has been returned: rearmed a period from now, or without its callback. */
    ghost predicate Served(t: Timer, now: nat)
      reads t
    {
      if t.recurring then t.next == (now + t.ms) % U64 && t.base == now else t.cb.None?
    }

    /** Nobody waits for longer than any of these that recur, put back that long from now. */
    ghost predicate AllAllowed(expired: seq<Timer>, ms: seq<nat>, now: nat)
      requires |ms| == |expired|
      reads this`notifying, this`polls
    {
      forall j :: 0 <= j < |expired| && expired[j].recurring ==> Allows((now + ms[j]) % U64)
    }

    /** No deadline a period from now leaves 64 bits. */
    ghost predicate NoWrap(expired: seq<Timer>, now: nat)
      reads expired
    {
      forall j :: 0 <= j < |expired| && expired[j].recurring ==> now + expired[j].ms < U64
    }

    lemma NoWrapAllowed(expired: seq<Timer>, now: nat)
      requires NoWrap(expired, now) && (expired != [] ==> Allows(now))
      ensures AllAllowed(expired, MsOf(expired), now)
    {
      hide MsOf, Allows;
      forall j | 0 <= j < |expired| && expired[j].recurring
        ensures Allows((now + MsOf(expired)[j]) % U64)
      {
        AllowsLater(now, now + expired[j].ms);
      }
    }

    /** Where the loop of listExpiredCbs stands after i of the expired timers; before holds the timers that stayed. */
    ghost predicate FiredUpTo(expired: seq<Timer>, i: nat, now: nat, before: seq<Timer>, cbs: seq<Option<nat>>,
                              fired: seq<nat>, ms: seq<nat>)
      reads this, known, timers, expired
    {
      && i <= |expired| == |cbs| == |fired| == |ms|
      && Sorted(timers) && Distinct(expired) && OthersOk(Waiting(expired, i))
      && (forall j :: 0 <= j < |expired| ==> expired[j] in known)
      && (forall j :: i <= j < |expired| ==> Due(expired[j]))
      && (forall j :: i <= j < |expired| ==>
            expired[j] !in timers && expired[j].cb == cbs[j] && expired[j].fired == fired[j])
      && (forall j :: 0 <= j < i ==> Served(expired[j], now) && expired[j].fired == fired[j] + 1)
      && (forall j :: 0 <= j < |expired| ==> expired[j].ms == ms[j])
      && (forall u :: u in before ==> u in known)
      && (forall u :: u in known ==> (u in timers <==> u in before || (u in expired[..i] && u.recurring)))
    }

    /** One turn of the loop. */
    method FireNext(expired: seq<Timer>, i: nat, now: nat, ghost before: seq<Timer>, ghost cbs: seq<Option<nat>>,
                    ghost fired: seq<nat>, ghost ms: seq<nat>)
      returns (cb: Option<nat>)
      requires i < |expired| && FiredUpTo(expired, i, now, before, cbs, fired, ms) && now <= clock
      modifies this`timers, expired[i]
      ensures FiredUpTo(expired, i + 1, now, before, cbs, fired, ms) && cb == cbs[i]
      ensures old(Awake()) && (expired[i].recurring ==> Allows((now + ms[i]) % U64)) ==> Awake()
    {
      WaitingNext(expired, i);
      cb := Fire(expired[i], now, Waiting(expired, i));
    }

    lemma FiredSizes(expired: seq<Timer>, i: nat, now: nat, before: seq<Timer>, cbs: seq<Option<nat>>,
                     fired: seq<nat>, ms: seq<nat>)
      requires FiredUpTo(expired, i, now, before, cbs, fired, ms)
      ensures |expired| == |cbs| == |fired| == |ms|
    {
    }

    lemma AllowedAt(expired: seq<Timer>, ms: seq<nat>, now: nat, i: nat)
      requires |ms| == |expired| && i < |ms|
      ensures AllAllowed(expired, ms, now) && expired[i].recurring ==> Allows((now + ms[i]) % U64)
    {
    }

    /** The loop of listExpiredCbs. */
    method FireAll(expired: seq<Timer>, now: nat, ghost cbs0: seq<Option<nat>>, ghost fired: seq<nat>,
                   ghost ms: seq<nat>)
      returns (cbs: seq<Option<nat>>)
      requires FiredUpTo(expired, 0, now, timers, cbs0, fired, ms) && now <= clock
      modifies this`timers, expired
      ensures FiredUpTo(expired, |expired|, now, old(timers), cbs0, fired, ms) && cbs == cbs0
      ensures old(Awake()) && AllAllowed(expired, ms, now) ==> Awake()
    {
      ghost var before := timers;
      hide *;
      FiredSizes(expired, 0, now, timers, cbs0, fired, ms);
      ghost var calm := Awake() && AllAllowed(expired, ms, now);
      cbs := [];
      for i := 0 to |expired|
        invariant FiredUpTo(expired, i, now, before, cbs0, fired, ms)
        invariant cbs == cbs0[..i]
        invariant calm ==> Awake()
      {
        AllowedAt(expired, ms, now, i);
        var cb := FireNext(expired, i, now, before, cbs0, fired, ms);
        cbs := cbs + [cb];
      }
    }

    /** All back in order; and those in the set again, a period from now, show who waits for longer. */
    lemma AllFired(expired: seq<Timer>, now: nat, before: seq<Timer>, cbs: seq<Option<nat>>, fired: seq<nat>,
                   ms: seq<nat>)
      requires FiredUpTo(expired, |expired|, now, before, cbs, fired, ms)
      ensures Valid() && (Awake() ==> AllAllowed(expired, ms, now))
      ensures forall u :: u in timers <==> u in before || (u in expired && u.recurring)
      ensures |fired| == |expired|
      ensures forall j :: 0 <= j < |expired| ==> Served(expired[j], now) && expired[j].fired == fired[j] + 1
    {
      assert Waiting(expired, |expired|) == {} && expired[..|expired|] == expired;
      forall j | Awake() && 0 <= j < |expired| && expired[j].recurring
        ensures Allows((now + ms[j]) % U64)
      {
        assert Served(expired[j], now) && expired[j] in known;
        AwakeAllows(expired[j]);
      }
    }

    lemma FirstAreDue(n: nat)
      requires Valid() && n <= |timers|
      ensures Distinct(timers[..n])
      ensures forall j :: 0 <= j < n ==> timers[j] in known && timers[j] !in timers[n..] && Due(timers[j])
    {
      SortedIsDistinct(timers);
      forall j | 0 <= j < n
        ensures timers[j] in known && timers[j] !in timers[n..] && Due(timers[j])
      {
        assert timers[j] in timers && TimerOk(timers[j]);
      }
    }

    lemma ReadyToFire(expired: seq<Timer>, now: nat, cbs: seq<Option<nat>>, fired: seq<nat>, ms: seq<nat>)
      requires Sorted(timers) && Distinct(expired) && OthersOk(Waiting(expired, 0))
      requires forall j :: 0 <= j < |expired| ==> expired[j] in known && expired[j] !in timers && Due(expired[j])
      requires cbs == CbsOf(expired) && fired == FiredOf(expired) && ms == MsOf(expired)
      ensures FiredUpTo(expired, 0, now, timers, cbs, fired, ms)
    {
      hide CbsOf, FiredOf, MsOf, Sorted, Due, TimerOk, OthersOk, Waiting;
      assert forall u :: u in timers ==> u in known by {
        OthersAreKnown(Waiting(expired, 0));
      }
    }

    lemma OthersAreKnown(out: set<Timer>)
      requires OthersOk(out)
      ensures forall u :: u in timers ==> u in known
    {
    }

    method DropFirst(n: nat)
      requires Valid() && n <= |timers|
      modifies this`timers
      ensures timers == old(timers)[n..] && Sorted(timers) && OthersOk(Waiting(old(timers)[..n], 0))
      ensures old(Awake()) ==> Awake()
    {
      timers := timers[n..];
    }

    /** The first n timers leave the set. */
    method TakeOut(n: nat, ghost now: nat, ghost cbs: seq<Option<nat>>, ghost fired: seq<nat>, ghost ms: seq<nat>)
      returns (expired: seq<Timer>)
      requires Valid() && n <= |timers|
      requires cbs == CbsOf(timers[..n]) && fired == FiredOf(timers[..n]) && ms == MsOf(timers[..n])
      modifies this`timers
      ensures expired == old(timers)[..n] && timers == old(timers)[n..]
      ensures FiredUpTo(expired, 0, now, timers, cbs, fired, ms)
      ensures old(Awake()) ==> Awake()
    {
      hide *;
      expired := timers[..n];
      FirstAreDue(n);
      DropFirst(n);
      ReadyToFire(expired, now, cbs, fired, ms);
    }

    /** The first n timers leave the set and are served; the ones that recur go back. */
    method ServeFirst(n: nat, now: nat) returns (cbs: seq<Option<nat>>)
      requires Valid() && n <= |timers| && now <= clock
      modifies this`timers, timers
      ensures Valid() && |cbs| == n && forall j :: 0 <= j < n ==> cbs[j] == old(timers[j].cb)
      ensures forall u :: u in timers <==> u in old(timers)[n..] || (u in old(timers)[..n] && u.recurring)
      ensures forall j :: 0 <= j < n ==> Served(old(timers)[j], now) && old(timers)[j].fired == old(timers[j].fired) + 1
      ensures old(Awake()) ==> (Awake() <==> old(AllAllowed(timers[..n], MsOf(timers[..n]), now)))
    {
      hide *;
      ghost var cbs0, fired, ms := CbsOf(timers[..n]), FiredOf(timers[..n]), MsOf(timers[..n]);
      var expired := TakeOut(n, now, cbs0, fired, ms);
      cbs := FireAll(expired, now, cbs0, fired, ms);
      AllFired(expired, now, old(timers)[n..], cbs0, fired, ms);
    }

    /** Due timers whose deadlines stay below 2^64 may go back. */
    lemma DueAllowed(n: nat, now: nat)
      requires Valid() && Awake() && n <= |timers| && NoWrap(timers, now) && (n > 0 ==> timers[n - 1].next <= now)
      ensures AllAllowed(timers[..n], MsOf(timers[..n]), now)
    {
      if n > 0 {
        AwakeAllows(timers[n - 1]);
        AllowsLater(timers[n - 1].next, now);
      }
      NoWrapAllowed(timers[..n], now);
    }

    /**
     * listExpiredCbs: the callbacks of all timers due before now and none due after it, in deadline order; of those
     * due now the ones up to this address. All timers if the clock was rolled back. One-shot timers lose their
     * callback, recurring ones go back into the set a period from now, without a look at the front: wake-ups are kept
     * if and only if nobody waits for longer than one of them; always, without a rollback and below 2^64.
     */
    method ListExpiredCbs(now: nat, addr: nat) returns (cbs: seq<Option<nat>>, ghost k: nat, ghost rolled: bool)
      requires Valid() && now <= clock && now < U64
      modifies this`timers, this`previousTime, timers
      ensures Valid() && k == |cbs| <= |old(timers)|
      ensures rolled == (old(timers) != [] && RolledBack(now, old(previousTime)))
      ensures previousTime == if old(timers) == [] then old(previousTime) else now
      ensures rolled ==> k == |old(timers)|
      ensures !rolled ==> forall j :: 0 <= j < |old(timers)| ==>
                var next, a := old(timers[j].next), old(timers)[j].addr;
                if j < k then next < now || (next == now && a <= addr) else now < next || (next == now && addr < a)
      ensures forall j :: 0 <= j < k ==> cbs[j] == old(timers[j].cb)
      ensures forall u :: u in timers <==> u in old(timers)[k..] || (u in old(timers)[..k] && u.recurring)
      ensures forall j :: 0 <= j < k ==> Served(old(timers)[j], now) && old(timers)[j].fired == old(timers[j].fired) + 1
      ensures old(Awake()) ==> (Awake() <==> old(AllAllowed(timers[..k], MsOf(timers[..k]), now)))
      ensures old(Awake() && NoWrap(timers, now)) && !rolled ==> Awake()
    {
      hide *;
      var n;
      n, rolled := CountExpired(now, addr);
      k := n;
      if Awake() && NoWrap(timers, now) && !rolled {
        DueAllowed(n, now);
      }
      cbs := ServeFirst(n, now);
    }

    /**
     * Two calls: the second one takes the clock to be rolled back, and returns every timer, if and only if there are
     * timers and its reading is more than an hour before that of the last call that had any.
     */
    method ListTwice(first: nat, second: nat, addr: nat)
      returns (cbs: seq<Option<nat>>, ghost rolled: bool, ghost n: nat)
      requires Valid() && first <= clock && first < U64 && second <= clock && second < U64 && previousTime < U64
      modifies this`timers, this`previousTime, timers
      ensures Valid() && |cbs| <= n && (old(timers) == [] ==> n == 0) && (rolled ==> |cbs| == n)
      ensures rolled <==> n > 0 && HourBefore(second, if old(timers) == [] then old(previousTime) else first)
      ensures previousTime == if n > 0 then second else if old(timers) == [] then old(previousTime) else first
    {
      hide *;
      ghost var k;
      cbs, k, rolled := ListExpiredCbs(first, addr);
      n := |timers|;
      forall i | 0 <= i < |timers|
        ensures timers[i] in old(timers)
      {
        assert timers[i] in timers;
        InSlices(old(timers), k, timers[i]);
      }
      assert n > 0 ==> timers[0] in timers;
      RolledBackIsAnHour(second, previousTime);
      cbs, k, rolled := ListExpiredCbs(second, addr);
    }

    // ---------------------------------------------------------------- polling

    /** The first line of getNextTimer, outside the lock. */
    method PollBegin(thread: nat)
      requires Valid()
      modifies this`tickled, this`polls
      ensures Valid() && polls == old(polls)[thread := Pending] && (old(Awake()) ==> Awake())
    {
      tickled := false;
      polls := polls[thread := Pending];
    }

    /** The rest of getNextTimer: the time to the first deadline, 0 if it has passed, the maximum without timers. */
    method PollRead(thread: nat, now: nat) returns (r: nat)
      requires Valid() && clock <= now
      modifies this`clock, this`polls
      ensures Valid() && clock == now && (old(Awake()) ==> Awake())
      ensures timers == [] ==> r == U64 - 1
      ensures timers != [] ==> now + r == if timers[0].next < now then now else timers[0].next
      ensures polls == if thread in old(polls)
                       then old(polls)[thread := if timers == [] then Forever else Until(timers[0].next)]
                       else old(polls)
    {
      hide Sorted;
      clock := now;
      if thread in polls {
        polls := polls[thread := if timers == [] then Forever else Until(timers[0].next)];
      }
      if timers == [] {
        return U64 - 1;
      }
      if now > timers[0].next {
        return 0;
      }
      r := timers[0].next - now;
    }
  }

  /** A thread that was not notified since it began to poll, with no notification on its way, sleeps past no timer. */
  lemma NoLostWakeup(m: TimerManager, thread: nat, t: Timer)
    requires m.Valid() && m.Awake() && m.notifying == 0 && thread in m.polls && t in m.timers
    ensures m.polls[thread] != Forever
    ensures m.polls[thread].Until? ==> m.polls[thread].at <= t.next
    ensures !m.tickled
  {
    assert m.Covers(m.polls[thread]);
    var i :| 0 <= i < |m.timers| && m.timers[i] == t;
    if i > 0 {
      assert Less(m.timers[0], m.timers[i]);
    }
  }

  /** One timer almost 2^64 milliseconds away, and a thread that waits for it. */
  method LongWait() returns (m: TimerManager, t: Timer)
    ensures fresh(m) && fresh(t) && m.Valid() && t in m.timers && m.known == {t} && t.cb.Some? && t.ms == U64 - 1
    ensures m.clock == 0
    ensures m.notifying == 0 && m.polls == map[7 := Until(U64 - 1)]
  {
    m := new TimerManager(0);
    var atFront;
    t, atFront := m.AddTimer(0, U64 - 1, Some(1), false, 0);
    if atFront {
      m.Notify({});
    }
    m.PollBegin(7);
    assert m.timers[0] in m.timers;
    var r := m.PollRead(7, 0);
  }

  /** refresh with a period that leaves 64 bits moves the deadline to the front, and nobody is notified. */
  method RefreshCanWrap() returns (m: TimerManager)
    ensures m.Valid() && !m.Awake()
  {
    var t;
    m, t := LongWait();
    var ok := m.Refresh(t, 2);
    assert m.timers[0] in m.timers;
    assert 7 in m.polls && !m.Covers(m.polls[7]);
  }

  /** A timer due every 5 milliseconds, and a thread that waits for it. */
  method ShortWait() returns (m: TimerManager, t: Timer)
    ensures fresh(m) && fresh(t) && m.Valid() && m.timers == [t] && t.recurring && t.ms == 5 && t.next == 10_000_005
    ensures m.clock == m.previousTime == 10_000_000
    ensures m.notifying == 0 && m.polls == map[7 := Until(10_000_005)]
  {
    m := new TimerManager(10_000_000);
    var atFront;
    t, atFront := m.AddTimer(1, 5, Some(9), true, 10_000_000);
    if atFront {
      m.Notify({});
    }
    m.PollBegin(7);
    OnlyOne(m.timers, t);
    var r := m.PollRead(7, 10_000_000);
  }

  lemma OnlyOne(s: seq<Timer>, t: Timer)
    requires Sorted(s) && forall u :: u in s <==> u == t
    ensures s == [t]
  {
    SortedIsDistinct(s);
    assert t in s;
    assert s[0] in s && s[|s| - 1] in s;
  }

  /** A recurring timer put back after the clock went back by more than an hour, before the end of somebody's wait. */
  method RollbackLosesWakeup() returns (m: TimerManager)
    ensures m.Valid() && !m.Awake()
  {
    var t;
    m, t := ShortWait();
    assert m.timers[..1] == [t];
    assert RolledBack(1000, m.previousTime);
    var cbs, k, rolled := m.ListExpiredCbs(1000, 0);
    assert t in m.timers;
    assert 7 in m.polls && m.polls[7] == Until(10_000_005);
    assert !m.Allows(1005);
    m.AwakeAllows(t);
  }

  method TwoWait() returns (m: TimerManager)
    ensures fresh(m) && m.Valid() && m.Awake() && m.known == {} && m.timers == [] && m.clock == 0 && m.notifying == 0
    ensures m.polls == map[7 := Forever, 8 := Forever] && !m.tickled
  {
    m := new TimerManager(0);
    m.PollBegin(7);
    var r := m.PollRead(7, 0);
    m.PollBegin(8);
    r := m.PollRead(8, 0);
  }

  /** Two threads wait without timers, one is added, and the notification wakes one of them: the other sleeps on. */
  method OneIsNotWoken() returns (m: TimerManager)
    ensures m.Valid() && !m.Awake() && m.timers != [] && m.notifying == 0 && m.polls == map[8 := Forever]
  {
    m := TwoWait();
    var t, atFront := m.AddTimer(1, 5, Some(9), false, 0);
    assert m.timers[0] in m.timers;
    assert m.notifying == 1 && m.polls == map[7 := Forever, 8 := Forever];
    m.Notify({7});
    assert m.polls == map[8 := Forever];
    assert 8 in m.polls && !m.Covers(m.polls[8]);
  }
}
