/**
 The coroutine scheduler: misc/mgx_coroutine_scheduler.cpp, the parts of
 misc/mgx_coroutine.cpp that change a status or a container, and the register / yield /
 deregister bracket of misc/mgx_cosocket.cpp.

 What a coroutine does between being resumed and switching back is a script chosen by the
 environment: it may create coroutines, and it ends by yielding, sleeping, waiting for a
 descriptor or returning.  Clock readings and the events epoll_wait reports are chosen by
 the environment too.
 */
module Scheduler {
  import opened Common

  type Id = nat

  datatype Status = Ready | Waiting | Sleeping | Running

  /** An entry of the sleep multimap; ticket counts the calls of msleep. */
  datatype Sleeper = Sleeper(deadline: int, co: Id, ticket: nat)

  /** status holds the coroutines that have not been deleted.  abandoned records those that
      the EPOLLERR branch took out of the epoll set without resuming them. */
  datatype Sched = Sched(ready: seq<Id>, sleep: seq<Sleeper>, epoll: map<int, Id>, cur: Option<Id>,
                         status: map<Id, Status>, waitFd: map<Id, int>, abandoned: set<Id>,
                         nextId: Id, nextTicket: nat)

  datatype Last = Yield | Sleep(now: int, ms: int) | Wait(fd: int) | Exit

  datatype Script = Script(spawns: nat, last: Last)

  // ---------------------------------------------------------------- container operations

  /** insert_sleep_rbtree: after every entry that is due no later */
  function InsertSleep(sl: seq<Sleeper>, e: Sleeper): (r: seq<Sleeper>) {
    if sl == [] || sl[0].deadline > e.deadline then [e] + sl else [sl[0]] + InsertSleep(sl[1..], e)
  }

  /** The first entry is due first; among equal deadlines the one that slept first. */
  predicate Before(a: Sleeper, b: Sleeper) {
    a.deadline < b.deadline || (a.deadline == b.deadline && a.ticket < b.ticket)
  }

  ghost predicate Ordered(sl: seq<Sleeper>) {
    forall i, j :: 0 <= i < j < |sl| ==> Before(sl[i], sl[j])
  }

  lemma {:induction false} InsertSleepMembers(sl: seq<Sleeper>, e: Sleeper)
    ensures forall x :: x in InsertSleep(sl, e) <==> x == e || x in sl
  {
    if sl != [] && sl[0].deadline <= e.deadline {
      InsertSleepMembers(sl[1..], e);
      assert sl == [sl[0]] + sl[1..];
    }
  }

  lemma {:induction false} InsertSleepOrdered(sl: seq<Sleeper>, e: Sleeper)
    requires Ordered(sl) && forall x :: x in sl ==> x.ticket < e.ticket
    ensures Ordered(InsertSleep(sl, e))
  {
    if sl != [] && sl[0].deadline <= e.deadline {
      InsertSleepOrdered(sl[1..], e);
      InsertSleepMembers(sl[1..], e);
      OrderedCons(sl[0], InsertSleep(sl[1..], e), sl[1..], e);
    } else {
      assert forall i :: 0 <= i < |sl| ==> sl[i] in sl;
      assert forall i :: 0 < i < |sl| ==> Before(sl[0], sl[i]);
    }
  }

  lemma OrderedCons(first: Sleeper, r: seq<Sleeper>, tail: seq<Sleeper>, e: Sleeper)
    requires Ordered(r) && Ordered([first] + tail) && Before(first, e)
    requires forall x :: x in r <==> x == e || x in tail
    ensures Ordered([first] + r)
  {
    forall j | 0 <= j < |r| ensures Before(first, r[j]) {
      assert r[j] in r;
      if r[j] != e {
        var k :| 0 <= k < |tail| && tail[k] == r[j];
        assert ([first] + tail)[0] == first && ([first] + tail)[k + 1] == r[j];
      }
    }
  }

  // ---------------------------------------------------------------- the invariant

  predicate Is(s: Sched, c: Id, st: Status) { c in s.status && s.status[c] == st }

  predicate Registered(s: Sched, c: Id) {
    c in s.waitFd && s.waitFd[c] in s.epoll && s.epoll[s.waitFd[c]] == c
  }

  ghost predicate Asleep(s: Sched, c: Id) { exists x :: x in s.sleep && x.co == c }

  ghost predicate ReadyOk(s: Sched) {
    Distinct(s.ready) && forall c: Id :: c in s.ready <==> Is(s, c, Ready)
  }

  ghost predicate SleepOk(s: Sched) {
    && Ordered(s.sleep)
    && (forall x, y :: x in s.sleep && y in s.sleep && x.co == y.co ==> x == y)
    && (forall x :: x in s.sleep ==> x.ticket < s.nextTicket)
    && (forall x :: x in s.sleep ==> Is(s, x.co, Sleeping))
    && (forall c: Id :: Is(s, c, Sleeping) ==> Asleep(s, c))
  }

  ghost predicate EpollOk(s: Sched) {
    && (forall fd :: fd in s.epoll ==> Is(s, s.epoll[fd], Waiting) && s.epoll[fd] in s.waitFd && s.waitFd[s.epoll[fd]] == fd)
    && (forall c: Id :: c in s.abandoned ==> Is(s, c, Waiting) && !Registered(s, c))
    && (forall c: Id :: Is(s, c, Waiting) ==> c in s.abandoned || Registered(s, c))
  }

  ghost predicate RunningOk(s: Sched) {
    && (forall c: Id :: Is(s, c, Running) <==> s.cur == Some(c))
    && (forall c: Id :: c in s.status ==> c < s.nextId)
  }

  /** Every live coroutine is where its status says, and nowhere else. */
  ghost predicate Inv(s: Sched) { ReadyOk(s) && SleepOk(s) && EpollOk(s) && RunningOk(s) }

  /** The five places. */
  ghost predicate InExactlyOnePlace(s: Sched, c: Id) {
    (if c in s.ready then 1 else 0) + (if Asleep(s, c) then 1 else 0)
    + (if Registered(s, c) then 1 else 0) + (if c in s.abandoned then 1 else 0)
    + (if s.cur == Some(c) then 1 else 0) == 1
  }

  /** The partition: live coroutines are in exactly one place, deleted ones in none. */
  lemma Partition(s: Sched, c: Id)
    requires Inv(s)
    ensures c in s.status ==> InExactlyOnePlace(s, c)
    ensures c !in s.status ==> c !in s.ready && !Asleep(s, c) && !Registered(s, c) && c !in s.abandoned && s.cur != Some(c)
  {
    if Registered(s, c) {
      RegisteredWaits(s, c);
    }
  }

  lemma RegisteredWaits(s: Sched, c: Id)
    requires EpollOk(s) && Registered(s, c)
    ensures Is(s, c, Waiting)
  {
    var fd := s.waitFd[c];
    assert fd in s.epoll;
  }

  predicate IsInitial(s: Sched) {
    s.ready == [] && s.sleep == [] && s.epoll == map[] && s.cur == None && s.status == map[] && s.abandoned == {}
  }

  lemma InitialInv(s: Sched)
    requires IsInitial(s)
    ensures Inv(s)
  {
  }

  // ---------------------------------------------------------------- the steps of a resume

  /** resume() up to the first statement after the switch that put the coroutine away:
      remove_first_sleep_rbtree after msleep, remove_event_wait_epoll after a wait. */
  function Wake(s: Sched, co: Id): (t: Sched)
    requires co in s.status && s.status[co] != Running
    requires s.status[co] == Sleeping ==> s.sleep != []
    requires s.status[co] == Waiting ==> co in s.waitFd
  {
    var t := s.(cur := Some(co), status := s.status[co := Running]);
    match s.status[co]
    case Sleeping => t.(sleep := s.sleep[1..])
    case Waiting => t.(epoll := s.epoll - {s.waitFd[co]})
    case _ => t
  }

  /** The Mgx_coroutine constructor */
  function Spawn(s: Sched): (t: Sched) {
    s.(ready := s.ready + [s.nextId], status := s.status[s.nextId := Ready], nextId := s.nextId + 1)
  }

  function SpawnMany(s: Sched, n: nat): (t: Sched)
    decreases n
  {
    if n == 0 then s else SpawnMany(Spawn(s), n - 1)
  }

  /** add_event_wait_epoll fails an assertion if the descriptor is registered already. */
  predicate CanEnd(s: Sched, last: Last) { last.Wait? ==> last.fd !in s.epoll }

  /** The way back to the scheduler: yield, msleep, the cosocket wait, or the end of _exec
      followed by the delete in schedule. */
  function PutAway(s: Sched, co: Id, last: Last): (t: Sched)
    requires co in s.status && CanEnd(s, last)
  {
    match last
    case Yield => s.(cur := None, ready := s.ready + [co], status := s.status[co := Ready])
    case Sleep(now, ms) =>
      s.(cur := None, status := s.status[co := Sleeping],
         sleep := InsertSleep(s.sleep, Sleeper(now + ms, co, s.nextTicket)), nextTicket := s.nextTicket + 1)
    case Wait(fd) =>
      s.(cur := None, status := s.status[co := Waiting], waitFd := s.waitFd[co := fd], epoll := s.epoll[fd := co])
    case Exit => s.(cur := None, status := s.status - {co})
  }

  lemma OrderedTail(sl: seq<Sleeper>)
    requires Ordered(sl) && sl != []
    ensures Ordered(sl[1..])
    ensures forall x :: x in sl[1..] <==> x in sl && x != sl[0]
  {
    assert sl == [sl[0]] + sl[1..];
    forall x | x in sl[1..] ensures x != sl[0] {
      var i :| 0 <= i < |sl[1..]| && sl[1..][i] == x;
      assert Before(sl[0], sl[i + 1]);
    }
  }

  /** If the sleepers change only by co falling asleep or waking, which happens on both
      sides at once, the sleep side stays right. */
  lemma SameSleep(s: Sched, t: Sched, co: Id)
    requires SleepOk(s) && !Is(s, co, Sleeping) && !Is(t, co, Sleeping)
    requires t.sleep == s.sleep && t.nextTicket >= s.nextTicket
    requires forall c: Id :: c != co ==> (Is(s, c, Sleeping) <==> Is(t, c, Sleeping))
    ensures SleepOk(t)
  {
    forall c: Id | Is(t, c, Sleeping) ensures Asleep(t, c) {
      assert Asleep(s, c);
    }
  }

  /** A sleeper that has come to the front wakes: the entry it erases is its own. */
  lemma WakeSleeper(s: Sched)
    requires Inv(s) && s.cur == None && s.sleep != []
    ensures Is(s, s.sleep[0].co, Sleeping)
    ensures Inv(Wake(s, s.sleep[0].co))
  {
    var first := s.sleep[0];
    var co := first.co;
    assert first in s.sleep;
    var t := Wake(s, co);
    OrderedTail(s.sleep);
    forall c: Id | Is(t, c, Sleeping) ensures Asleep(t, c) {
      assert Is(s, c, Sleeping) && Asleep(s, c);
      var x :| x in s.sleep && x.co == c;
      assert x in t.sleep;
    }
    SameEpoll(s, t, co);
  }

  /** If only co, which is not waiting, changes its status, the epoll side stays right. */
  lemma SameEpoll(s: Sched, t: Sched, co: Id)
    requires EpollOk(s) && !Is(s, co, Waiting) && !Is(t, co, Waiting)
    requires t.epoll == s.epoll && t.waitFd == s.waitFd && t.abandoned == s.abandoned
    requires forall c: Id :: c != co ==> (Is(s, c, Waiting) <==> Is(t, c, Waiting))
    ensures EpollOk(t)
  {
    assert forall c: Id :: Registered(s, c) <==> Registered(t, c);
  }

  lemma WakeReady(s: Sched)
    requires Inv(s) && s.cur == None && s.ready != []
    ensures Is(s, s.ready[0], Ready)
    ensures Inv(Wake(s.(ready := s.ready[1..]), s.ready[0]))
  {
    var co := s.ready[0];
    assert co in s.ready && Is(s, co, Ready);
    var t := Wake(s.(ready := s.ready[1..]), co);
    assert s.ready == [co] + s.ready[1..];
    assert co !in t.ready && forall c: Id :: c in s.ready <==> c == co || c in t.ready;
    SameSleep(s, t, co);
    SameEpoll(s, t, co);
  }

  lemma WakeWaiter(s: Sched, co: Id)
    requires Inv(s) && s.cur == None && Registered(s, co)
    ensures Is(s, co, Waiting)
    ensures Inv(Wake(s, co))
  {
    RegisteredWaits(s, co);
    var t := Wake(s, co);
    forall c: Id | c != co ensures Registered(t, c) <==> Registered(s, c) {
    }
    SameSleep(s, t, co);
  }

  lemma SpawnInv(s: Sched)
    requires Inv(s)
    ensures Inv(Spawn(s)) && Spawn(s).cur == s.cur
  {
    var t := Spawn(s);
    assert s.nextId !in s.status;
    assert s.nextId !in s.ready by { assert s.nextId in s.ready ==> Is(s, s.nextId, Ready); }
    SameSleep(s, t, s.nextId);
    SameEpoll(s, t, s.nextId);
  }

  lemma {:induction false} SpawnManyInv(s: Sched, n: nat)
    requires Inv(s)
    ensures var t := SpawnMany(s, n);
            && Inv(t) && t.cur == s.cur && t.epoll == s.epoll && s.ready <= t.ready
            && t.waitFd == s.waitFd && t.abandoned == s.abandoned
            && (forall c: Id :: c in s.status ==> c in t.status && t.status[c] == s.status[c])
    decreases n
  {
    if n > 0 {
      SpawnInv(s);
      SpawnManyInv(Spawn(s), n - 1);
    }
  }

  lemma PutAwayYieldOrExit(s: Sched, co: Id, last: Last)
    requires Inv(s) && s.cur == Some(co) && (last.Yield? || last.Exit?)
    ensures Inv(PutAway(s, co, last))
  {
    var t := PutAway(s, co, last);
    assert Is(s, co, Running) && co !in s.ready;
    SameSleep(s, t, co);
    SameEpoll(s, t, co);
  }

  lemma PutAwaySleep(s: Sched, co: Id, last: Last)
    requires Inv(s) && s.cur == Some(co) && last.Sleep?
    ensures Inv(PutAway(s, co, last))
  {
    var t := PutAway(s, co, last);
    assert Is(s, co, Running);
    var e := Sleeper(last.now + last.ms, co, s.nextTicket);
    InsertSleepMembers(s.sleep, e);
    InsertSleepOrdered(s.sleep, e);
    forall c: Id | Is(t, c, Sleeping) ensures Asleep(t, c) {
      if c == co {
        assert e in t.sleep;
      } else {
        assert Is(s, c, Sleeping) && Asleep(s, c);
        var x :| x in s.sleep && x.co == c;
        assert x in t.sleep;
      }
    }
    SameEpoll(s, t, co);
  }

  lemma PutAwayWait(s: Sched, co: Id, last: Last)
    requires Inv(s) && s.cur == Some(co) && last.Wait? && CanEnd(s, last)
    ensures Inv(PutAway(s, co, last))
  {
    var t := PutAway(s, co, last);
    assert Is(s, co, Running);
    SameSleep(s, t, co);
    forall c: Id | c != co ensures Registered(t, c) <==> Registered(s, c) {
      if c in s.waitFd && s.waitFd[c] == last.fd {
        assert !Registered(s, c);
      }
    }
  }

  lemma PutAwayInv(s: Sched, co: Id, last: Last)
    requires Inv(s) && s.cur == Some(co) && CanEnd(s, last)
    ensures co in s.status && Inv(PutAway(s, co, last)) && PutAway(s, co, last).cur == None
  {
    assert Is(s, co, Running);
    match last
    case Sleep(_, _) => PutAwaySleep(s, co, last);
    case Wait(_) => PutAwayWait(s, co, last);
    case _ => PutAwayYieldOrExit(s, co, last);
  }

  // ---------------------------------------------------------------- one resumed stretch

  /** From just after the wake to the switch back: the coroutine creates others and ends. */
  ghost function RunFrom(w: Sched, co: Id, script: Script): (t: Sched)
    requires Inv(w) && w.cur == Some(co) && CanEnd(w, script.last)
    ensures Inv(t) && t.cur == None && Undisturbed(w, t, co)
  {
    SpawnManyInv(w, script.spawns);
    var m := SpawnMany(w, script.spawns);
    PutAwayInv(m, co, script.last);
    PutAwayFrame(m, co, script.last);
    PutAway(m, co, script.last)
  }

  /** Whatever co does, every other coroutine keeps its status and its place: the ready
      list grows at its end only, and registrations stay. */
  ghost predicate Undisturbed(s: Sched, t: Sched, co: Id) {
    && s.ready <= t.ready
    && s.abandoned <= t.abandoned
    && (forall c: Id :: c in s.status && c != co ==> c in t.status && t.status[c] == s.status[c])
    && (forall c: Id :: c != co && Registered(s, c) ==> Registered(t, c))
  }

  lemma PutAwayFrame(s: Sched, co: Id, last: Last)
    requires Inv(s) && s.cur == Some(co) && CanEnd(s, last) && co in s.status
    ensures Undisturbed(s, PutAway(s, co, last), co)
  {
  }

  // ---------------------------------------------------------------- schedule()

  datatype Via = BySleep(deadline: int, now: int) | ByReady | ByEvent

  /** A call of resume: who, why, and the status at that moment (None if deleted). */
  datatype Resumed = Resumed(co: Id, via: Via, was: Option<Status>)

  datatype Out = Out(s: Sched, trace: seq<Resumed>)

  datatype Event = Event(co: Id, err: bool, script: Script)

  /** Everything the environment contributes to one call of schedule. */
  datatype Call = Call(now: int, sleepScript: Script, readyScript: Script, events: seq<Event>)

  function Look(s: Sched, co: Id): (st: Option<Status>) {
    if co in s.status then Some(s.status[co]) else None
  }

  ghost predicate Between(s: Sched) { Inv(s) && s.cur == None }

  predicate SleepDue(s: Sched, now: int) { s.sleep != [] && now >= s.sleep[0].deadline }

  ghost predicate SleepLegal(s: Sched, now: int, script: Script)
    requires Between(s)
  {
    SleepDue(s, now) ==> (WakeSleeper(s); CanEnd(Wake(s, s.sleep[0].co), script.last))
  }

  ghost function SleepPhase(s: Sched, now: int, script: Script): (r: Out)
    requires Between(s) && SleepLegal(s, now, script)
    ensures Between(r.s)
  {
    if SleepDue(s, now) then
      WakeSleeper(s);
      var first := s.sleep[0];
      Out(RunFrom(Wake(s, first.co), first.co, script), [Resumed(first.co, BySleep(first.deadline, now), Look(s, first.co))])
    else Out(s, [])
  }

  ghost predicate ReadyLegal(s: Sched, script: Script)
    requires Between(s)
  {
    s.ready != [] ==> (WakeReady(s); CanEnd(Wake(s.(ready := s.ready[1..]), s.ready[0]), script.last))
  }

  ghost function ReadyPhase(s: Sched, script: Script): (r: Out)
    requires Between(s) && ReadyLegal(s, script)
    ensures Between(r.s)
  {
    if s.ready != [] then
      WakeReady(s);
      var co := s.ready[0];
      Out(RunFrom(Wake(s.(ready := s.ready[1..]), co), co, script), [Resumed(co, ByReady, Look(s, co))])
    else Out(s, [])
  }

  /** The EPOLLERR branch: deregistered, not resumed. */
  function Abandon(s: Sched, co: Id): (t: Sched)
    requires co in s.waitFd
  {
    s.(epoll := s.epoll - {s.waitFd[co]}, abandoned := s.abandoned + {co})
  }

  lemma AbandonInv(s: Sched, co: Id)
    requires Between(s) && Registered(s, co)
    ensures Between(Abandon(s, co)) && Undisturbed(s, Abandon(s, co), co)
  {
    RegisteredWaits(s, co);
    var t := Abandon(s, co);
    forall c: Id | c != co ensures Registered(t, c) <==> Registered(s, c) {
    }
    assert t.sleep == s.sleep && t.status == s.status;
    assert forall c: Id :: Asleep(t, c) <==> Asleep(s, c);
  }

  /** What epoll_wait can report: registered coroutines, each once. */
  ghost predicate Reported(s: Sched, events: seq<Event>) {
    && (forall i :: 0 <= i < |events| ==> Registered(s, events[i].co))
    && (forall i, j :: 0 <= i < j < |events| ==> events[i].co != events[j].co)
  }

  ghost predicate EventLegal(s: Sched, e: Event)
    requires Between(s) && Registered(s, e.co)
  {
    e.err || (WakeWaiter(s, e.co); CanEnd(Wake(s, e.co), e.script.last))
  }

  ghost function EventStep(s: Sched, e: Event): (r: Out)
    requires Between(s) && Registered(s, e.co) && EventLegal(s, e)
    ensures Between(r.s) && Undisturbed(s, r.s, e.co)
  {
    if e.err then
      AbandonInv(s, e.co);
      Out(Abandon(s, e.co), [])
    else
      WakeWaiter(s, e.co);
      WakeWaiterFrame(s, e.co);
      Out(RunFrom(Wake(s, e.co), e.co, e.script), [Resumed(e.co, ByEvent, Look(s, e.co))])
  }

  lemma WakeWaiterFrame(s: Sched, co: Id)
    requires Inv(s) && s.cur == None && Registered(s, co) && Is(s, co, Waiting)
    ensures Undisturbed(s, Wake(s, co), co)
  {
  }

  /** Mid-batch safety: handling one event leaves every later event of the batch with a
      coroutine that is alive and registered. */
  lemma StillReported(s: Sched, events: seq<Event>)
    requires Between(s) && events != [] && Reported(s, events) && EventLegal(s, events[0])
    ensures Reported(EventStep(s, events[0]).s, events[1..])
  {
    var t := EventStep(s, events[0]).s;
    forall i | 0 <= i < |events[1..]| ensures Registered(t, events[1..][i].co) {
      assert events[1..][i] == events[i + 1];
      assert events[0].co != events[i + 1].co;
    }
  }

  ghost predicate BatchLegal(s: Sched, events: seq<Event>)
    requires Between(s) && Reported(s, events)
    decreases |events|
  {
    events == [] ||
    (EventLegal(s, events[0]) && (StillReported(s, events); BatchLegal(EventStep(s, events[0]).s, events[1..])))
  }

  ghost function Batch(s: Sched, events: seq<Event>): (r: Out)
    requires Between(s) && Reported(s, events) && BatchLegal(s, events)
    ensures Between(r.s)
    decreases |events|
  {
    if events == [] then Out(s, [])
    else
      StillReported(s, events);
      var first := EventStep(s, events[0]);
      var more := Batch(first.s, events[1..]);
      Out(more.s, first.trace + more.trace)
  }

  /** The environment keeps to what the operating system and the containers allow. */
  ghost predicate CallLegal(s: Sched, c: Call)
    requires Between(s)
  {
    && SleepLegal(s, c.now, c.sleepScript)
    && var s1 := SleepPhase(s, c.now, c.sleepScript).s;
    && ReadyLegal(s1, c.readyScript)
    && var s2 := ReadyPhase(s1, c.readyScript).s;
    Reported(s2, c.events) && BatchLegal(s2, c.events)
  }

  ghost function Schedule(s: Sched, c: Call): (r: Out)
    requires Between(s) && CallLegal(s, c)
    ensures Between(r.s)
  {
    var a := SleepPhase(s, c.now, c.sleepScript);
    var b := ReadyPhase(a.s, c.readyScript);
    var d := Batch(b.s, c.events);
    Out(d.s, a.trace + b.trace + d.trace)
  }

  /** Every resume is of a live coroutine that was put away in the matching way: a ready
      one from the ready list, a waiting one by its event, a sleeping one only at a clock
      reading that has reached its deadline. */
  ghost predicate Proper(r: Resumed) {
    match r.via
    case ByReady => r.was == Some(Ready)
    case ByEvent => r.was == Some(Waiting)
    case BySleep(deadline, now) => r.was == Some(Sleeping) && now >= deadline
  }

  lemma EventProper(s: Sched, e: Event)
    requires Between(s) && Registered(s, e.co) && EventLegal(s, e)
    ensures forall r :: r in EventStep(s, e).trace ==> Proper(r) && r.via == ByEvent && r.co == e.co
  {
    RegisteredWaits(s, e.co);
  }

  lemma {:induction false} BatchProper(s: Sched, events: seq<Event>)
    requires Between(s) && Reported(s, events) && BatchLegal(s, events)
    ensures forall r :: r in Batch(s, events).trace ==> Proper(r) && r.via == ByEvent
    ensures forall r :: r in Batch(s, events).trace ==> exists e :: e in events && e.co == r.co
    decreases |events|
  {
    if events != [] {
      EventProper(s, events[0]);
      StillReported(s, events);
      BatchProper(EventStep(s, events[0]).s, events[1..]);
      assert events[0] in events;
      assert forall e :: e in events[1..] ==> e in events;
    }
  }

  lemma SleepProper(s: Sched, now: int, script: Script)
    requires Between(s) && SleepLegal(s, now, script)
    ensures forall r :: r in SleepPhase(s, now, script).trace ==> Proper(r)
  {
    if SleepDue(s, now) {
      WakeSleeper(s);
    }
  }

  lemma ReadyProper(s: Sched, script: Script)
    requires Between(s) && ReadyLegal(s, script)
    ensures forall r :: r in ReadyPhase(s, script).trace ==> Proper(r)
  {
    if s.ready != [] {
      WakeReady(s);
    }
  }

  lemma ScheduleProper(s: Sched, c: Call)
    requires Between(s) && CallLegal(s, c)
    ensures forall r :: r in Schedule(s, c).trace ==> Proper(r)
  {
    var a := SleepPhase(s, c.now, c.sleepScript);
    SleepProper(s, c.now, c.sleepScript);
    var b := ReadyPhase(a.s, c.readyScript);
    ReadyProper(a.s, c.readyScript);
    var d := Batch(b.s, c.events);
    BatchProper(b.s, c.events);
    InThree(a.trace, b.trace, d.trace);
  }

  lemma InThree(a: seq<Resumed>, b: seq<Resumed>, d: seq<Resumed>)
    ensures forall r :: r in a + b + d <==> r in a || r in b || r in d
  {
  }

  /** Sleep order: a wake takes, of all sleepers, the one with the least deadline, and of
      those with that deadline the one that went to sleep first; and some sleeper wakes
      exactly if one is due. */
  lemma WakesTheEarliest(s: Sched, now: int, script: Script, x: Sleeper)
    requires Between(s) && SleepLegal(s, now, script) && x in s.sleep
    ensures SleepDue(s, now) <==> exists y :: y in s.sleep && y.deadline <= now
    ensures SleepDue(s, now) ==> x == s.sleep[0] || Before(s.sleep[0], x)
    ensures SleepDue(s, now) ==>
              SleepPhase(s, now, script).trace == [Resumed(s.sleep[0].co, BySleep(s.sleep[0].deadline, now), Some(Sleeping))]
  {
    var i :| 0 <= i < |s.sleep| && s.sleep[i] == x;
    assert i > 0 ==> Before(s.sleep[0], s.sleep[i]);
    if y :| y in s.sleep && y.deadline <= now {
      var j :| 0 <= j < |s.sleep| && s.sleep[j] == y;
      assert j > 0 ==> Before(s.sleep[0], s.sleep[j]);
    }
    if SleepDue(s, now) {
      assert s.sleep[0] in s.sleep;
      WakeSleeper(s);
    }
  }

  // ---------------------------------------------------------------- the scheduler in place

  class CoScheduler {
    var ready: seq<Id>
    var sleep: seq<Sleeper>
    var epoll: map<int, Id>
    var cur: Option<Id>
    var status: map<Id, Status>
    var waitFd: map<Id, int>
    ghost var abandoned: set<Id>
    var nextId: Id
    var nextTicket: nat

    ghost function View(): (s: Sched)
      reads this
    {
      Sched(ready, sleep, epoll, cur, status, waitFd, abandoned, nextId, nextTicket)
    }

    constructor ()
      ensures IsInitial(View()) && Between(View())
    {
      ready, sleep, epoll, cur, status, waitFd := [], [], map[], None, map[], map[];
      abandoned, nextId, nextTicket := {}, 0, 0;
      new;
      InitialInv(View());
    }

    /** insert_sleep_rbtree */
    method InsertSleepTree(deadline: int, co: Id)
      modifies this`sleep, this`nextTicket
      ensures sleep == InsertSleep(old(sleep), Sleeper(deadline, co, old(nextTicket)))
      ensures nextTicket == old(nextTicket) + 1
    {
      sleep := InsertSleep(sleep, Sleeper(deadline, co, nextTicket));
      nextTicket := nextTicket + 1;
    }

    /** The first half of resume() and the statement after the switch back. */
    method Awaken(co: Id)
      requires co in status && status[co] != Running
      requires status[co] == Sleeping ==> sleep != []
      requires status[co] == Waiting ==> co in waitFd
      modifies this
      ensures View() == Wake(old(View()), co)
    {
      var was := status[co];
      cur := Some(co);
      status := status[co := Running];
      if was == Sleeping {
        sleep := sleep[1..];
      } else if was == Waiting {
        epoll := epoll - {waitFd[co]};
      }
    }

    /** The coroutine creates n others. */
    method Create(n: nat)
      modifies this
      ensures View() == SpawnMany(old(View()), n)
    {
      var left := n;
      while left > 0
        invariant SpawnMany(View(), left) == SpawnMany(old(View()), n)
      {
        ready := ready + [nextId];
        status := status[nextId := Ready];
        nextId := nextId + 1;
        left := left - 1;
      }
    }

    /** yield, msleep, the cosocket wait, or the end of _exec and the delete. */
    method GoAway(co: Id, last: Last)
      requires co in status && CanEnd(View(), last)
      modifies this
      ensures View() == PutAway(old(View()), co, last)
    {
      cur := None;
      match last {
        case Yield =>
          ready := ready + [co];
          status := status[co := Ready];
        case Sleep(now, ms) =>
          status := status[co := Sleeping];
          InsertSleepTree(now + ms, co);
        case Wait(fd) =>
          waitFd := waitFd[co := fd];
          epoll := epoll[fd := co];
          status := status[co := Waiting];
        case Exit =>
          status := status - {co};
      }
    }

    method RunScript(co: Id, script: Script)
      requires Inv(View()) && cur == Some(co) && CanEnd(View(), script.last)
      modifies this
      ensures View() == RunFrom(old(View()), co, script)
    {
      SpawnManyInv(View(), script.spawns);
      Create(script.spawns);
      PutAwayInv(View(), co, script.last);
      GoAway(co, script.last);
    }

    /** schedule() */
    method ScheduleOnce(c: Call)
      requires Between(View()) && CallLegal(View(), c)
      modifies this
      ensures View() == Schedule(old(View()), c).s && Between(View())
    {
      WakeSleepers(c);
      TakeReady(c);
      HandleEvents(c.events);
    }

    method WakeSleepers(c: Call)
      requires Between(View()) && SleepLegal(View(), c.now, c.sleepScript)
      modifies this
      ensures View() == SleepPhase(old(View()), c.now, c.sleepScript).s
    {
      if sleep != [] && c.now >= sleep[0].deadline {
        WakeSleeper(View());
        var co := sleep[0].co;
        Awaken(co);
        RunScript(co, c.sleepScript);
      }
    }

    method TakeReady(c: Call)
      requires Between(View()) && ReadyLegal(View(), c.readyScript)
      modifies this
      ensures View() == ReadyPhase(old(View()), c.readyScript).s
    {
      if ready != [] {
        WakeReady(View());
        var co := ready[0];
        ready := ready[1..];
        Awaken(co);
        RunScript(co, c.readyScript);
      }
    }

    method HandleEvents(events: seq<Event>)
      requires Between(View()) && Reported(View(), events) && BatchLegal(View(), events)
      modifies this
      ensures View() == Batch(old(View()), events).s
    {
      var rest := events;
      while rest != []
        invariant Between(View()) && Reported(View(), rest) && BatchLegal(View(), rest)
        invariant Batch(View(), rest).s == Batch(old(View()), events).s
        decreases |rest|
      {
        StillReported(View(), rest);
        HandleEvent(rest[0]);
        rest := rest[1..];
      }
    }

    method HandleEvent(e: Event)
      requires Between(View()) && Registered(View(), e.co) && EventLegal(View(), e)
      modifies this
      ensures View() == EventStep(old(View()), e).s
    {
      RegisteredWaits(View(), e.co);
      if e.err {
        epoll := epoll - {waitFd[e.co]};
        abandoned := abandoned + {e.co};
      } else {
        WakeWaiter(View(), e.co);
        Awaken(e.co);
        RunScript(e.co, e.script);
      }
    }
  }
}
