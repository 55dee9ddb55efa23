/**
 Whole runs of the coroutine scheduler: turns of a main loop that creates coroutines and
 calls schedule, with everything else chosen by the environment.
 */
module SchedulerRuns {
  import opened Common
  import opened Scheduler

  // ---------------------------------------------------------------- bounded waiting

  /** A ready coroutine stays where it is, relative to the front, while others run. */
  lemma {:induction false} BatchKeepsReady(s: Sched, events: seq<Event>)
    requires Between(s) && Reported(s, events) && BatchLegal(s, events)
    ensures s.ready <= Batch(s, events).s.ready
    decreases |events|
  {
    if events != [] {
      StillReported(s, events);
      BatchKeepsReady(EventStep(s, events[0]).s, events[1..]);
    }
  }

  lemma SleepKeepsReady(s: Sched, now: int, script: Script)
    requires Between(s) && SleepLegal(s, now, script)
    ensures s.ready <= SleepPhase(s, now, script).s.ready
    ensures forall r :: r in SleepPhase(s, now, script).trace ==> r.co !in s.ready
  {
    if SleepDue(s, now) {
      WakeSleeper(s);
      assert Wake(s, s.sleep[0].co).ready == s.ready;
    }
  }

  lemma ReadyTakesFront(s: Sched, script: Script)
    requires Between(s) && ReadyLegal(s, script) && s.ready != []
    ensures s.ready[1..] <= ReadyPhase(s, script).s.ready
    ensures ReadyPhase(s, script).trace == [Resumed(s.ready[0], ByReady, Some(Ready))]
    ensures forall c: Id :: c in s.ready[1..] ==> c != s.ready[0]
  {
    WakeReady(s);
    assert s.ready == [s.ready[0]] + s.ready[1..];
  }

  /** The batch resumes nobody who is in the ready list when it starts. */
  lemma BatchSparesReady(s: Sched, events: seq<Event>, co: Id)
    requires Between(s) && Reported(s, events) && BatchLegal(s, events) && co in s.ready
    ensures forall r :: r in Batch(s, events).trace ==> r.co != co
  {
    BatchProper(s, events);
    assert Is(s, co, Ready);
    forall e | e in events ensures e.co != co {
      var i :| 0 <= i < |events| && events[i] == e;
      RegisteredWaits(s, e.co);
    }
  }

  lemma FrontMoves(s: seq<Id>, a: seq<Id>, b: seq<Id>, d: seq<Id>, k: nat)
    requires 0 < k < |s| && s <= a && a[1..] <= b && b <= d
    ensures k - 1 < |d| && d[k - 1] == s[k] && s[k] in s && s[k] in a[1..] && s[k] in b
  {
    assert a[1..][k - 1] == s[k] && b[k - 1] == s[k];
  }

  /** One call of schedule moves the coroutine at position k one place forward without
      resuming it, or resumes it if it is at the front. */
  lemma OneCall(s: Sched, c: Call, k: nat)
    requires Between(s) && CallLegal(s, c) && k < |s.ready|
    ensures k == 0 ==> Resumed(s.ready[0], ByReady, Some(Ready)) in Schedule(s, c).trace
    ensures k > 0 ==> k - 1 < |Schedule(s, c).s.ready| && Schedule(s, c).s.ready[k - 1] == s.ready[k]
    ensures k > 0 ==> forall r :: r in Schedule(s, c).trace ==> r.co != s.ready[k]
  {
    var a := SleepPhase(s, c.now, c.sleepScript);
    SleepKeepsReady(s, c.now, c.sleepScript);
    var b := ReadyPhase(a.s, c.readyScript);
    ReadyTakesFront(a.s, c.readyScript);
    var d := Batch(b.s, c.events);
    BatchKeepsReady(b.s, c.events);
    InThree(a.trace, b.trace, d.trace);
    if k > 0 {
      FrontMoves(s.ready, a.s.ready, b.s.ready, d.s.ready, k);
      BatchSparesReady(b.s, c.events, s.ready[k]);
    }
  }

  /** One turn of the main loop: how many coroutines are created outside of any coroutine,
      the state after that, one call of schedule with its environment, the coroutines it
      resumed and the state after it. */
  datatype Round = Round(created: nat, s: Sched, call: Call, resumed: set<Id>, t: Sched)

  ghost predicate Happened(r: Round) {
    && Between(r.s) && CallLegal(r.s, r.call)
    && r.t == Schedule(r.s, r.call).s
    && r.resumed == set x | x in Schedule(r.s, r.call).trace :: x.co
  }

  ghost predicate Chained(run: seq<Round>) {
    forall i, j :: 0 <= i < j < |run| && j == i + 1 ==> run[j].s == SpawnMany(run[i].t, run[j].created)
  }

  /** A run of turns, each with its own environment. */
  ghost predicate IsRun(run: seq<Round>) {
    Chained(run) && forall i :: 0 <= i < |run| ==> Happened(run[i])
  }

  lemma {:induction false} SpawnsBehind(s: Sched, n: nat)
    ensures s.ready <= SpawnMany(s, n).ready
    ensures SpawnMany(s, n).abandoned == s.abandoned && SpawnMany(s, n).sleep == s.sleep
    decreases n
  {
    if n > 0 {
      SpawnsBehind(Spawn(s), n - 1);
    }
  }

  /** From the fresh scheduler on the invariant is never what keeps a turn from happening:
      if the turns before i have happened, the state of turn i is a proper one. */
  lemma ReachesOnlyProper(start: Sched, run: seq<Round>, i: nat)
    requires IsInitial(start) && i < |run| && run[0].s == SpawnMany(start, run[0].created) && Chained(run)
    requires forall j :: 0 <= j < i ==> Happened(run[j])
    ensures Between(run[i].s)
  {
    if i == 0 {
      InitialInv(start);
      SpawnManyInv(start, run[0].created);
    } else {
      assert Happened(run[i - 1]);
      SpawnManyInv(run[i - 1].t, run[i].created);
    }
  }

  /** Of the ready list exactly the front is resumed, and the rest moves up by one. */
  ghost predicate MovesUp(r: Round) {
    forall k :: 0 <= k < |r.s.ready| ==>
      && (r.s.ready[k] in r.resumed <==> k == 0)
      && (k > 0 ==> k - 1 < |r.t.ready| && r.t.ready[k - 1] == r.s.ready[k])
  }

  lemma CallMovesUp(r: Round)
    requires Happened(r)
    ensures MovesUp(r)
  {
    forall k | 0 <= k < |r.s.ready|
      ensures r.s.ready[k] in r.resumed <==> k == 0
      ensures k > 0 ==> k - 1 < |r.t.ready| && r.t.ready[k - 1] == r.s.ready[k]
    {
      OneCall(r.s, r.call, k);
    }
  }

  lemma {:induction false} Position(run: seq<Round>, k: nat, i: nat)
    requires Chained(run) && forall j :: 0 <= j < |run| ==> MovesUp(run[j])
    requires i < |run| && k < |run[0].s.ready| && i <= k
    ensures k - i < |run[i].s.ready| && run[i].s.ready[k - i] == run[0].s.ready[k]
  {
    if i > 0 {
      Position(run, k, i - 1);
      assert MovesUp(run[i - 1]);
      SpawnsBehind(run[i - 1].t, run[i].created);
    }
  }

  /** Bounded waiting: the coroutine at position k of the ready list is not resumed in the
      next k calls of schedule and is resumed in the one after them, whatever the others
      do in between. */
  lemma BoundedWaiting(run: seq<Round>, k: nat, i: nat)
    requires IsRun(run) && i < |run| && k < |run[0].s.ready| && i <= k
    ensures run[0].s.ready[k] in run[i].resumed <==> i == k
  {
    forall j | 0 <= j < |run| ensures MovesUp(run[j]) {
      CallMovesUp(run[j]);
    }
    Position(run, k, i);
    assert MovesUp(run[i]);
  }

  // ---------------------------------------------------------------- bounded waiting of sleepers

  /** The trace resumes nobody with that name. */
  ghost predicate Absent(trace: seq<Resumed>, co: Id) { forall r :: r in trace ==> r.co != co }

  /** A sleep begun now or later does not end before t. */
  predicate Ahead(script: Script, t: int) { script.last.Sleep? ==> script.last.ms >= 0 && script.last.now >= t }

  /** The clock does not read less than t, and no sleep is negative. */
  ghost predicate CallAhead(c: Call, t: int) {
    && c.now >= t && Ahead(c.sleepScript, t) && Ahead(c.readyScript, t)
    && forall e :: e in c.events ==> Ahead(e.script, t)
  }

  lemma {:induction false} InsertBehind(q: seq<Sleeper>, e: Sleeper, k: nat)
    requires k < |q| && forall i :: 0 <= i <= k ==> q[i].deadline <= e.deadline
    ensures k < |InsertSleep(q, e)| && InsertSleep(q, e)[k] == q[k]
  {
    if k > 0 {
      InsertBehind(q[1..], e, k - 1);
    }
  }

  /** The sleeper x, due at t, is at position k. */
  ghost predicate SleepsAt(sl: seq<Sleeper>, x: Sleeper, k: int, t: int) {
    0 <= k < |sl| && sl[k] == x && x.deadline <= t
  }

  lemma PutAwayKeepsSleeper(m: Sched, co: Id, last: Last, x: Sleeper, k: nat, t: int)
    requires co in m.status && CanEnd(m, last) && Ordered(m.sleep) && SleepsAt(m.sleep, x, k, t)
    requires last.Sleep? ==> last.ms >= 0 && last.now >= t
    ensures SleepsAt(PutAway(m, co, last).sleep, x, k, t)
  {
    if last.Sleep? {
      forall i | 0 <= i <= k ensures m.sleep[i].deadline <= t {
        assert i < k ==> Before(m.sleep[i], m.sleep[k]);
      }
      InsertBehind(m.sleep, Sleeper(last.now + last.ms, co, m.nextTicket), k);
    }
  }

  lemma RunKeepsSleeper(w: Sched, co: Id, script: Script, x: Sleeper, k: nat, t: int)
    requires Inv(w) && w.cur == Some(co) && CanEnd(w, script.last) && Ahead(script, t) && SleepsAt(w.sleep, x, k, t)
    ensures SleepsAt(RunFrom(w, co, script).sleep, x, k, t)
  {
    SpawnManyInv(w, script.spawns);
    SpawnsBehind(w, script.spawns);
    PutAwayKeepsSleeper(SpawnMany(w, script.spawns), co, script.last, x, k, t);
  }

  /** A due sleeper behind the front moves up when the front is woken. */
  lemma SleepTakesFront(s: Sched, now: int, script: Script, x: Sleeper, k: nat, t: int)
    requires Between(s) && SleepLegal(s, now, script) && Ahead(script, t) && now >= t && SleepsAt(s.sleep, x, k, t)
    ensures SleepPhase(s, now, script).trace == [Resumed(s.sleep[0].co, BySleep(s.sleep[0].deadline, now), Some(Sleeping))]
    ensures k > 0 ==> SleepsAt(SleepPhase(s, now, script).s.sleep, x, k - 1, t) && s.sleep[0].co != x.co
  {
    assert k > 0 ==> Before(s.sleep[0], s.sleep[k]);
    WakeSleeper(s);
    if k > 0 {
      RunKeepsSleeper(Wake(s, s.sleep[0].co), s.sleep[0].co, script, x, k - 1, t);
    }
  }

  lemma SleeperSleeps(s: Sched, x: Sleeper, k: nat, t: int)
    requires Inv(s) && SleepsAt(s.sleep, x, k, t)
    ensures Is(s, x.co, Sleeping)
  {
    assert s.sleep[k] in s.sleep;
  }

  lemma ReadySparesSleeper(s: Sched, script: Script, x: Sleeper, k: nat, t: int)
    requires Between(s) && ReadyLegal(s, script) && Ahead(script, t) && SleepsAt(s.sleep, x, k, t)
    ensures SleepsAt(ReadyPhase(s, script).s.sleep, x, k, t)
    ensures Absent(ReadyPhase(s, script).trace, x.co)
  {
    SleeperSleeps(s, x, k, t);
    if s.ready != [] {
      WakeReady(s);
      RunKeepsSleeper(Wake(s.(ready := s.ready[1..]), s.ready[0]), s.ready[0], script, x, k, t);
    }
  }

  lemma EventSparesSleeper(s: Sched, e: Event, x: Sleeper, k: nat, t: int)
    requires Between(s) && Registered(s, e.co) && EventLegal(s, e) && Ahead(e.script, t) && SleepsAt(s.sleep, x, k, t)
    ensures SleepsAt(EventStep(s, e).s.sleep, x, k, t)
    ensures Absent(EventStep(s, e).trace, x.co)
  {
    SleeperSleeps(s, x, k, t);
    RegisteredWaits(s, e.co);
    if !e.err {
      WakeWaiter(s, e.co);
      RunKeepsSleeper(Wake(s, e.co), e.co, e.script, x, k, t);
    }
  }

  lemma {:induction false} BatchSparesSleeper(s: Sched, events: seq<Event>, x: Sleeper, k: nat, t: int)
    requires Between(s) && Reported(s, events) && BatchLegal(s, events)
    requires (forall e :: e in events ==> Ahead(e.script, t)) && SleepsAt(s.sleep, x, k, t)
    ensures SleepsAt(Batch(s, events).s.sleep, x, k, t)
    ensures Absent(Batch(s, events).trace, x.co)
    decreases |events|
  {
    if events != [] {
      assert events[0] in events;
      StillReported(s, events);
      EventSparesSleeper(s, events[0], x, k, t);
      BatchSparesSleeper(EventStep(s, events[0]).s, events[1..], x, k, t);
    }
  }

  /** One call of schedule wakes a due sleeper at the front. */
  lemma FrontSleeperWakes(s: Sched, c: Call, x: Sleeper, t: int)
    requires Between(s) && CallLegal(s, c) && CallAhead(c, t) && SleepsAt(s.sleep, x, 0, t)
    ensures exists r :: r in Schedule(s, c).trace && r.co == x.co
  {
    var a := SleepPhase(s, c.now, c.sleepScript);
    SleepTakesFront(s, c.now, c.sleepScript, x, 0, t);
    var b := ReadyPhase(a.s, c.readyScript);
    InThree(a.trace, b.trace, Batch(b.s, c.events).trace);
    assert a.trace[0] in a.trace;
  }

  /** It moves any other due sleeper one place forward. */
  lemma SleeperAdvances(s: Sched, c: Call, x: Sleeper, k: nat, t: int)
    requires Between(s) && CallLegal(s, c) && CallAhead(c, t) && SleepsAt(s.sleep, x, k, t) && k > 0
    ensures SleepsAt(Schedule(s, c).s.sleep, x, k - 1, t)
  {
    var a := SleepPhase(s, c.now, c.sleepScript);
    SleepTakesFront(s, c.now, c.sleepScript, x, k, t);
    ReadySparesSleeper(a.s, c.readyScript, x, k - 1, t);
    BatchSparesSleeper(ReadyPhase(a.s, c.readyScript).s, c.events, x, k - 1, t);
  }

  /** And it does not resume it. */
  lemma SleeperIsSpared(s: Sched, c: Call, x: Sleeper, k: nat, t: int)
    requires Between(s) && CallLegal(s, c) && CallAhead(c, t) && SleepsAt(s.sleep, x, k, t) && k > 0
    ensures Absent(Schedule(s, c).trace, x.co)
  {
    var a := SleepPhase(s, c.now, c.sleepScript);
    SleepTakesFront(s, c.now, c.sleepScript, x, k, t);
    ReadySparesSleeper(a.s, c.readyScript, x, k - 1, t);
    var b := ReadyPhase(a.s, c.readyScript);
    BatchSparesSleeper(b.s, c.events, x, k - 1, t);
    InThree(a.trace, b.trace, Batch(b.s, c.events).trace);
  }

  ghost predicate SleeperMovesUp(r: Round, x: Sleeper, t: int) {
    forall k :: SleepsAt(r.s.sleep, x, k, t) ==>
      && (x.co in r.resumed <==> k == 0)
      && (k > 0 ==> SleepsAt(r.t.sleep, x, k - 1, t))
  }

  lemma CallMovesSleepersUp(r: Round, x: Sleeper, t: int)
    requires Happened(r) && CallAhead(r.call, t)
    ensures SleeperMovesUp(r, x, t)
  {
    forall k | SleepsAt(r.s.sleep, x, k, t)
      ensures x.co in r.resumed <==> k == 0
      ensures k > 0 ==> SleepsAt(r.t.sleep, x, k - 1, t)
    {
      if k == 0 {
        FrontSleeperWakes(r.s, r.call, x, t);
      } else {
        SleeperAdvances(r.s, r.call, x, k, t);
        SleeperIsSpared(r.s, r.call, x, k, t);
      }
    }
  }

  lemma {:induction false} SleeperPosition(run: seq<Round>, x: Sleeper, k: nat, t: int, i: nat)
    requires Chained(run) && i < |run| && i <= k && SleepsAt(run[0].s.sleep, x, k, t)
    requires forall j :: 0 <= j < |run| ==> SleeperMovesUp(run[j], x, t)
    ensures SleepsAt(run[i].s.sleep, x, k - i, t)
  {
    if i > 0 {
      SleeperPosition(run, x, k, t, i - 1);
      assert SleeperMovesUp(run[i - 1], x, t);
      assert SleepsAt(run[i - 1].t.sleep, x, k - i, t);
      SpawnsBehind(run[i - 1].t, run[i].created);
    }
  }

  /** Bounded waiting of sleepers: with a clock that does not go back behind t and no
      negative sleeps, a sleeper due at t at position k of the sleep tree is resumed in
      exactly the (k+1)-th call of schedule. */
  lemma SleepersBoundedWaiting(run: seq<Round>, x: Sleeper, k: nat, t: int, i: nat)
    requires IsRun(run) && i < |run| && i <= k && SleepsAt(run[0].s.sleep, x, k, t)
    requires forall j :: 0 <= j < |run| ==> CallAhead(run[j].call, t)
    ensures x.co in run[i].resumed <==> i == k
  {
    forall j | 0 <= j < |run| ensures SleeperMovesUp(run[j], x, t) {
      CallMovesSleepersUp(run[j], x, t);
    }
    SleeperPosition(run, x, k, t, i);
    assert SleeperMovesUp(run[i], x, t);
  }

  /** Over whole runs: before and after every call each live coroutine is in exactly one
      place, every resume is of a live coroutine put away in the matching way, and no
      sleeper is resumed below its deadline. */
  lemma EveryRun(run: seq<Round>, i: nat, c: Id)
    requires IsRun(run) && i < |run|
    ensures Happened(run[i])
    ensures c in run[i].s.status ==> InExactlyOnePlace(run[i].s, c)
    ensures c in run[i].t.status ==> InExactlyOnePlace(run[i].t, c)
    ensures forall x :: x in Schedule(run[i].s, run[i].call).trace ==> Proper(x)
  {
    EveryRound(run[i], c);
  }

  lemma EveryRound(r: Round, c: Id)
    requires Happened(r)
    ensures c in r.s.status ==> InExactlyOnePlace(r.s, c)
    ensures c in r.t.status ==> InExactlyOnePlace(r.t, c)
    ensures forall x :: x in Schedule(r.s, r.call).trace ==> Proper(x)
  {
    Partition(r.s, c);
    Partition(r.t, c);
    ScheduleProper(r.s, r.call);
  }

  // ---------------------------------------------------------------- the EPOLLERR branch

  /** Some event of the batch reports an error for c. */
  ghost predicate Failed(events: seq<Event>, c: Id) { exists e :: e in events && e.co == c && e.err }

  lemma RunKeepsAbandoned(w: Sched, co: Id, script: Script)
    requires Inv(w) && w.cur == Some(co) && CanEnd(w, script.last)
    ensures RunFrom(w, co, script).abandoned == w.abandoned
  {
    SpawnManyInv(w, script.spawns);
  }

  lemma EventAbandons(s: Sched, e: Event)
    requires Between(s) && Registered(s, e.co) && EventLegal(s, e)
    ensures EventStep(s, e).s.abandoned == s.abandoned + if e.err then {e.co} else {}
  {
    if !e.err {
      WakeWaiter(s, e.co);
      RunKeepsAbandoned(Wake(s, e.co), e.co, e.script);
    }
  }

  lemma FailedCons(events: seq<Event>, c: Id)
    requires events != []
    ensures Failed(events, c) <==> (events[0].co == c && events[0].err) || Failed(events[1..], c)
  {
    assert events == [events[0]] + events[1..];
  }

  /** A batch abandons exactly the coroutines for which it reports an error. */
  lemma {:induction false} BatchAbandons(s: Sched, events: seq<Event>, c: Id)
    requires Between(s) && Reported(s, events) && BatchLegal(s, events)
    ensures c in Batch(s, events).s.abandoned <==> c in s.abandoned || Failed(events, c)
    decreases |events|
  {
    if events != [] {
      StillReported(s, events);
      EventAbandons(s, events[0]);
      BatchAbandons(EventStep(s, events[0]).s, events[1..], c);
      FailedCons(events, c);
    }
  }

  lemma SleepKeepsAbandoned(s: Sched, now: int, script: Script)
    requires Between(s) && SleepLegal(s, now, script)
    ensures SleepPhase(s, now, script).s.abandoned == s.abandoned
  {
    if SleepDue(s, now) {
      WakeSleeper(s);
      RunKeepsAbandoned(Wake(s, s.sleep[0].co), s.sleep[0].co, script);
    }
  }

  lemma ReadyKeepsAbandoned(s: Sched, script: Script)
    requires Between(s) && ReadyLegal(s, script)
    ensures ReadyPhase(s, script).s.abandoned == s.abandoned
  {
    if s.ready != [] {
      WakeReady(s);
      RunKeepsAbandoned(Wake(s.(ready := s.ready[1..]), s.ready[0]), s.ready[0], script);
    }
  }

  /** A call abandons exactly the coroutines for which its events report an error. */
  lemma CallAbandons(s: Sched, call: Call, c: Id)
    requires Between(s) && CallLegal(s, call)
    ensures c in Schedule(s, call).s.abandoned <==> c in s.abandoned || Failed(call.events, c)
  {
    SleepKeepsAbandoned(s, call.now, call.sleepScript);
    var a := SleepPhase(s, call.now, call.sleepScript).s;
    ReadyKeepsAbandoned(a, call.readyScript);
    BatchAbandons(ReadyPhase(a, call.readyScript).s, call.events, c);
  }

  lemma SleepSparesAbandoned(s: Sched, now: int, script: Script, c: Id)
    requires Between(s) && SleepLegal(s, now, script) && c in s.abandoned
    ensures c in SleepPhase(s, now, script).s.abandoned
    ensures forall r :: r in SleepPhase(s, now, script).trace ==> r.co != c
  {
    if SleepDue(s, now) {
      WakeSleeper(s);
    }
  }

  lemma ReadySparesAbandoned(s: Sched, script: Script, c: Id)
    requires Between(s) && ReadyLegal(s, script) && c in s.abandoned
    ensures c in ReadyPhase(s, script).s.abandoned
    ensures forall r :: r in ReadyPhase(s, script).trace ==> r.co != c
  {
    if s.ready != [] {
      WakeReady(s);
    }
  }

  lemma BatchSparesAbandoned(s: Sched, events: seq<Event>, c: Id)
    requires Between(s) && Reported(s, events) && BatchLegal(s, events) && c in s.abandoned
    ensures forall r :: r in Batch(s, events).trace ==> r.co != c
  {
    BatchProper(s, events);
    forall e | e in events ensures e.co != c {
      var i :| 0 <= i < |events| && events[i] == e;
      assert Registered(s, events[i].co);
    }
  }

  lemma CallSparesAbandoned(s: Sched, call: Call, c: Id)
    requires Between(s) && CallLegal(s, call) && c in s.abandoned
    ensures forall r :: r in Schedule(s, call).trace ==> r.co != c
  {
    var a := SleepPhase(s, call.now, call.sleepScript);
    SleepSparesAbandoned(s, call.now, call.sleepScript, c);
    var b := ReadyPhase(a.s, call.readyScript);
    ReadySparesAbandoned(a.s, call.readyScript, c);
    var d := Batch(b.s, call.events);
    BatchSparesAbandoned(b.s, call.events, c);
    InThree(a.trace, b.trace, d.trace);
  }

  /** What a turn does to c as to being abandoned. */
  ghost predicate Marks(r: Round, c: Id) {
    && (c in r.t.abandoned <==> c in r.s.abandoned || Failed(r.call.events, c))
    && (c in r.s.abandoned ==> c !in r.resumed)
    && (c in r.t.abandoned ==> c in r.t.status)
  }

  lemma RoundMarks(r: Round, c: Id)
    requires Happened(r)
    ensures Marks(r, c)
  {
    CallAbandons(r.s, r.call, c);
    if c in r.s.abandoned {
      CallSparesAbandoned(r.s, r.call, c);
    }
    AbandonedLives(r.t, c);
  }

  lemma AbandonedLives(s: Sched, c: Id)
    requires Inv(s)
    ensures c in s.abandoned ==> c in s.status
  {
  }

  lemma {:induction false} MarksAdd(run: seq<Round>, c: Id, j: nat)
    requires Chained(run) && j < |run| && forall i :: 0 <= i < |run| ==> Marks(run[i], c)
    ensures c in run[j].t.abandoned <==>
            c in run[0].s.abandoned || exists i :: 0 <= i <= j && Failed(run[i].call.events, c)
    ensures j > 0 ==> run[j].s.abandoned == run[j - 1].t.abandoned
  {
    assert Marks(run[j], c);
    if j > 0 {
      MarksAdd(run, c, j - 1);
      SpawnsBehind(run[j - 1].t, run[j].created);
    }
  }

  lemma AllMarks(run: seq<Round>, c: Id)
    requires IsRun(run)
    ensures Chained(run) && forall i :: 0 <= i < |run| ==> Marks(run[i], c)
  {
    forall i | 0 <= i < |run| ensures Marks(run[i], c) {
      RoundMarks(run[i], c);
    }
  }

  /** Over whole runs, a coroutine has been abandoned by the end of turn j if and only if it
      was so at the beginning or some turn up to j reported an error for it. */
  lemma AbandonedExactly(run: seq<Round>, c: Id, j: nat)
    requires IsRun(run) && j < |run|
    ensures c in run[j].t.abandoned <==>
            c in run[0].s.abandoned || exists i :: 0 <= i <= j && Failed(run[i].call.events, c)
  {
    AllMarks(run, c);
    MarksAdd(run, c, j);
  }

  lemma MarkedForever(run: seq<Round>, c: Id, i: nat, j: nat)
    requires Chained(run) && forall n :: 0 <= n < |run| ==> Marks(run[n], c)
    requires i <= j < |run| && Failed(run[i].call.events, c)
    ensures c in run[j].t.abandoned && c in run[j].t.status
    ensures i < j ==> c !in run[j].resumed
  {
    MarksAdd(run, c, j);
    assert Marks(run[j], c);
    if i < j {
      MarksAdd(run, c, j - 1);
    }
  }

  /** A coroutine whose descriptor reported EPOLLERR in turn i stays alive and is resumed in
      no later turn. */
  lemma StrandedForever(run: seq<Round>, c: Id, i: nat, j: nat)
    requires IsRun(run) && i <= j < |run| && Failed(run[i].call.events, c)
    ensures c in run[j].t.abandoned && c in run[j].t.status
    ensures i < j ==> c !in run[j].resumed
  {
    AllMarks(run, c);
    MarkedForever(run, c, i, j);
  }

  /** A first coroutine that waits for a descriptor. */
  lemma FirstWaits(s: Sched, c: Id, fd: int)
    requires Between(s) && s.ready == [c] && s.sleep == [] && s.epoll == map[]
    ensures ReadyLegal(s, Script(0, Wait(fd)))
    ensures Registered(ReadyPhase(s, Script(0, Wait(fd))).s, c)
  {
    WakeReady(s);
  }

  lemma FirstCallLegal(s: Sched, c: Id, fd: int, call: Call)
    requires Between(s) && s.ready == [c] && s.sleep == [] && s.epoll == map[]
    requires call == Call(0, Script(0, Wait(fd)), Script(0, Wait(fd)), [Event(c, true, Script(0, Exit))])
    ensures CallLegal(s, call)
  {
    FirstWaits(s, c, fd);
    var b := ReadyPhase(s, call.readyScript).s;
    var e := call.events[0];
    assert SleepPhase(s, 0, call.sleepScript).s == s;
    assert Reported(b, call.events) && EventLegal(b, e);
    StillReported(b, call.events);
    assert BatchLegal(EventStep(b, e).s, call.events[1..]);
  }

  lemma FirstTurn(s: Sched, c: Id, fd: int) returns (r: Round)
    requires Between(s) && s.ready == [c] && s.sleep == [] && s.epoll == map[]
    ensures Happened(r) && r.created == 1 && r.s == s
    ensures Failed(r.call.events, c) && c in r.t.abandoned
  {
    var call := Call(0, Script(0, Wait(fd)), Script(0, Wait(fd)), [Event(c, true, Script(0, Exit))]);
    FirstCallLegal(s, c, fd, call);
    var out := Schedule(s, call);
    r := Round(1, s, call, set x | x in out.trace :: x.co, out.s);
    assert call.events[0] in call.events;
    CallAbandons(s, call, c);
  }

  /** It happens: the first coroutine waits for a descriptor, and that reports an error. */
  lemma StrandedAtOnce(start: Sched, fd: int) returns (run: seq<Round>)
    requires IsInitial(start)
    ensures |run| == 1 && IsRun(run) && run[0].s == SpawnMany(start, run[0].created)
    ensures Failed(run[0].call.events, start.nextId) && start.nextId in run[0].t.abandoned
  {
    InitialInv(start);
    SpawnInv(start);
    assert SpawnMany(start, 1) == SpawnMany(Spawn(start), 0) == Spawn(start);
    var r := FirstTurn(Spawn(start), start.nextId, fd);
    run := [r];
  }
}
