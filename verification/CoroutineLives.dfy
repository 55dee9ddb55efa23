/**
 What becomes of one coroutine: how it was put away decides when and by what it is resumed
 next, and after its function has returned it is never heard of again.  Proved over every
 sequence of the steps that calls of schedule and coroutine creation consist of
 (misc/mgx_coroutine_scheduler.cpp, misc/mgx_coroutine.cpp).
 */
module CoroutineLives {
  import opened Common
  import opened Scheduler
  import Runs = SchedulerRuns

  // ---------------------------------------------------------------- steps

  /** The three parts of schedule, the last of them event by event, and creation outside of
      any coroutine. */
  datatype Step = Sleepers(now: int, script: Script) | Front(script: Script) | Handle(e: Event) | Created(n: nat)

  ghost predicate Legal(s: Sched, a: Step)
    requires Between(s)
  {
    match a
    case Sleepers(now, script) => SleepLegal(s, now, script)
    case Front(script) => ReadyLegal(s, script)
    case Handle(e) => Registered(s, e.co) && EventLegal(s, e)
    case Created(_) => true
  }

  ghost function Do(s: Sched, a: Step): (r: Out)
    requires Between(s) && Legal(s, a)
    ensures Between(r.s)
  {
    match a
    case Sleepers(now, script) => SleepPhase(s, now, script)
    case Front(script) => ReadyPhase(s, script)
    case Handle(e) => EventStep(s, e)
    case Created(n) =>
      SpawnManyInv(s, n);
      Out(SpawnMany(s, n), [])
  }

  /** A coroutine is resumed, why, and what it does last before it switches back. */
  datatype Stretch = Stretch(co: Id, via: Via, last: Last)

  /** The stretch of a coroutine that a step consists of, if it resumes one. */
  ghost function Resumes(s: Sched, a: Step): (r: Option<Stretch>) {
    match a
    case Sleepers(now, script) =>
      if SleepDue(s, now) then Some(Stretch(s.sleep[0].co, BySleep(s.sleep[0].deadline, now), script.last)) else None
    case Front(script) => if s.ready != [] then Some(Stretch(s.ready[0], ByReady, script.last)) else None
    case Handle(e) => if e.err then None else Some(Stretch(e.co, ByEvent, e.script.last))
    case Created(_) => None
  }

  /** How a coroutine that is resumed in this way was put away. */
  function Before(via: Via): (st: Status) {
    match via
    case BySleep(_, _) => Sleeping
    case ByReady => Ready
    case ByEvent => Waiting
  }

  /** The calls of resume that a step makes are just that one. */
  lemma TraceIs(s: Sched, a: Step)
    requires Between(s) && Legal(s, a)
    ensures Do(s, a).trace == match Resumes(s, a) case None => [] case Some(x) => [Resumed(x.co, x.via, Some(Before(x.via)))]
  {
    match a
    case Sleepers(now, _) => if SleepDue(s, now) { WakeSleeper(s); }
    case Front(_) => if s.ready != [] { WakeReady(s); }
    case Handle(e) => RegisteredWaits(s, e.co);
    case Created(_) =>
  }

  // ---------------------------------------------------------------- creation

  /** Creating n coroutines puts n new ones behind the ready list, in order, and changes
      nothing about those there are. */
  lemma {:induction false} Creates(s: Sched, n: nat)
    ensures var t := SpawnMany(s, n);
            && t.ready == s.ready + seq(n, i => s.nextId + i) && t.nextId == s.nextId + n
            && t.sleep == s.sleep && t.epoll == s.epoll && t.waitFd == s.waitFd && t.abandoned == s.abandoned
            && (forall c: Id :: c in t.status <==> c in s.status || s.nextId <= c < s.nextId + n)
    decreases n
  {
    if n == 0 {
      assert s.ready + seq(0, i => s.nextId + i) == s.ready;
    } else {
      Creates(Spawn(s), n - 1);
      assert [s.nextId] + seq(n - 1, i => s.nextId + 1 + i) == seq(n, i => s.nextId + i);
      assert s.ready + [s.nextId] + seq(n - 1, i => s.nextId + 1 + i)
          == s.ready + ([s.nextId] + seq(n - 1, i => s.nextId + 1 + i));
    }
  }

  // ---------------------------------------------------------------- being put away

  /** The last thing co did was this, and nothing has resumed it since. */
  ghost predicate PutBy(s: Sched, co: Id, last: Last) {
    match last
    case Yield => co in s.ready
    case Sleep(now, ms) => exists x :: x in s.sleep && x.co == co && x.deadline == now + ms
    case Wait(fd) => co in s.waitFd && s.waitFd[co] == fd && (co in s.abandoned || Registered(s, co))
    case Exit => co !in s.status && co < s.nextId
  }

  lemma PutAwayPuts(s: Sched, co: Id, last: Last)
    requires Inv(s) && s.cur == Some(co) && CanEnd(s, last) && co in s.status
    ensures PutBy(PutAway(s, co, last), co, last)
    ensures last.Yield? ==> PutAway(s, co, last).ready == s.ready + [co]
    ensures last.Wait? ==> Registered(PutAway(s, co, last), co)
  {
    if last.Sleep? {
      var e := Sleeper(last.now + last.ms, co, s.nextTicket);
      InsertSleepMembers(s.sleep, e);
      assert e in PutAway(s, co, last).sleep;
    }
  }

  /** A stretch leaves its coroutine as the last thing it did says: behind the ready list,
      asleep until the clock reading plus the time asked for, registered under its descriptor,
      or deleted. */
  lemma StretchPuts(w: Sched, co: Id, script: Script)
    requires Inv(w) && w.cur == Some(co) && CanEnd(w, script.last)
    ensures PutBy(RunFrom(w, co, script), co, script.last)
    ensures script.last.Yield? ==> RunFrom(w, co, script).ready == w.ready + seq(script.spawns, i => w.nextId + i) + [co]
    ensures script.last.Wait? ==> Registered(RunFrom(w, co, script), co)
  {
    SpawnManyInv(w, script.spawns);
    Creates(w, script.spawns);
    var m := SpawnMany(w, script.spawns);
    PutAwayInv(m, co, script.last);
    PutAwayPuts(m, co, script.last);
  }

  lemma StepPuts(s: Sched, a: Step)
    requires Between(s) && Legal(s, a) && Resumes(s, a).Some?
    ensures var x := Resumes(s, a).value; PutBy(Do(s, a).s, x.co, x.last)
  {
    match a
    case Sleepers(_, script) =>
      WakeSleeper(s);
      StretchPuts(Wake(s, s.sleep[0].co), s.sleep[0].co, script);
    case Front(script) =>
      WakeReady(s);
      StretchPuts(Wake(s.(ready := s.ready[1..]), s.ready[0]), s.ready[0], script);
    case Handle(e) =>
      WakeWaiter(s, e.co);
      StretchPuts(Wake(s, e.co), e.co, e.script);
  }

  // ---------------------------------------------------------------- staying put

  lemma OthersAsleep(s: Sched, t: Sched, co: Id, last: Last)
    requires last.Sleep? && PutBy(s, co, last) && forall x :: x in s.sleep && x.co == co ==> x in t.sleep
    ensures PutBy(t, co, last)
  {
    var x :| x in s.sleep && x.co == co && x.deadline == last.now + last.ms;
    assert x in t.sleep;
  }

  lemma SpawnKeeps(s: Sched, n: nat, co: Id, last: Last)
    requires PutBy(s, co, last)
    ensures PutBy(SpawnMany(s, n), co, last)
  {
    Creates(s, n);
    if last.Sleep? {
      OthersAsleep(s, SpawnMany(s, n), co, last);
    }
  }

  lemma PutAwayKeeps(s: Sched, other: Id, end: Last, co: Id, last: Last)
    requires Inv(s) && s.cur == Some(other) && other != co && CanEnd(s, end) && other in s.status && PutBy(s, co, last)
    ensures PutBy(PutAway(s, other, end), co, last)
  {
    var t := PutAway(s, other, end);
    if end.Sleep? {
      InsertSleepMembers(s.sleep, Sleeper(end.now + end.ms, other, s.nextTicket));
    }
    if last.Sleep? {
      OthersAsleep(s, t, co, last);
    } else if last.Wait? && co !in s.abandoned {
      assert Registered(t, co);
    }
  }

  /** While another coroutine runs. */
  lemma StretchKeeps(w: Sched, other: Id, script: Script, co: Id, last: Last)
    requires Inv(w) && w.cur == Some(other) && other != co && CanEnd(w, script.last) && PutBy(w, co, last)
    ensures PutBy(RunFrom(w, other, script), co, last)
  {
    SpawnManyInv(w, script.spawns);
    SpawnKeeps(w, script.spawns, co, last);
    var m := SpawnMany(w, script.spawns);
    PutAwayInv(m, other, script.last);
    PutAwayKeeps(m, other, script.last, co, last);
  }

  lemma WakeSleeperKeeps(s: Sched, co: Id, last: Last)
    requires Between(s) && s.sleep != [] && s.sleep[0].co != co && PutBy(s, co, last)
    requires Is(s, s.sleep[0].co, Sleeping)
    ensures PutBy(Wake(s, s.sleep[0].co), co, last)
  {
    OrderedTail(s.sleep);
    var t := Wake(s, s.sleep[0].co);
    if last.Sleep? {
      OthersAsleep(s, t, co, last);
    } else if last.Wait? {
      assert Registered(s, co) ==> Registered(t, co);
    }
  }

  lemma WakeReadyKeeps(s: Sched, co: Id, last: Last)
    requires Between(s) && s.ready != [] && s.ready[0] != co && PutBy(s, co, last) && Is(s, s.ready[0], Ready)
    ensures PutBy(Wake(s.(ready := s.ready[1..]), s.ready[0]), co, last)
  {
    var t := Wake(s.(ready := s.ready[1..]), s.ready[0]);
    assert s.ready == [s.ready[0]] + s.ready[1..];
    if last.Sleep? {
      OthersAsleep(s, t, co, last);
    } else if last.Wait? {
      assert Registered(s, co) ==> Registered(t, co);
    }
  }

  lemma WakeWaiterKeeps(s: Sched, other: Id, co: Id, last: Last)
    requires Between(s) && Registered(s, other) && other != co && PutBy(s, co, last) && Is(s, other, Waiting)
    ensures PutBy(Wake(s, other), co, last)
  {
    var t := Wake(s, other);
    if last.Sleep? {
      OthersAsleep(s, t, co, last);
    } else if last.Wait? {
      assert Registered(s, co) ==> Registered(t, co);
    }
  }

  /** An error event leaves the others alone, and its own coroutine waiting. */
  lemma AbandonKeeps(s: Sched, other: Id, co: Id, last: Last)
    requires Between(s) && Registered(s, other) && PutBy(s, co, last)
    ensures PutBy(Abandon(s, other), co, last)
  {
    var t := Abandon(s, other);
    if last.Sleep? {
      OthersAsleep(s, t, co, last);
    } else if last.Wait? && other != co {
      assert Registered(s, co) ==> Registered(t, co);
    }
  }

  /** A coroutine that a step does not resume stays as it was put away. */
  lemma StepKeeps(s: Sched, a: Step, co: Id, last: Last)
    requires Between(s) && Legal(s, a) && PutBy(s, co, last)
    requires Resumes(s, a).Some? ==> Resumes(s, a).value.co != co
    ensures PutBy(Do(s, a).s, co, last)
  {
    match a
    case Sleepers(now, script) =>
      if SleepDue(s, now) {
        WakeSleeper(s);
        WakeSleeperKeeps(s, co, last);
        StretchKeeps(Wake(s, s.sleep[0].co), s.sleep[0].co, script, co, last);
      }
    case Front(script) =>
      if s.ready != [] {
        WakeReady(s);
        WakeReadyKeeps(s, co, last);
        StretchKeeps(Wake(s.(ready := s.ready[1..]), s.ready[0]), s.ready[0], script, co, last);
      }
    case Handle(e) =>
      if e.err {
        AbandonKeeps(s, e.co, co, last);
      } else {
        WakeWaiter(s, e.co);
        WakeWaiterKeeps(s, e.co, co, last);
        StretchKeeps(Wake(s, e.co), e.co, e.script, co, last);
      }
    case Created(n) => SpawnKeeps(s, n, co, last);
  }

  // ---------------------------------------------------------------- being resumed

  /** The resume that has to come after that end. */
  ghost predicate Answers(via: Via, last: Last) {
    match last
    case Yield => via == ByReady
    case Sleep(now, ms) => via.BySleep? && via.deadline == now + ms && via.now >= now + ms
    case Wait(_) => via == ByEvent
    case Exit => false
  }

  lemma ResumedIs(s: Sched, a: Step)
    requires Between(s) && Legal(s, a) && Resumes(s, a).Some?
    ensures var x := Resumes(s, a).value; Is(s, x.co, Before(x.via))
    ensures a.Handle? ==> a.e.co !in s.abandoned
  {
    match a
    case Sleepers(_, _) => WakeSleeper(s);
    case Front(_) => WakeReady(s);
    case Handle(e) => RegisteredWaits(s, e.co);
  }

  lemma PutByStatus(s: Sched, co: Id, last: Last)
    requires Inv(s) && PutBy(s, co, last)
    ensures match last
            case Yield => Is(s, co, Ready)
            case Sleep(_, _) => Is(s, co, Sleeping)
            case Wait(_) => Is(s, co, Waiting)
            case Exit => co !in s.status
  {
    if last.Wait? && co !in s.abandoned {
      RegisteredWaits(s, co);
    }
  }

  lemma StepAnswers(s: Sched, a: Step, co: Id, last: Last)
    requires Between(s) && Legal(s, a) && PutBy(s, co, last)
    requires Resumes(s, a).Some? && Resumes(s, a).value.co == co
    ensures Answers(Resumes(s, a).value.via, last)
  {
    ResumedIs(s, a);
    PutByStatus(s, co, last);
    if last.Sleep? {
      var x :| x in s.sleep && x.co == co && x.deadline == last.now + last.ms;
      assert s.sleep[0] in s.sleep;
    }
  }

  // ---------------------------------------------------------------- whole runs

  ghost predicate IsRun(s: Sched, steps: seq<Step>)
    requires Between(s)
    decreases |steps|
  {
    steps == [] || (Legal(s, steps[0]) && IsRun(Do(s, steps[0]).s, steps[1..]))
  }

  /** The state after a run, and all calls of resume in it. */
  ghost function DoAll(s: Sched, steps: seq<Step>): (r: Out)
    requires Between(s) && IsRun(s, steps)
    ensures Between(r.s)
    decreases |steps|
  {
    if steps == [] then Out(s, [])
    else
      var first := Do(s, steps[0]);
      var more := DoAll(first.s, steps[1..]);
      Out(more.s, first.trace + more.trace)
  }

  lemma {:induction false} RunKeeps(s: Sched, steps: seq<Step>, co: Id, last: Last)
    requires Between(s) && IsRun(s, steps) && PutBy(s, co, last) && Runs.Absent(DoAll(s, steps).trace, co)
    ensures PutBy(DoAll(s, steps).s, co, last)
    decreases |steps|
  {
    if steps != [] {
      var first := Do(s, steps[0]);
      var more := DoAll(first.s, steps[1..]);
      TraceIs(s, steps[0]);
      assert forall r :: r in first.trace || r in more.trace ==> r in first.trace + more.trace;
      if Resumes(s, steps[0]).Some? {
        assert first.trace[0] in first.trace;
      }
      StepKeeps(s, steps[0], co, last);
      RunKeeps(first.s, steps[1..], co, last);
    }
  }

  /** The next resume: a coroutine's stretch ends in some way, any steps follow in which it
      is not resumed, and then one resumes it.  If it had yielded, it comes from the ready
      list; if it had called msleep, from the sleep tree, at a clock reading of at least the one
      it went to sleep at plus the time it asked for; if it had waited for a descriptor, by an
      event; and it had not returned. */
  lemma NextResume(s: Sched, a: Step, steps: seq<Step>, b: Step)
    requires Between(s) && Legal(s, a) && Resumes(s, a).Some?
    requires IsRun(Do(s, a).s, steps) && Runs.Absent(DoAll(Do(s, a).s, steps).trace, Resumes(s, a).value.co)
    requires var t := DoAll(Do(s, a).s, steps).s;
             Legal(t, b) && Resumes(t, b).Some? && Resumes(t, b).value.co == Resumes(s, a).value.co
    ensures Answers(Resumes(DoAll(Do(s, a).s, steps).s, b).value.via, Resumes(s, a).value.last)
  {
    var x := Resumes(s, a).value;
    StepPuts(s, a);
    RunKeeps(Do(s, a).s, steps, x.co, x.last);
    StepAnswers(DoAll(Do(s, a).s, steps).s, b, x.co, x.last);
  }

  /** In no place at all. */
  ghost predicate Gone(s: Sched, co: Id) {
    co !in s.status && co !in s.ready && !Asleep(s, co) && !Registered(s, co) && co !in s.abandoned && s.cur != Some(co)
  }

  lemma {:induction false} DeletedStays(s: Sched, steps: seq<Step>, co: Id)
    requires Between(s) && IsRun(s, steps) && PutBy(s, co, Exit)
    ensures PutBy(DoAll(s, steps).s, co, Exit) && Runs.Absent(DoAll(s, steps).trace, co)
    decreases |steps|
  {
    if steps != [] {
      TraceIs(s, steps[0]);
      if Resumes(s, steps[0]).Some? {
        ResumedIs(s, steps[0]);
      }
      StepKeeps(s, steps[0], co, Exit);
      DeletedStays(Do(s, steps[0]).s, steps[1..], co);
    }
  }

  /** A coroutine whose function has returned is in no place from then on, and no step of any
      run resumes it again. */
  lemma EndedForever(s: Sched, a: Step, steps: seq<Step>)
    requires Between(s) && Legal(s, a) && Resumes(s, a).Some? && Resumes(s, a).value.last.Exit?
    requires IsRun(Do(s, a).s, steps)
    ensures var co, r := Resumes(s, a).value.co, DoAll(Do(s, a).s, steps); Gone(r.s, co) && Runs.Absent(r.trace, co)
  {
    var co := Resumes(s, a).value.co;
    StepPuts(s, a);
    DeletedStays(Do(s, a).s, steps, co);
    Partition(DoAll(Do(s, a).s, steps).s, co);
  }

  // ---------------------------------------------------------------- calls and turns are such runs

  function EventSteps(events: seq<Event>): (r: seq<Step>) {
    if events == [] then [] else [Handle(events[0])] + EventSteps(events[1..])
  }

  function CallSteps(c: Call): (r: seq<Step>) {
    [Sleepers(c.now, c.sleepScript)] + ([Front(c.readyScript)] + EventSteps(c.events))
  }

  /** These steps are possible and lead there. */
  ghost predicate Leads(s: Sched, steps: seq<Step>, r: Out)
    requires Between(s)
  {
    IsRun(s, steps) && DoAll(s, steps) == r
  }

  lemma LeadsCons(s: Sched, a: Step, steps: seq<Step>, r: Out)
    requires Between(s) && Legal(s, a) && Leads(Do(s, a).s, steps, r)
    ensures Leads(s, [a] + steps, Out(r.s, Do(s, a).trace + r.trace))
  {
    assert ([a] + steps)[1..] == steps;
  }

  lemma {:induction false} BatchIsSteps(s: Sched, events: seq<Event>)
    requires Between(s) && Reported(s, events) && BatchLegal(s, events)
    ensures Leads(s, EventSteps(events), Batch(s, events))
    decreases |events|
  {
    if events != [] {
      StillReported(s, events);
      BatchIsSteps(EventStep(s, events[0]).s, events[1..]);
      LeadsCons(s, Handle(events[0]), EventSteps(events[1..]), Batch(EventStep(s, events[0]).s, events[1..]));
    }
  }

  /** A call of schedule is such a run, with the same resumes. */
  lemma CallIsSteps(s: Sched, c: Call)
    requires Between(s) && CallLegal(s, c)
    ensures Leads(s, CallSteps(c), Schedule(s, c))
  {
    var a := SleepPhase(s, c.now, c.sleepScript);
    var b := ReadyPhase(a.s, c.readyScript);
    var d := Batch(b.s, c.events);
    BatchIsSteps(b.s, c.events);
    LeadsTwice(s, Sleepers(c.now, c.sleepScript), a, Front(c.readyScript), b, EventSteps(c.events), d);
  }

  lemma LeadsTwice(s: Sched, x: Step, a: Out, y: Step, b: Out, steps: seq<Step>, d: Out)
    requires Between(s) && Legal(s, x) && Do(s, x) == a && Between(a.s) && Legal(a.s, y) && Do(a.s, y) == b
    requires Between(b.s) && Leads(b.s, steps, d)
    ensures Leads(s, [x] + ([y] + steps), Out(d.s, a.trace + b.trace + d.trace))
  {
    LeadsCons(a.s, y, steps, d);
    LeadsCons(s, x, [y] + steps, Out(d.s, b.trace + d.trace));
    assert a.trace + (b.trace + d.trace) == a.trace + b.trace + d.trace;
  }

  ghost predicate Reaches(s: Sched, steps: seq<Step>, t: Sched)
    requires Between(s)
  {
    IsRun(s, steps) && DoAll(s, steps).s == t
  }

  lemma ReachesCons(s: Sched, a: Step, steps: seq<Step>, t: Sched)
    requires Between(s) && Legal(s, a) && Reaches(Do(s, a).s, steps, t)
    ensures Reaches(s, [a] + steps, t)
  {
    assert ([a] + steps)[1..] == steps;
  }

  lemma ReachesRest(s: Sched, steps: seq<Step>, t: Sched)
    requires Between(s) && steps != [] && Reaches(s, steps, t)
    ensures Legal(s, steps[0]) && Reaches(Do(s, steps[0]).s, steps[1..], t)
  {
  }

  lemma {:induction false} ReachesOn(s: Sched, xs: seq<Step>, m: Sched, ys: seq<Step>, t: Sched)
    requires Between(s) && Between(m) && Reaches(s, xs, m) && Reaches(m, ys, t)
    ensures Reaches(s, xs + ys, t)
    decreases |xs|
  {
    if xs == [] {
      NoSteps(s, m);
      assert xs + ys == ys;
    } else {
      var a, more := xs[0], xs[1..];
      ReachesRest(s, xs, m);
      var s1 := Do(s, a).s;
      ReachesOn(s1, more, m, ys, t);
      ReachesCons(s, a, more + ys, t);
      ConsOn(xs, ys);
    }
  }

  lemma NoSteps(s: Sched, t: Sched)
    requires Between(s) && Reaches(s, [], t)
    ensures s == t
  {
  }

  lemma ConsOn(xs: seq<Step>, ys: seq<Step>)
    requires xs != []
    ensures xs + ys == [xs[0]] + (xs[1..] + ys)
  {
  }

  /** The steps of the turns of a main loop, from the first call on. */
  function TurnSteps(run: seq<Runs.Round>): (r: seq<Step>)
    requires run != []
  {
    CallSteps(run[0].call) + if |run| == 1 then [] else [Created(run[1].created)] + TurnSteps(run[1..])
  }

  lemma TailRun(run: seq<Runs.Round>)
    requires Runs.IsRun(run) && |run| > 1
    ensures Runs.IsRun(run[1..]) && Runs.Happened(run[0]) && run[1].s == SpawnMany(run[0].t, run[1].created)
  {
    forall i, j | 0 <= i < j < |run[1..]| && j == i + 1 ensures run[1..][j].s == SpawnMany(run[1..][i].t, run[1..][j].created) {
      assert run[1..][j] == run[j + 1] && run[1..][i] == run[i + 1];
    }
  }

  lemma TurnReaches(r: Runs.Round)
    requires Runs.Happened(r)
    ensures Between(r.s) && Between(r.t) && Reaches(r.s, CallSteps(r.call), r.t)
  {
    CallIsSteps(r.s, r.call);
  }

  lemma CreationReaches(s: Sched, n: nat, steps: seq<Step>, t: Sched)
    requires Between(s) && Between(SpawnMany(s, n)) && Reaches(SpawnMany(s, n), steps, t)
    ensures Reaches(s, [Created(n)] + steps, t)
  {
    ReachesCons(s, Created(n), steps, t);
  }

  /** A whole run of the main loop is such a run. */
  lemma {:induction false} TurnsAreSteps(run: seq<Runs.Round>)
    requires Runs.IsRun(run) && run != []
    ensures Between(run[0].s) && Reaches(run[0].s, TurnSteps(run), run[|run| - 1].t)
  {
    assert Runs.Happened(run[0]);
    TurnReaches(run[0]);
    var first := CallSteps(run[0].call);
    if |run| == 1 {
      assert first + [] == first;
    } else {
      TailRun(run);
      TurnsAreSteps(run[1..]);
      var t := run[|run| - 1].t;
      assert run[1..][|run[1..]| - 1] == run[|run| - 1];
      CreationReaches(run[0].t, run[1].created, TurnSteps(run[1..]), t);
      ReachesOn(run[0].s, first, run[0].t, [Created(run[1].created)] + TurnSteps(run[1..]), t);
    }
  }
}
