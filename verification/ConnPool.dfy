/**
 The connection pool with delayed reclamation: net/mgx_socket_conn.cpp, the event tags of
 net/mgx_socket.cpp, and what the generation counter m_cur_seq protects.

 A connection is named by its place in m_pconns_queue.  One call of get_conn,
 insert_recy_conn_queue or close_conn and one iteration of the reclaiming thread are
 atomic steps; each carries the clock reading it makes.
 */
module ConnPool {
  import opened Common

  type Id = nat

  /** The pool-related fields of mgx_conn_t, and two history fields: how often get_conn has
      handed the connection out, and whether get_conn created it. */
  datatype Conn = Conn(seqNo: nat, fd: int, instance: bool, recyTime: int, handouts: nat, late: bool)

  datatype Pool = Pool(conns: seq<Conn>, freeQueue: seq<Id>, recySet: set<Id>,
                       totalCnt: int, freeCnt: int, recyCnt: int, now: int)

  datatype Action =
    | Get(time: int, fd: int)        // get_conn
    | Recycle(time: int, c: Id)      // insert_recy_conn_queue
    | Reclaim(time: int, c: Id)      // recy_conn_th_func, one element
    | Close(time: int, c: Id)        // close_conn

  /** conn_pool_init */
  function Init(n: nat, now: int): (p: Pool) {
    Pool(seq(n, _ => Conn(1, 0, false, 0, 0, false)), seq(n, i => i), {}, n, n, 0, now)
  }

  /** The connection a call of get_conn returns. */
  function Handed(p: Pool): (c: Id) {
    if p.freeCnt > 0 && p.freeQueue != [] then p.freeQueue[0] else |p.conns|
  }

  function GetConn(p: Pool, fd: int): (q: Pool)
    requires Known(p)
  {
    if p.freeCnt > 0 && p.freeQueue != [] then
      var c := p.freeQueue[0];
      var k := p.conns[c];
      p.(freeQueue := p.freeQueue[1..],
         freeCnt := p.freeCnt - 1,
         conns := p.conns[c := k.(seqNo := k.seqNo + 1, fd := fd, instance := !k.instance, handouts := k.handouts + 1)])
    else
      p.(conns := p.conns + [Conn(1, fd, false, 0, 1, true)], totalCnt := p.totalCnt + 1)
  }

  function FreeConn(p: Pool, c: Id): (q: Pool)
    requires c < |p.conns|
  {
    var k := p.conns[c];
    p.(conns := p.conns[c := k.(seqNo := k.seqNo + 1, fd := -1)],
       freeQueue := p.freeQueue + [c],
       freeCnt := p.freeCnt + 1)
  }

  function RecycleConn(p: Pool, c: Id, time: int): (q: Pool)
    requires c < |p.conns|
  {
    if c in p.recySet then p
    else
      var k := p.conns[c];
      p.(conns := p.conns[c := k.(seqNo := k.seqNo + 1, recyTime := time)],
         recySet := p.recySet + {c},
         recyCnt := p.recyCnt + 1)
  }

  function ReclaimConn(p: Pool, c: Id): (q: Pool)
    requires c < |p.conns|
  {
    FreeConn(p.(recySet := p.recySet - {c}, recyCnt := p.recyCnt - 1), c)
  }

  // ---------------------------------------------------------------- the partition

  predicate Known(p: Pool) {
    && (forall i :: 0 <= i < |p.freeQueue| ==> p.freeQueue[i] < |p.conns|)
    && (forall c :: c in p.recySet ==> c < |p.conns|)
  }

  predicate IsFree(p: Pool, c: Id) { c in p.freeQueue }

  predicate InUse(p: Pool, c: Id) {
    c < |p.conns| && c !in p.freeQueue && c !in p.recySet
  }

  /** Free, recycling and in-use connections partition the pool, without duplicates, and
      the counters are the sizes of the containers. */
  ghost predicate Partition(p: Pool) {
    && Known(p)
    && Distinct(p.freeQueue)
    && (forall c :: c in p.recySet ==> c !in p.freeQueue)
    && p.totalCnt == |p.conns| && p.freeCnt == |p.freeQueue| && p.recyCnt == |p.recySet|
  }

  /** What the descriptor and the instance bit say about where a connection is. */
  ghost predicate Tagged(k: Conn, free: bool) {
    && (free && k.handouts > 0 ==> k.fd == -1)
    && (!free ==> k.fd >= 0 && k.handouts > 0)
    && k.instance == ((k.handouts % 2 == 1) != k.late)
  }

  ghost predicate Valid(p: Pool) {
    Partition(p) && forall c :: 0 <= c < |p.conns| ==> Tagged(p.conns[c], IsFree(p, c))
  }

  lemma InitValid(n: nat, now: int)
    ensures Valid(Init(n, now)) && Init(n, now).totalCnt == Init(n, now).freeCnt == n && Init(n, now).recySet == {}
  {
    var p := Init(n, now);
    forall c | 0 <= c < n ensures Tagged(p.conns[c], IsFree(p, c)) {
      assert p.freeQueue[c] == c;
    }
  }

  lemma DistinctTail(q: seq<Id>)
    requires Distinct(q) && q != []
    ensures Distinct(q[1..]) && q[0] !in q[1..]
    ensures forall c :: c in q <==> c == q[0] || c in q[1..]
  {
    assert q == [q[0]] + q[1..];
  }

  lemma DistinctSnoc(q: seq<Id>, c: Id)
    ensures Distinct(q + [c]) <==> Distinct(q) && c !in q
  {
    if Distinct(q + [c]) {
      assert forall i :: 0 <= i < |q| ==> (q + [c])[i] == q[i];
      assert (q + [c])[|q|] == c;
    }
  }

  lemma GetValid(p: Pool, fd: int)
    requires Valid(p) && fd >= 0
    ensures Valid(GetConn(p, fd)) && InUse(GetConn(p, fd), Handed(p))
    ensures GetConn(p, fd).conns[Handed(p)].fd == fd
  {
    var q := GetConn(p, fd);
    if p.freeQueue != [] {
      DistinctTail(p.freeQueue);
    }
  }

  /** insert_recy_conn_queue keeps the partition unless the connection is already free. */
  lemma RecyclePartition(p: Pool, c: Id, time: int)
    requires Valid(p) && c < |p.conns|
    ensures Partition(RecycleConn(p, c, time)) <==> !IsFree(p, c)
    ensures !IsFree(p, c) ==> Valid(RecycleConn(p, c, time))
  {
    var q := RecycleConn(p, c, time);
    if IsFree(p, c) {
      assert c in q.recySet && c in q.freeQueue;
    }
  }

  /** close_conn keeps the partition exactly on connections that are in use: a connection
      closed while it is recycling, or already free, ends up in two places. */
  lemma ClosePartition(p: Pool, c: Id)
    requires Valid(p) && c < |p.conns|
    ensures Partition(FreeConn(p, c)) <==> InUse(p, c)
    ensures InUse(p, c) ==> Valid(FreeConn(p, c))
  {
    var q := FreeConn(p, c);
    DistinctSnoc(p.freeQueue, c);
    assert q.freeQueue[|p.freeQueue|] == c;
  }

  lemma ReclaimValid(p: Pool, c: Id)
    requires Valid(p) && c in p.recySet
    ensures Valid(ReclaimConn(p, c))
  {
    DistinctSnoc(p.freeQueue, c);
  }

  // ---------------------------------------------------------------- runs

  /** What the callers respect: the clock does not go back, descriptors are real, a
      connection is recycled only after a hand-out and closed only while in use, and the
      reclaiming thread waits. */
  predicate Enabled(p: Pool, a: Action, wait: int) {
    && a.time >= p.now
    && match a
       case Get(_, fd) => fd >= 0
       case Recycle(_, c) => c < |p.conns| && !IsFree(p, c)
       case Reclaim(t, c) => c in p.recySet && c < |p.conns| && t >= p.conns[c].recyTime + wait
       case Close(_, c) => InUse(p, c)
  }

  function Apply(p: Pool, a: Action): (q: Pool)
    requires Known(p)
    requires !a.Get? ==> a.c < |p.conns|
  {
    var p := p.(now := a.time);
    match a
    case Get(_, fd) => GetConn(p, fd)
    case Recycle(t, c) => RecycleConn(p, c, t)
    case Reclaim(_, c) => ReclaimConn(p, c)
    case Close(_, c) => FreeConn(p, c)
  }

  lemma StepValid(p: Pool, a: Action, wait: int)
    requires Valid(p) && Enabled(p, a, wait)
    ensures Valid(Apply(p, a))
  {
    var p' := p.(now := a.time);
    assert Valid(p');
    match a
    case Get(_, fd) => GetValid(p', fd);
    case Recycle(t, c) => RecyclePartition(p', c, t);
    case Reclaim(_, c) => ReclaimValid(p', c);
    case Close(_, c) => ClosePartition(p', c);
  }

  ghost predicate IsRun(p: Pool, actions: seq<Action>, wait: int)
    requires Valid(p)
    decreases |actions|
  {
    actions == [] ||
    (Enabled(p, actions[0], wait) &&
     (StepValid(p, actions[0], wait); IsRun(Apply(p, actions[0]), actions[1..], wait)))
  }

  ghost function End(p: Pool, actions: seq<Action>, wait: int): (q: Pool)
    requires Valid(p) && IsRun(p, actions, wait)
    ensures Valid(q)
    decreases |actions|
  {
    if actions == [] then p
    else StepValid(p, actions[0], wait); End(Apply(p, actions[0]), actions[1..], wait)
  }

  function Ids(n: nat): (ids: set<Id>)
    ensures |ids| == n
    ensures forall c :: c in ids <==> 0 <= c < n
  {
    if n == 0 then {} else Ids(n - 1) + {n - 1}
  }

  function Members(q: seq<Id>): (ids: set<Id>)
    requires Distinct(q)
    ensures |ids| == |q|
    ensures forall c :: c in ids <==> c in q
  {
    if q == [] then {} else DistinctTail(q); Members(q[1..]) + {q[0]}
  }

  function Used(p: Pool): (ids: set<Id>) { set c | c in Ids(|p.conns|) && InUse(p, c) }

  /** Conservation, in every state of every run: each connection is in exactly one place
      and the three sizes add up to the pool. */
  lemma Conservation(p: Pool)
    requires Valid(p)
    ensures p.totalCnt == p.freeCnt + p.recyCnt + |Used(p)|
    ensures forall c :: 0 <= c < |p.conns| ==>
              (if IsFree(p, c) then 1 else 0) + (if c in p.recySet then 1 else 0) + (if InUse(p, c) then 1 else 0) == 1
  {
    var free, used := Members(p.freeQueue), Used(p);
    ThreeParts(Ids(|p.conns|), free, p.recySet, used);
  }

  lemma ThreeParts(all: set<Id>, a: set<Id>, b: set<Id>, c: set<Id>)
    requires forall x :: x in all <==> x in a || x in b || x in c
    requires a !! b && a !! c && b !! c
    ensures |all| == |a| + |b| + |c|
  {
    assert all == a + b + c;
  }

  // ---------------------------------------------------------------- generations

  /** The step hands c out, recycles it or frees it. */
  ghost predicate Touches(p: Pool, a: Action, c: Id) {
    match a
    case Get(_, _) => Handed(p) == c
    case Recycle(_, d) => d == c && c !in p.recySet
    case Reclaim(_, d) => d == c
    case Close(_, d) => d == c
  }

  /** A step raises the counter of the connections it touches and leaves every field and
      the place of all others alone. */
  lemma StepSeq(p: Pool, a: Action, wait: int, c: Id)
    requires Valid(p) && Enabled(p, a, wait) && c < |p.conns|
    ensures var q := Apply(p, a);
            && c < |q.conns|
            && q.conns[c].late == p.conns[c].late
            && q.conns[c].handouts >= p.conns[c].handouts
            && (Touches(p, a, c) ==> q.conns[c].seqNo == p.conns[c].seqNo + 1)
            && (!Touches(p, a, c) ==> SamePlace(p, q, c))
  {
    if a.Get? && p.freeQueue != [] {
      DistinctTail(p.freeQueue);
    }
  }

  /** c has the same fields and is in the same container. */
  ghost predicate SamePlace(p: Pool, q: Pool, c: Id) {
    && c < |p.conns| && c < |q.conns|
    && q.conns[c] == p.conns[c]
    && (IsFree(q, c) <==> IsFree(p, c))
    && (c in q.recySet <==> c in p.recySet)
  }

  lemma {:induction false} SeqMonotone(p: Pool, actions: seq<Action>, wait: int, c: Id)
    requires Valid(p) && IsRun(p, actions, wait) && c < |p.conns|
    ensures var q := End(p, actions, wait);
            c < |q.conns| && q.conns[c].seqNo >= p.conns[c].seqNo && q.conns[c].late == p.conns[c].late
    decreases |actions|
  {
    if actions != [] {
      StepSeq(p, actions[0], wait, c);
      StepValid(p, actions[0], wait);
      SeqMonotone(Apply(p, actions[0]), actions[1..], wait, c);
    }
  }

  /** No step of the run touches c. */
  ghost predicate Untouched(p: Pool, actions: seq<Action>, wait: int, c: Id)
    requires Valid(p) && IsRun(p, actions, wait)
    decreases |actions|
  {
    actions == [] ||
    (!Touches(p, actions[0], c) &&
     (StepValid(p, actions[0], wait); Untouched(Apply(p, actions[0]), actions[1..], wait, c)))
  }

  /** Stale-generation safety, both ways: a stamp taken at p is still equal to the counter
      after the run if and only if no step in between handed the connection out, recycled
      it or freed it; and then the connection is the same in every field and place. */
  lemma {:induction false} StampCurrent(p: Pool, actions: seq<Action>, wait: int, c: Id)
    requires Valid(p) && IsRun(p, actions, wait) && c < |p.conns|
    ensures c < |End(p, actions, wait).conns|
    ensures End(p, actions, wait).conns[c].seqNo == p.conns[c].seqNo <==> Untouched(p, actions, wait, c)
    ensures Untouched(p, actions, wait, c) ==> SamePlace(p, End(p, actions, wait), c)
    decreases |actions|
  {
    if actions != [] {
      StepSeq(p, actions[0], wait, c);
      StepValid(p, actions[0], wait);
      StampCurrent(Apply(p, actions[0]), actions[1..], wait, c);
      SeqMonotone(Apply(p, actions[0]), actions[1..], wait, c);
    }
  }

  // ---------------------------------------------------------------- descriptors

  /** The connection handed out carries the descriptor that was passed, whether it was free
      or is created. */
  lemma HandedFd(p: Pool, t: int, fd: int)
    requires Known(p)
    ensures var q := Apply(p, Get(t, fd)); Handed(p) < |q.conns| && q.conns[Handed(p)].fd == fd
  {
  }

  /** The descriptor passed to the last get_conn of the run that returned c. */
  ghost function LastFd(p: Pool, actions: seq<Action>, wait: int, c: Id): (r: Option<int>)
    requires Valid(p) && IsRun(p, actions, wait)
    decreases |actions|
  {
    if actions == [] then None
    else
      StepValid(p, actions[0], wait);
      var later := LastFd(Apply(p, actions[0]), actions[1..], wait, c);
      if later.Some? then later
      else if actions[0].Get? && Handed(p) == c then Some(actions[0].fd)
      else None
  }

  /** A step that does not hand c out leaves the descriptor of a connection that is not free
      afterwards alone. */
  lemma StepFd(p: Pool, a: Action, wait: int, c: Id)
    requires Valid(p) && Enabled(p, a, wait) && !(a.Get? && Handed(p) == c)
    requires c < |Apply(p, a).conns| && !IsFree(Apply(p, a), c)
    ensures c < |p.conns| && !IsFree(p, c) && Apply(p, a).conns[c].fd == p.conns[c].fd
  {
    if a.Get? && p.freeQueue != [] {
      DistinctTail(p.freeQueue);
    } else if a.Reclaim? || a.Close? {
      assert Apply(p, a).freeQueue[|p.freeQueue|] == a.c;
    }
  }

  /** After any run a connection that is not free has the descriptor of the last get_conn that
      returned it, or, if none did, the one it had. */
  lemma {:induction false} FdOfLastGet(p: Pool, actions: seq<Action>, wait: int, c: Id)
    requires Valid(p) && IsRun(p, actions, wait)
    requires c < |End(p, actions, wait).conns| && !IsFree(End(p, actions, wait), c)
    ensures var fd := End(p, actions, wait).conns[c].fd;
            match LastFd(p, actions, wait, c)
            case Some(last) => fd == last
            case None => c < |p.conns| && !IsFree(p, c) && fd == p.conns[c].fd
    decreases |actions|
  {
    if actions != [] {
      var a := actions[0];
      StepValid(p, a, wait);
      FdOfLastGet(Apply(p, a), actions[1..], wait, c);
      if LastFd(Apply(p, a), actions[1..], wait, c).None? {
        if a.Get? && Handed(p) == c {
          HandedFd(p, a.time, a.fd);
        } else {
          StepFd(p, a, wait, c);
        }
      }
    }
  }

  /** In every run of a fresh pool a connection that is not free was handed out, and its
      descriptor is the one of its last hand-out. */
  lemma FdIsAccepted(n: nat, now: int, actions: seq<Action>, wait: int, c: Id)
    requires Valid(Init(n, now)) && IsRun(Init(n, now), actions, wait)
    requires c < |End(Init(n, now), actions, wait).conns| && !IsFree(End(Init(n, now), actions, wait), c)
    ensures LastFd(Init(n, now), actions, wait, c) == Some(End(Init(n, now), actions, wait).conns[c].fd)
  {
    FdOfLastGet(Init(n, now), actions, wait, c);
    assert c < n ==> Init(n, now).freeQueue[c] == c;
  }

  // ---------------------------------------------------------------- the order of reuse

  function Gets(actions: seq<Action>): (n: nat) {
    if actions == [] then 0 else (if actions[0].Get? then 1 else 0) + Gets(actions[1..])
  }

  lemma StepQueue(p: Pool, a: Action, wait: int, k: nat)
    requires Valid(p) && Enabled(p, a, wait) && k < |p.freeQueue| && (a.Get? ==> k > 0)
    ensures var j, q := if a.Get? then k - 1 else k, Apply(p, a).freeQueue; j < |q| && q[j] == p.freeQueue[k]
  {
  }

  lemma {:induction false} FreePosition(p: Pool, actions: seq<Action>, wait: int, k: nat)
    requires Valid(p) && IsRun(p, actions, wait) && k < |p.freeQueue| && Gets(actions) <= k
    ensures var q := End(p, actions, wait).freeQueue; k - Gets(actions) < |q| && q[k - Gets(actions)] == p.freeQueue[k]
    decreases |actions|
  {
    if actions != [] {
      var a := actions[0];
      StepValid(p, a, wait);
      StepQueue(p, a, wait, k);
      FreePosition(Apply(p, a), actions[1..], wait, if a.Get? then k - 1 else k);
    }
  }

  /** Connections are reused in the order in which they became free: of the get_conn calls
      to come, exactly the (k+1)-th returns the free connection at place k. */
  lemma ReusedInOrder(p: Pool, actions: seq<Action>, wait: int, k: nat)
    requires Valid(p) && IsRun(p, actions, wait) && k < |p.freeQueue| && Gets(actions) <= k
    ensures Handed(End(p, actions, wait)) == p.freeQueue[k] <==> Gets(actions) == k
  {
    FreePosition(p, actions, wait, k);
  }

  /** A connection that becomes free does so behind all that are. */
  lemma FreedBehind(p: Pool, a: Action, wait: int)
    requires Valid(p) && Enabled(p, a, wait) && (a.Close? || a.Reclaim?)
    ensures Apply(p, a).freeQueue == p.freeQueue + [a.c]
  {
  }

  // ---------------------------------------------------------------- delayed reuse

  /** A connection recycled at time t is waiting, or its time has passed. */
  ghost predicate Waits(p: Pool, c: Id, t: int, wait: int) {
    (c in p.recySet && c < |p.conns| && p.conns[c].recyTime == t) || p.now >= t + wait
  }

  lemma WaitsStep(p: Pool, a: Action, wait: int, c: Id, t: int)
    requires Valid(p) && Enabled(p, a, wait) && Waits(p, c, t, wait)
    ensures Waits(Apply(p, a), c, t, wait)
    ensures a.Get? && Handed(p) == c && c < |p.conns| ==> a.time >= t + wait
  {
    if c < |p.conns| {
      StepSeq(p, a, wait, c);
    }
  }

  lemma {:induction false} WaitsRun(p: Pool, actions: seq<Action>, wait: int, c: Id, t: int)
    requires Valid(p) && IsRun(p, actions, wait) && Waits(p, c, t, wait)
    ensures Waits(End(p, actions, wait), c, t, wait)
    decreases |actions|
  {
    if actions != [] {
      WaitsStep(p, actions[0], wait, c, t);
      StepValid(p, actions[0], wait);
      WaitsRun(Apply(p, actions[0]), actions[1..], wait, c, t);
    }
  }

  /** Delayed reuse: however the run goes on after a connection in use was recycled at
      time t, get_conn does not return it on a clock reading below t + wait. */
  lemma DelayedReuse(p: Pool, c: Id, t: int, actions: seq<Action>, wait: int, time: int, fd: int)
    requires Valid(p) && InUse(p, c) && Enabled(p, Recycle(t, c), wait)
    requires Valid(Apply(p, Recycle(t, c))) && IsRun(Apply(p, Recycle(t, c)), actions, wait)
    requires var q := End(Apply(p, Recycle(t, c)), actions, wait); Enabled(q, Get(time, fd), wait) && Handed(q) == c
    ensures time >= t + wait
  {
    var r := Apply(p, Recycle(t, c));
    WaitsRun(r, actions, wait, c, t);
    SeqMonotone(r, actions, wait, c);
    WaitsStep(End(r, actions, wait), Get(time, fd), wait, c, t);
  }

  // ---------------------------------------------------------------- event tags

  /** (uintptr_t)c | c->instance for an address with a clear low bit, and back. */
  function PackTag(addr: nat, instance: bool): (tag: nat)
    requires addr % 2 == 0
    ensures UnpackAddr(tag) == addr && UnpackInstance(tag) == instance
  {
    addr + if instance then 1 else 0
  }

  function UnpackAddr(tag: nat): (addr: nat) { tag - tag % 2 }
  function UnpackInstance(tag: nat): (b: bool) { tag % 2 == 1 }

  /** The stale-event test of epoll_process_events lets the event through. */
  predicate Accepts(p: Pool, c: Id, instance: bool)
    requires c < |p.conns|
  {
    p.conns[c].fd != -1 && p.conns[c].instance == instance
  }

  /** Event tag freshness, exactly: an event tagged while c was not free is let through at
      a later moment if and only if c is not free then and the number of hand-outs in
      between is even.  So it is rejected while c is free and during the next hand-out,
      and it is let through again during the one after that. */
  lemma TagFreshness(p: Pool, actions: seq<Action>, wait: int, c: Id)
    requires Valid(p) && IsRun(p, actions, wait) && c < |p.conns| && !IsFree(p, c)
    ensures var q := End(p, actions, wait);
            && c < |q.conns| && q.conns[c].handouts >= p.conns[c].handouts
            && (Accepts(q, c, p.conns[c].instance) <==>
                !IsFree(q, c) && (q.conns[c].handouts - p.conns[c].handouts) % 2 == 0)
  {
    SeqMonotone(p, actions, wait, c);
    HandoutsMonotone(p, actions, wait, c);
    var q := End(p, actions, wait);
    SameTag(p.conns[c], q.conns[c], IsFree(q, c));
  }

  lemma SameTag(k: Conn, l: Conn, free: bool)
    requires Tagged(k, false) && Tagged(l, free) && l.handouts >= k.handouts && k.late == l.late
    ensures l.fd != -1 && l.instance == k.instance <==> !free && (l.handouts - k.handouts) % 2 == 0
  {
  }

  lemma {:induction false} HandoutsMonotone(p: Pool, actions: seq<Action>, wait: int, c: Id)
    requires Valid(p) && IsRun(p, actions, wait) && c < |p.conns|
    ensures c < |End(p, actions, wait).conns|
    ensures End(p, actions, wait).conns[c].handouts >= p.conns[c].handouts
    decreases |actions|
  {
    if actions != [] {
      StepSeq(p, actions[0], wait, c);
      StepValid(p, actions[0], wait);
      HandoutsMonotone(Apply(p, actions[0]), actions[1..], wait, c);
    }
  }

  /** A pool of one connection. */
  function One(seqNo: nat, fd: int, instance: bool, handouts: nat, free: bool): (p: Pool) {
    Pool([Conn(seqNo, fd, instance, 0, handouts, false)], if free then [0] else [], {}, 1, if free then 1 else 0, 0, 0)
  }

  lemma OneGet(seqNo: nat, was: int, instance: bool, handouts: nat, fd: int)
    ensures var p := One(seqNo, was, instance, handouts, true);
            Known(p) && Handed(p) == 0 && Apply(p, Get(0, fd)) == One(seqNo + 1, fd, !instance, handouts + 1, false)
  {
  }

  lemma OneFree(seqNo: nat, fd: int, instance: bool, handouts: nat)
    ensures var p := One(seqNo, fd, instance, handouts, false);
            Known(p) && InUse(p, 0) && Apply(p, Close(0, 0)) == One(seqNo + 1, -1, instance, handouts, true)
  {
  }

  lemma RunOfOne(p: Pool, a: Action, rest: seq<Action>, q: Pool)
    requires Valid(p) && Enabled(p, a, 0) && q == Apply(p, a) && (Valid(q) ==> IsRun(q, rest, 0))
    ensures Valid(q) && IsRun(p, [a] + rest, 0) && End(p, [a] + rest, 0) == End(q, rest, 0)
  {
    StepValid(p, a, 0);
    assert ([a] + rest)[1..] == rest;
  }

  /** It happens: of a pool of one connection, an event tagged in the first hand-out is
      rejected while the connection is free and during the second hand-out, and let through
      during the third, for a different descriptor. */
  lemma StaleEventAccepted() returns (first: Pool, freed: Pool, second: Pool, again: Pool, third: Pool)
    ensures Known(Init(1, 0)) && first == Apply(Init(1, 0), Get(0, 7)) && Handed(Init(1, 0)) == 0
    ensures Valid(first) && IsRun(first, [Close(0, 0), Get(0, 8), Close(0, 0), Get(0, 9)], 0)
    ensures Known(first) && freed == Apply(first, Close(0, 0)) && Handed(freed) == 0
    ensures Known(freed) && second == Apply(freed, Get(0, 8))
    ensures Known(second) && |second.conns| == 1 && again == Apply(second, Close(0, 0)) && Handed(again) == 0
    ensures Known(again) && third == Apply(again, Get(0, 9)) == End(first, [Close(0, 0), Get(0, 8), Close(0, 0), Get(0, 9)], 0)
    ensures |first.conns| == |freed.conns| == |third.conns| == 1
    ensures var tag := first.conns[0].instance;
            && Accepts(first, 0, tag) && !Accepts(freed, 0, tag) && !Accepts(second, 0, tag) && Accepts(third, 0, tag)
            && third.conns[0].fd == 9
  {
    first, freed := One(2, 7, true, 1, false), One(3, -1, true, 1, true);
    second, again := One(4, 8, false, 2, false), One(5, -1, false, 2, true);
    third := One(6, 9, true, 3, false);
    assert Init(1, 0) == One(1, 0, false, 0, true);
    OneGet(1, 0, false, 0, 7);
    OneFree(2, 7, true, 1);
    OneGet(3, -1, true, 1, 8);
    OneFree(4, 8, false, 2);
    OneGet(5, -1, false, 2, 9);
    InitValid(1, 0);
    StepValid(Init(1, 0), Get(0, 7), 0);
    StepValid(first, Close(0, 0), 0);
    StepValid(freed, Get(0, 8), 0);
    StepValid(second, Close(0, 0), 0);
    FourSteps(first, freed, second, again, third);
  }

  lemma FourSteps(first: Pool, freed: Pool, second: Pool, again: Pool, third: Pool)
    requires Valid(first) && InUse(first, 0) && freed == Apply(first, Close(0, 0)) && first.now == 0
    requires Valid(freed) && second == Apply(freed, Get(0, 8))
    requires Valid(second) && InUse(second, 0) && again == Apply(second, Close(0, 0))
    requires Valid(again) && third == Apply(again, Get(0, 9))
    ensures IsRun(first, [Close(0, 0), Get(0, 8), Close(0, 0), Get(0, 9)], 0)
    ensures End(first, [Close(0, 0), Get(0, 8), Close(0, 0), Get(0, 9)], 0) == third
  {
    RunOfOne(again, Get(0, 9), [], third);
    RunOfOne(second, Close(0, 0), [Get(0, 9)], again);
    RunOfOne(freed, Get(0, 8), [Close(0, 0), Get(0, 9)], second);
    RunOfOne(first, Close(0, 0), [Get(0, 8), Close(0, 0), Get(0, 9)], freed);
  }

  // ---------------------------------------------------------------- closing at the wrong moment

  /** What goes wrong otherwise, on one connection: it is handed out and recycled, then a
      read error closes it while it still waits.  When its time has passed the reclaiming
      thread frees it a second time, and two accepted sockets get the same connection. */
  lemma CloseWhileRecycling()
    ensures var used := GetConn(Init(1, 0), 7);
            var waiting := RecycleConn(used, 0, 0);
            var closed := FreeConn(waiting, 0);
            var twice := ReclaimConn(closed, 0);
            && Valid(waiting) && !Partition(closed)
            && Known(twice) && Known(GetConn(twice, 8))
            && Handed(twice) == Handed(GetConn(twice, 8)) == 0
  {
    InitValid(1, 0);
    GetValid(Init(1, 0), 7);
    var used := GetConn(Init(1, 0), 7);
    RecyclePartition(used, 0, 0);
    var waiting := RecycleConn(used, 0, 0);
    ClosePartition(waiting, 0);
    var twice := ReclaimConn(FreeConn(waiting, 0), 0);
    assert twice.freeQueue == [0, 0];
    assert GetConn(twice, 8).freeQueue == [0];
  }

  // ---------------------------------------------------------------- the pool in place

  class ConnectionPool {
    var conns: seq<Conn>
    var freeQueue: seq<Id>
    var recySet: set<Id>
    var totalCnt: int
    var freeCnt: int
    var recyCnt: int
    var now: int
    const wait: int   // m_recy_conn_wait_time

    ghost function View(): (p: Pool)
      reads this
    {
      Pool(conns, freeQueue, recySet, totalCnt, freeCnt, recyCnt, now)
    }

    constructor (n: nat, wait: int, now: int)
      ensures View() == Init(n, now) && Valid(View()) && this.wait == wait
    {
      this.wait, this.now := wait, now;
      recySet, totalCnt, freeCnt, recyCnt := {}, n, n, 0;
      var i, cs, q := 0, [], [];
      while i < n
        invariant 0 <= i <= n
        invariant cs == seq(i, _ => Conn(1, 0, false, 0, 0, false)) && q == seq(i, k => k)
      {
        cs, q, i := cs + [Conn(1, 0, false, 0, 0, false)], q + [i], i + 1;
      }
      conns, freeQueue := cs, q;
      new;
      InitValid(n, now);
    }

    /** get_conn */
    method Get(fd: int, time: int) returns (c: Id)
      requires Valid(View()) && Enabled(View(), Action.Get(time, fd), wait)
      modifies this
      ensures View() == Apply(old(View()), Action.Get(time, fd)) && Valid(View())
      ensures c == Handed(old(View())) && InUse(View(), c) && conns[c].fd == fd
    {
      StepValid(View(), Action.Get(time, fd), wait);
      GetValid(View().(now := time), fd);
      now := time;
      if freeCnt > 0 {
        c := freeQueue[0];
        freeQueue := freeQueue[1..];
        var k := conns[c];
        conns := conns[c := k.(seqNo := k.seqNo + 1, fd := fd, instance := !k.instance, handouts := k.handouts + 1)];
        freeCnt := freeCnt - 1;
      } else {
        c := |conns|;
        conns := conns + [Conn(1, fd, false, 0, 1, true)];
        totalCnt := totalCnt + 1;
      }
    }

    /** insert_recy_conn_queue */
    method InsertRecy(c: Id, time: int)
      requires Valid(View()) && Enabled(View(), Recycle(time, c), wait)
      modifies this
      ensures View() == Apply(old(View()), Recycle(time, c)) && Valid(View())
    {
      StepValid(View(), Recycle(time, c), wait);
      now := time;
      if c in recySet {
        return;
      }
      conns := conns[c := conns[c].(seqNo := conns[c].seqNo + 1, recyTime := time)];
      recySet := recySet + {c};
      recyCnt := recyCnt + 1;
    }

    /** free_conn */
    method Free(c: Id)
      requires c < |conns|
      modifies this
      ensures View() == FreeConn(old(View()), c)
    {
      conns := conns[c := conns[c].(seqNo := conns[c].seqNo + 1, fd := -1)];
      freeQueue := freeQueue + [c];
      freeCnt := freeCnt + 1;
    }

    /** close_conn */
    method CloseConn(c: Id, time: int)
      requires Valid(View()) && Enabled(View(), Close(time, c), wait)
      modifies this
      ensures View() == Apply(old(View()), Close(time, c)) && Valid(View())
    {
      StepValid(View(), Close(time, c), wait);
      now := time;
      Free(c);
    }

    /** One element of the loop of recy_conn_th_func. */
    method RecyIteration(c: Id, time: int) returns (freed: bool)
      requires Valid(View()) && c in recySet && time >= now
      modifies this
      ensures Valid(View())
      ensures freed <==> Enabled(old(View()), Reclaim(time, c), wait)
      ensures View() == if freed then Apply(old(View()), Reclaim(time, c)) else old(View())
    {
      freed := time >= conns[c].recyTime + wait;
      if freed {
        StepValid(View(), Reclaim(time, c), wait);
        now := time;
        recyCnt := recyCnt - 1;
        recySet := recySet - {c};
        Free(c);
      }
    }
  }
}
