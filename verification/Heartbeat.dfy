/**
 The heartbeat timer queue of net/mgx_socket_time.cpp: a multimap from deadline to a
 stamped connection, re-armed while it is being drained, and the pass that recycles the
 connections whose heartbeat is overdue.

 The multimap is a sequence ordered by deadline; entries with equal deadlines stay in
 insertion order, as std::multimap::emplace leaves them.
 */
module Heartbeat {
  import opened Common
  import opened ConnPool

  datatype Entry = Entry(deadline: int, conn: Id, seqNo: nat)

  /** read_conf: m_heart_wait_time is at least 5 */
  function ClampWait(configured: int): (wait: int)
    ensures wait >= 5 && wait >= configured && (wait == configured || wait == 5)
  {
    if configured <= 5 then 5 else configured
  }

  ghost predicate Sorted(q: seq<Entry>) {
    forall i, j :: 0 <= i < j < |q| ==> q[i].deadline <= q[j].deadline
  }

  /** The number of leading entries with a deadline of at most t. */
  function UpTo(q: seq<Entry>, t: int): (n: nat)
    ensures n <= |q|
  {
    if q == [] || q[0].deadline > t then 0 else 1 + UpTo(q[1..], t)
  }

  lemma {:induction false} UpToSpec(q: seq<Entry>, t: int)
    ensures forall i :: 0 <= i < UpTo(q, t) ==> q[i].deadline <= t
    ensures UpTo(q, t) < |q| ==> q[UpTo(q, t)].deadline > t
  {
    if q != [] && q[0].deadline <= t {
      UpToSpec(q[1..], t);
    }
  }

  lemma UpToSorted(q: seq<Entry>, t: int)
    requires Sorted(q)
    ensures forall i :: 0 <= i < UpTo(q, t) ==> q[i].deadline <= t
    ensures forall i :: UpTo(q, t) <= i < |q| ==> q[i].deadline > t
  {
    UpToSpec(q, t);
    var n := UpTo(q, t);
    forall i | n <= i < |q| ensures q[i].deadline > t {
      assert q[n].deadline <= q[i].deadline;
    }
  }

  /** emplace */
  function Insert(q: seq<Entry>, e: Entry): (r: seq<Entry>) {
    var n := UpTo(q, e.deadline);
    q[..n] + [e] + q[n..]
  }

  lemma InsertAt(q: seq<Entry>, e: Entry, n: nat, i: nat)
    requires n == UpTo(q, e.deadline) && i <= |q|
    ensures |Insert(q, e)| == |q| + 1 && Insert(q, e)[i] == if i < n then q[i] else if i == n then e else q[i - 1]
  {
  }

  lemma SortedJoin(a: seq<Entry>, b: seq<Entry>)
    requires Sorted(a) && Sorted(b)
    requires forall i, j :: 0 <= i < |a| && 0 <= j < |b| ==> a[i].deadline <= b[j].deadline
    ensures Sorted(a + b)
  {
  }

  lemma InsertSorted(q: seq<Entry>, e: Entry)
    requires Sorted(q)
    ensures Sorted(Insert(q, e))
  {
    var n := UpTo(q, e.deadline);
    UpToSorted(q, e.deadline);
    SortedJoin(q[..n], [e]);
    SortedJoin(q[..n] + [e], q[n..]);
  }

  /** Between entries that are due no later and entries that are due later. */
  lemma InsertBetween(a: seq<Entry>, b: seq<Entry>, e: Entry)
    requires forall i :: 0 <= i < |a| ==> a[i].deadline <= e.deadline
    requires forall i :: 0 <= i < |b| ==> b[i].deadline > e.deadline
    ensures Insert(a + b, e) == a + [e] + b
  {
    UpToUnique(a + b, e.deadline, |a|);
    assert (a + b)[..|a|] == a && (a + b)[|a|..] == b;
  }

  /** The first entry of a connection is erased, if there is one. */
  function Erase(q: seq<Entry>, c: Id): (r: seq<Entry>)
    ensures |r| <= |q|
  {
    if q == [] then [] else if q[0].conn == c then q[1..] else [q[0]] + Erase(q[1..], c)
  }

  lemma {:induction false} EraseAt(q: seq<Entry>, c: Id, i: nat)
    requires i < |q| && q[i].conn == c && forall k :: 0 <= k < i ==> q[k].conn != c
    ensures Erase(q, c) == q[..i] + q[i + 1..]
  {
    if i > 0 {
      EraseAt(q[1..], c, i - 1);
      assert q[..i] + q[i + 1..] == [q[0]] + (q[1..][..i - 1] + q[1..][i..]);
    }
  }

  lemma {:induction false} EraseNone(q: seq<Entry>, c: Id)
    requires forall k :: 0 <= k < |q| ==> q[k].conn != c
    ensures Erase(q, c) == q
  {
    if q != [] {
      EraseNone(q[1..], c);
    }
  }

  lemma EraseSorted(q: seq<Entry>, c: Id)
    requires Sorted(q)
    ensures Sorted(Erase(q, c))
    ensures forall e :: e in Erase(q, c) ==> e in q
  {
    if forall k :: 0 <= k < |q| ==> q[k].conn != c {
      EraseNone(q, c);
    } else {
      var i := First(q, c);
      EraseAt(q, c, i);
      SortedJoin(q[..i], q[i + 1..]);
    }
  }

  lemma {:induction false} First(q: seq<Entry>, c: Id) returns (i: nat)
    requires exists k :: 0 <= k < |q| && q[k].conn == c
    ensures i < |q| && q[i].conn == c && forall k :: 0 <= k < i ==> q[k].conn != c
  {
    i := 0;
    while q[i].conn != c
      invariant i < |q| && forall k :: 0 <= k < i ==> q[k].conn != c
      decreases |q| - i
    {
      i := i + 1;
    }
  }

  // ---------------------------------------------------------------- draining

  /** The first place from j on whose deadline is later than t. */
  function From(q: seq<Entry>, j: nat, t: int): (k: nat)
    requires j <= |q|
    ensures j <= k <= |q| && (k < |q| ==> q[k].deadline > t)
    ensures forall i :: j <= i < k ==> q[i].deadline <= t
    decreases |q| - j
  {
    if j == |q| || q[j].deadline > t then j else From(q, j + 1, t)
  }

  lemma FromSorted(q: seq<Entry>, j: nat, t: int, i: nat)
    requires Sorted(q) && j <= |q| && From(q, j, t) <= i < |q|
    ensures q[i].deadline > t
  {
    var k := From(q, j, t);
    assert k < i ==> q[k].deadline <= q[i].deadline;
  }

  /** Entry i of the queue below, which is split at k. */
  function RearmedAt(q: seq<Entry>, j: nat, k: nat, t: int, i: nat): (e: Entry)
    requires j <= k <= |q| && i < |q|
  {
    if i < k - j then q[j + i] else if i < k then q[i - (k - j)].(deadline := t) else q[i]
  }

  /** The queue after its j first entries have been re-armed for time t: the untouched
      entries up to t, then the re-armed ones in their old order, then the later ones. */
  function Rearmed(q: seq<Entry>, j: nat, t: int): (r: seq<Entry>)
    requires j <= |q|
  {
    var k := From(q, j, t);
    seq(|q|, i requires 0 <= i < |q| => RearmedAt(q, j, k, t, i))
  }

  /** Draining re-arms entry after entry without disturbing the order of the others. */
  lemma RearmOne(q: seq<Entry>, j: nat, t: int)
    requires Sorted(q) && j < |q| && q[j].deadline <= t
    ensures Rearmed(q, j, t) != [] && Rearmed(q, j, t)[0] == q[j]
    ensures Insert(Rearmed(q, j, t)[1..], q[j].(deadline := t)) == Rearmed(q, j + 1, t)
  {
    var k, e, s := From(q, j, t), q[j].(deadline := t), Rearmed(q, j, t)[1..];
    assert From(q, j + 1, t) == k > j;
    SplitHere(q, j, k, t, s);
    forall i | 0 <= i < |q| ensures |Insert(s, e)| == |q| && Insert(s, e)[i] == RearmedAt(q, j + 1, k, t, i) {
      InsertAt(s, e, k - 1, i);
      ShiftedAt(q, j, k, t, i);
    }
  }

  /** What entry i becomes when one more is re-armed. */
  lemma ShiftedAt(q: seq<Entry>, j: nat, k: nat, t: int, i: nat)
    requires j < k <= |q| && i < |q|
    ensures RearmedAt(q, j + 1, k, t, i)
         == if i < k - 1 then RearmedAt(q, j, k, t, i + 1) else if i == k - 1 then q[j].(deadline := t) else RearmedAt(q, j, k, t, i)
  {
  }

  lemma SplitHere(q: seq<Entry>, j: nat, k: nat, t: int, s: seq<Entry>)
    requires Sorted(q) && j < |q| && q[j].deadline <= t && k == From(q, j, t) > j && s == Rearmed(q, j, t)[1..]
    ensures UpTo(s, t) == k - 1
  {
    forall i | 0 <= i < k - 1 ensures s[i].deadline <= t {
      assert s[i] == RearmedAt(q, j, k, t, i + 1);
    }
    assert k < |q| ==> s[k - 1] == q[k];
    UpToUnique(s, t, k - 1);
  }

  function Stamp(e: Entry): (s: (Id, nat)) { (e.conn, e.seqNo) }

  /** How often the stamp occurs. */
  function Count(q: seq<Entry>, s: (Id, nat)): (n: nat) {
    if q == [] then 0 else (if Stamp(q[0]) == s then 1 else 0) + Count(q[1..], s)
  }

  lemma {:induction false} CountAppend(a: seq<Entry>, b: seq<Entry>, s: (Id, nat))
    ensures Count(a + b, s) == Count(a, s) + Count(b, s)
  {
    if a == [] {
      assert a + b == b;
    } else {
      CountAppend(a[1..], b, s);
      assert (a + b)[1..] == a[1..] + b;
    }
  }

  function Rearm(es: seq<Entry>, t: int): (r: seq<Entry>)
    ensures |r| == |es|
  {
    seq(|es|, i requires 0 <= i < |es| => es[i].(deadline := t))
  }

  lemma {:induction false} CountRearm(q: seq<Entry>, t: int, s: (Id, nat))
    ensures Count(Rearm(q, t), s) == Count(q, s)
  {
    if q != [] {
      CountRearm(q[1..], t, s);
      assert Rearm(q, t)[1..] == Rearm(q[1..], t);
    }
  }

  lemma RearmedParts(q: seq<Entry>, j: nat, t: int, k: nat)
    requires j <= |q| && k == From(q, j, t)
    ensures Rearmed(q, j, t) == q[j..k] + Rearm(q[..j], t) + q[k..]
    ensures q == q[..j] + (q[j..k] + q[k..])
  {
    var parts := q[j..k] + Rearm(q[..j], t) + q[k..];
    forall i | 0 <= i < |q| ensures |parts| == |q| && parts[i] == RearmedAt(q, j, k, t, i) {
      PartsAt(q, j, k, t, i);
    }
  }

  lemma PartsAt(q: seq<Entry>, j: nat, k: nat, t: int, i: nat)
    requires j <= k <= |q| && i < |q|
    ensures var parts := q[j..k] + Rearm(q[..j], t) + q[k..]; |parts| == |q| && parts[i] == RearmedAt(q, j, k, t, i)
  {
  }

  /** Draining keeps the multiset of (connection, stamp) pairs. */
  lemma RearmedStamps(q: seq<Entry>, j: nat, t: int, s: (Id, nat))
    requires j <= |q|
    ensures Count(Rearmed(q, j, t), s) == Count(q, s)
  {
    var k := From(q, j, t);
    RearmedParts(q, j, t, k);
    CountAppend(q[j..k] + Rearm(q[..j], t), q[k..], s);
    CountAppend(q[j..k], Rearm(q[..j], t), s);
    CountRearm(q[..j], t, s);
    CountAppend(q[..j], q[j..k] + q[k..], s);
    CountAppend(q[j..k], q[k..], s);
  }

  /** One turn of the drain loop, which does nothing once nothing is due. */
  function DrainTurn(q: seq<Entry>, cur: int, wait: int): (r: seq<Entry>) {
    if UpTo(q, cur) == 0 then q else Insert(q[1..], q[0].(deadline := cur + wait))
  }

  function DrainTurns(q: seq<Entry>, cur: int, wait: int, n: nat): (r: seq<Entry>)
    decreases n
  {
    if n == 0 then q else DrainTurns(DrainTurn(q, cur, wait), cur, wait, n - 1)
  }

  /** Inserting an entry that is due raises the number of due entries by one. */
  lemma InsertDue(q: seq<Entry>, e: Entry, cur: int)
    requires Sorted(q)
    ensures UpTo(Insert(q, e), cur) == UpTo(q, cur) + if e.deadline <= cur then 1 else 0
  {
    var r, n, k := Insert(q, e), UpTo(q, cur), UpTo(q, e.deadline);
    var m := if e.deadline <= cur then n + 1 else n;
    UpToSorted(q, cur);
    if e.deadline <= cur {
      UpToMonotone(q, e.deadline, cur);
    } else {
      UpToMonotone(q, cur, e.deadline);
    }
    forall i | 0 <= i < m ensures |r| == |q| + 1 && r[i].deadline <= cur {
      InsertAt(q, e, k, i);
    }
    if m <= |q| {
      InsertAt(q, e, k, m);
    }
    UpToUnique(r, cur, m);
  }

  /** A turn takes one due entry out; with a wait that is not positive it puts a due entry in. */
  lemma OneTurn(q: seq<Entry>, cur: int, wait: int)
    requires Sorted(q) && UpTo(q, cur) > 0
    ensures Sorted(DrainTurn(q, cur, wait))
    ensures UpTo(DrainTurn(q, cur, wait), cur) == UpTo(q, cur) - if wait > 0 then 1 else 0
  {
    var e := q[0].(deadline := cur + wait);
    InsertSorted(q[1..], e);
    InsertDue(q[1..], e, cur);
  }

  /** After any number of turns: with a positive wait one entry fewer is due for every turn,
      and otherwise as many are due as in the beginning. */
  lemma {:induction false} DueAfter(q: seq<Entry>, cur: int, wait: int, n: nat)
    requires Sorted(q)
    ensures var due := UpTo(q, cur);
            UpTo(DrainTurns(q, cur, wait, n), cur) == if wait <= 0 then due else if n < due then due - n else 0
    decreases n
  {
    if n > 0 {
      if UpTo(q, cur) > 0 {
        OneTurn(q, cur, wait);
      }
      DueAfter(DrainTurn(q, cur, wait), cur, wait, n - 1);
    }
  }

  /** The drain loop ends if and only if nothing is due or the wait is positive. */
  lemma DrainEnds(q: seq<Entry>, cur: int, wait: int)
    requires Sorted(q)
    ensures (exists n: nat :: UpTo(DrainTurns(q, cur, wait, n), cur) == 0) <==> UpTo(q, cur) == 0 || wait > 0
  {
    DueAfter(q, cur, wait, UpTo(q, cur));
    if n: nat :| UpTo(DrainTurns(q, cur, wait, n), cur) == 0 {
      DueAfter(q, cur, wait, n);
    }
  }

  lemma {:induction false} UpToMonotone(q: seq<Entry>, s: int, t: int)
    requires s <= t
    ensures UpTo(q, s) <= UpTo(q, t)
  {
    if q != [] && q[0].deadline <= s {
      UpToMonotone(q[1..], s, t);
    }
  }

  lemma UpToUnique(q: seq<Entry>, t: int, n: nat)
    requires n <= |q| && (forall i :: 0 <= i < n ==> q[i].deadline <= t) && (n < |q| ==> q[n].deadline > t)
    ensures UpTo(q, t) == n
  {
    UpToSpec(q, t);
  }

  class TimerQueue {
    var queue: seq<Entry>
    var size: int        // m_timer_que_size
    var headTime: int    // m_timer_que_head_time
    const wait: int      // m_heart_wait_time

    /** The cached size and the cached earliest deadline are right. */
    ghost predicate Valid()
      reads this
    {
      Sorted(queue) && size == |queue| && (queue != [] ==> headTime == queue[0].deadline)
    }

    constructor (configured: int)
      ensures Valid() && queue == [] && wait == ClampWait(configured)
    {
      queue, size, headTime, wait := [], 0, 0, ClampWait(configured);
    }

    /** add_to_timer_queue */
    method Add(time: int, c: Id, seqNo: nat)
      requires Valid()
      modifies this
      ensures Valid() && queue == Insert(old(queue), Entry(time + wait, c, seqNo))
    {
      InsertSorted(queue, Entry(time + wait, c, seqNo));
      queue := Insert(queue, Entry(time + wait, c, seqNo));
      size := size + 1;
      headTime := queue[0].deadline;
    }

    /** delete_from_timer_queue */
    method Delete(c: Id)
      requires Valid()
      modifies this
      ensures Valid() && queue == Erase(old(queue), c)
    {
      EraseSorted(queue, c);
      var i := 0;
      while i < |queue| && queue[i].conn != c
        invariant 0 <= i <= |queue|
        invariant forall k :: 0 <= k < i ==> queue[k].conn != c
      {
        i := i + 1;
      }
      if i < |queue| {
        EraseAt(queue, c, i);
        queue := queue[..i] + queue[i + 1..];
        size := size - 1;
      } else {
        EraseNone(queue, c);
      }
      if size > 0 {
        headTime := queue[0].deadline;
      }
    }

    /** get_over_time_timer */
    method GetOverTime(cur: int) returns (r: Option<Entry>)
      requires Valid()
      modifies this
      ensures Valid()
      ensures r.None? <==> UpTo(old(queue), cur) == 0
      ensures r.None? ==> queue == old(queue)
      ensures r.Some? ==> old(queue) != [] && r.value == old(queue)[0]
      ensures r.Some? ==> queue == Insert(old(queue)[1..], r.value.(deadline := cur + wait))
      ensures queue == DrainTurn(old(queue), cur, wait)
    {
      if size == 0 || cur < queue[0].deadline {
        return None;
      }
      var e := queue[0];
      InsertSorted(queue[1..], e.(deadline := cur + wait));
      queue := queue[1..];
      size := size - 1;
      queue := Insert(queue, Entry(cur + wait, e.conn, e.seqNo));
      size := size + 1;
      headTime := queue[0].deadline;
      return Some(e);
    }

    /** The first j entries of q have been taken and re-armed. */
    ghost predicate Taken(q: seq<Entry>, j: nat, cur: int)
      reads this
    {
      Valid() && queue == DrainTurns(q, cur, wait, j)
    }

    method TakeOne(cur: int, ghost q: seq<Entry>, ghost j: nat) returns (r: Option<Entry>)
      requires Sorted(q) && j <= UpTo(q, cur) && Taken(q, j, cur) && wait > 0
      modifies this
      ensures r.None? <==> j == UpTo(q, cur)
      ensures r.None? ==> Taken(q, j, cur)
      ensures r.Some? ==> Taken(q, j + 1, cur) && r.value == q[j]
    {
      DueAfter(q, cur, wait, j);
      TurnsSnoc(q, cur, wait, j);
      if j < UpTo(q, cur) {
        TurnsHead(q, cur, wait, j);
      }
      r := GetOverTime(cur);
    }

    /** The drain loop of monitor_timer_th_func.  It ends, and it returns every due entry
        once, in deadline order. */
    method DrainLoop(cur: int) returns (due: seq<Entry>)
      requires Valid() && wait > 0
      modifies this
      ensures due == old(queue)[..UpTo(old(queue), cur)]
      ensures Taken(old(queue), UpTo(old(queue), cur), cur)
    {
      ghost var q := queue;
      due := [];
      ghost var j: nat := 0;
      var r := TakeOne(cur, q, j);
      while r.Some?
        invariant j <= UpTo(q, cur) && due == q[..j]
        invariant r.Some? ==> j < UpTo(q, cur) && r.value == q[j] && Taken(q, j + 1, cur)
        invariant r.None? ==> j == UpTo(q, cur) && Taken(q, j, cur)
        decreases r.Some?, UpTo(q, cur) - j
      {
        TakeNext(q, j);
        due := due + [r.value];
        j := j + 1;
        r := TakeOne(cur, q, j);
      }
    }

    /** The loop of monitor_timer_th_func over the drained entries. */
    method ReclaimPass(pool: ConnectionPool, due: seq<Entry>, lastPing: seq<int>, cur: int)
      requires Valid() && PassOk(Pass(pool.View(), queue), due, lastPing, cur)
      modifies this, pool
      ensures Valid()
      ensures Pass(pool.View(), queue) == Expire(old(Pass(pool.View(), queue)), due, lastPing, cur, wait)
    {
      var que := due;
      while que != []
        invariant Valid() && PassOk(Pass(pool.View(), queue), que, lastPing, cur)
        invariant Expire(Pass(pool.View(), queue), que, lastPing, cur, wait)
               == Expire(old(Pass(pool.View(), queue)), due, lastPing, cur, wait)
        decreases |que|
      {
        var e := que[0];
        assert TimerOk(pool.View(), e) by { assert e in que; }
        if e.seqNo == pool.conns[e.conn].seqNo && cur - lastPing[e.conn] > wait * 3 {
          RecycleKeepsOk(Pass(pool.View(), queue), que, lastPing, cur, e.conn);
          Delete(e.conn);
          pool.InsertRecy(e.conn, cur);
        }
        que := que[1..];
      }
    }

    /** One round of monitor_timer_th_func. */
    method MonitorRound(pool: ConnectionPool, lastPing: seq<int>, cur: int)
      requires Valid() && wait > 0 && PassOk(Pass(pool.View(), queue), queue, lastPing, cur)
      modifies this, pool
      ensures Valid() && Pass(pool.View(), queue) == Round(old(Pass(pool.View(), queue)), lastPing, cur, wait)
    {
      if size > 0 && cur > headTime {
        ghost var s := Pass(pool.View(), queue);
        var due := DrainLoop(cur);
        RoundByTurns(s, queue, due, lastPing, cur, wait);
        ReclaimPass(pool, due, lastPing, cur);
      }
    }
  }

  /** Nothing is due any more, no entry is lost, and every stamp is there as often as before. */
  ghost predicate Drained(before: seq<Entry>, after: seq<Entry>, cur: int) {
    && (forall e :: e in after ==> e.deadline > cur)
    && |after| == |before|
    && forall s :: Count(after, s) == Count(before, s)
  }

  lemma RearmedDrained(q: seq<Entry>, n: nat, cur: int, wait: int)
    requires Sorted(q) && n == UpTo(q, cur) && wait > 0
    ensures Drained(q, Rearmed(q, n, cur + wait), cur)
  {
    forall s {
      RearmedStamps(q, n, cur + wait, s);
    }
    NothingDue(q, n, cur, wait);
  }

  lemma RearmedNone(q: seq<Entry>, t: int)
    ensures Rearmed(q, 0, t) == q
  {
  }

  lemma TakeNext(q: seq<Entry>, j: nat)
    requires j < |q|
    ensures q[..j + 1] == q[..j] + [q[j]]
  {
  }

  lemma {:induction false} TurnsSnoc(q: seq<Entry>, cur: int, wait: int, n: nat)
    ensures DrainTurns(q, cur, wait, n + 1) == DrainTurn(DrainTurns(q, cur, wait, n), cur, wait)
    decreases n
  {
    if n == 0 {
      assert DrainTurns(q, cur, wait, 1) == DrainTurns(DrainTurn(q, cur, wait), cur, wait, 0);
    } else {
      TurnsSnoc(DrainTurn(q, cur, wait), cur, wait, n - 1);
    }
  }

  lemma TurnOfRearmed(q: seq<Entry>, cur: int, wait: int, j: nat, x: seq<Entry>)
    requires Sorted(q) && j < UpTo(q, cur) && wait > 0 && Rearmed(q, j, cur + wait) == x && UpTo(x, cur) > 0
    ensures DrainTurn(x, cur, wait) == Rearmed(q, j + 1, cur + wait)
  {
    DueEntry(q, j, cur);
    NextTaken(q, j, cur + wait, x, x[0], DrainTurn(x, cur, wait));
  }

  lemma NextTaken(q: seq<Entry>, j: nat, t: int, before: seq<Entry>, e: Entry, after: seq<Entry>)
    requires Sorted(q) && j < |q| && q[j].deadline <= t && Rearmed(q, j, t) == before
    requires before != [] && e == before[0] && Insert(before[1..], e.(deadline := t)) == after
    ensures e == q[j] && after == Rearmed(q, j + 1, t)
  {
    RearmOne(q, j, t);
  }

  /** Taking and re-arming j due entries one by one gives the queue in closed form. */
  lemma {:induction false} TurnsAreRearmed(q: seq<Entry>, cur: int, wait: int, j: nat)
    requires Sorted(q) && j <= UpTo(q, cur) && wait > 0
    ensures DrainTurns(q, cur, wait, j) == Rearmed(q, j, cur + wait)
    decreases j
  {
    if j == 0 {
      RearmedNone(q, cur + wait);
    } else {
      TurnsAreRearmed(q, cur, wait, j - 1);
      TurnsSnoc(q, cur, wait, j - 1);
      DueAfter(q, cur, wait, j - 1);
      TurnOfRearmed(q, cur, wait, j - 1, DrainTurns(q, cur, wait, j - 1));
    }
  }

  /** The next entry taken is the next one of the original queue. */
  lemma TurnsHead(q: seq<Entry>, cur: int, wait: int, j: nat)
    requires Sorted(q) && j < UpTo(q, cur) && wait > 0
    ensures DrainTurns(q, cur, wait, j) != [] && DrainTurns(q, cur, wait, j)[0] == q[j]
  {
    TurnsAreRearmed(q, cur, wait, j);
    DueEntry(q, j, cur);
    RearmOne(q, j, cur + wait);
  }

  lemma DueEntry(q: seq<Entry>, j: nat, cur: int)
    requires j < UpTo(q, cur)
    ensures q[j].deadline <= cur
  {
    UpToSpec(q, cur);
  }

  /** When every due entry has been re-armed, none is due. */
  lemma NothingDue(q: seq<Entry>, n: nat, cur: int, wait: int)
    requires Sorted(q) && n == UpTo(q, cur) && wait > 0
    ensures forall e :: e in Rearmed(q, n, cur + wait) ==> e.deadline > cur
    ensures UpTo(Rearmed(q, n, cur + wait), cur) == 0
  {
    UpToSorted(q, cur);
    var r, k := Rearmed(q, n, cur + wait), From(q, n, cur + wait);
    forall i | 0 <= i < |r| ensures r[i].deadline > cur {
      assert r[i] == RearmedAt(q, n, k, cur + wait, i);
    }
  }

  // ---------------------------------------------------------------- the reclaiming pass

  /** A timer whose stamp is current belongs to a connection in use. */
  ghost predicate TimerOk(p: Pool, e: Entry) {
    e.conn < |p.conns| && e.seqNo <= p.conns[e.conn].seqNo
    && (e.seqNo == p.conns[e.conn].seqNo ==> InUse(p, e.conn))
  }

  /** It holds when the timer is added and no later step of the pool breaks it. */
  lemma TimerOkStep(p: Pool, a: Action, poolWait: int, e: Entry)
    requires Valid(p) && Enabled(p, a, poolWait) && TimerOk(p, e)
    ensures TimerOk(Apply(p, a), e)
  {
    StepSeq(p, a, poolWait, e.conn);
  }

  /** The test of the pass for one drained entry. */
  predicate Overdue(p: Pool, e: Entry, lastPing: seq<int>, cur: int, wait: int)
    requires e.conn < |p.conns| && e.conn < |lastPing|
  {
    e.seqNo == p.conns[e.conn].seqNo && cur - lastPing[e.conn] > wait * 3
  }

  datatype Pass = Pass(pool: Pool, timers: seq<Entry>)

  /** insert_recy_conn_queue with the heartbeat enabled: the timer goes, then the connection. */
  function RecycleWithTimer(s: Pass, c: Id, cur: int): (r: Pass)
    requires c < |s.pool.conns| && Known(s.pool)
  {
    Pass(Apply(s.pool, Recycle(cur, c)), Erase(s.timers, c))
  }

  ghost predicate PassOk(s: Pass, due: seq<Entry>, lastPing: seq<int>, cur: int) {
    && Valid(s.pool) && Sorted(s.timers) && s.pool.now <= cur && |lastPing| == |s.pool.conns|
    && (forall e :: e in due ==> TimerOk(s.pool, e))
    && (forall e :: e in s.timers ==> TimerOk(s.pool, e))
  }

  lemma RecycleKeepsOk(s: Pass, due: seq<Entry>, lastPing: seq<int>, cur: int, c: Id)
    requires PassOk(s, due, lastPing, cur) && InUse(s.pool, c)
    ensures PassOk(RecycleWithTimer(s, c, cur), due, lastPing, cur)
    ensures c in RecycleWithTimer(s, c, cur).pool.recySet
  {
    StepValid(s.pool, Recycle(cur, c), 0);
    EraseSorted(s.timers, c);
    var t := RecycleWithTimer(s, c, cur);
    forall e | e in due || e in t.timers ensures TimerOk(t.pool, e) {
      TimerOkStep(s.pool, Recycle(cur, c), 0, e);
    }
  }

  /** The pass over the drained entries, in order. */
  ghost function Expire(s: Pass, due: seq<Entry>, lastPing: seq<int>, cur: int, wait: int): (r: Pass)
    requires PassOk(s, due, lastPing, cur)
    ensures PassOk(r, [], lastPing, cur)
    decreases |due|
  {
    if due == [] then s
    else
      assert TimerOk(s.pool, due[0]) by { assert due[0] in due; }
      if Overdue(s.pool, due[0], lastPing, cur, wait) then
        RecycleKeepsOk(s, due, lastPing, cur, due[0].conn);
        Expire(RecycleWithTimer(s, due[0].conn, cur), due[1..], lastPing, cur, wait)
      else Expire(s, due[1..], lastPing, cur, wait)
  }

  /** Some drained entry of c was stamped in its present generation. */
  ghost predicate Current(p: Pool, due: seq<Entry>, c: Id) {
    exists e :: e in due && e.conn == c && c < |p.conns| && e.seqNo == p.conns[c].seqNo
  }

  /** What a pass does: it recycles exactly the connections that have a drained timer of
      their present generation and have been silent for more than three waits, each once;
      every other connection keeps all its fields and its place. */
  lemma {:induction false} ExpireExact(s: Pass, due: seq<Entry>, lastPing: seq<int>, cur: int, wait: int, c: Id)
    requires PassOk(s, due, lastPing, cur) && c < |s.pool.conns|
    ensures var r := Expire(s, due, lastPing, cur, wait);
            && |r.pool.conns| == |s.pool.conns|
            && (if Current(s.pool, due, c) && cur - lastPing[c] > wait * 3
                then r.pool.conns[c].seqNo == s.pool.conns[c].seqNo + 1 && c in r.pool.recySet && r.pool.conns[c].recyTime == cur
                else SamePlace(s.pool, r.pool, c))
    decreases |due|
  {
    if due != [] {
      var e := due[0];
      assert due == [e] + due[1..];
      assert TimerOk(s.pool, e) by { assert e in due; }
      if Overdue(s.pool, e, lastPing, cur, wait) {
        RecycleKeepsOk(s, due, lastPing, cur, e.conn);
        var t := RecycleWithTimer(s, e.conn, cur);
        StepSeq(s.pool, Recycle(cur, e.conn), 0, c);
        ExpireExact(t, due[1..], lastPing, cur, wait, c);
        if c == e.conn {
          StaleAfterBump(s.pool, t.pool, due, c);
          assert Current(s.pool, due, c);
        } else {
          assert Current(t.pool, due[1..], c) <==> Current(s.pool, due, c);
        }
      } else {
        ExpireExact(s, due[1..], lastPing, cur, wait, c);
        if cur - lastPing[c] > wait * 3 {
          assert Current(s.pool, due[1..], c) <==> Current(s.pool, due, c);
        }
      }
    }
  }

  /** A pass from p to r recycled just the silent connections with a current drained timer. */
  ghost predicate Reclaimed(p: Pool, r: Pool, due: seq<Entry>, lastPing: seq<int>, cur: int, wait: int) {
    forall c :: 0 <= c < |lastPing| ==>
      if Current(p, due, c) && cur - lastPing[c] > wait * 3
      then c in r.recySet && c < |r.conns| && r.conns[c].recyTime == cur
      else SamePlace(p, r, c)
  }

  lemma PassExact(s: Pass, due: seq<Entry>, lastPing: seq<int>, cur: int, wait: int)
    requires PassOk(s, due, lastPing, cur)
    ensures Reclaimed(s.pool, Expire(s, due, lastPing, cur, wait).pool, due, lastPing, cur, wait)
  {
    forall c | 0 <= c < |lastPing| {
      ExpireExact(s, due, lastPing, cur, wait, c);
    }
  }

  lemma StaleAfterBump(p: Pool, q: Pool, due: seq<Entry>, c: Id)
    requires c < |p.conns| && c < |q.conns| && q.conns[c].seqNo == p.conns[c].seqNo + 1
    requires due != [] && forall e :: e in due ==> TimerOk(p, e)
    ensures !Current(q, due[1..], c)
  {
    assert forall e :: e in due[1..] ==> e in due;
  }

  // ---------------------------------------------------------------- runs

  /** Pool and timers fit together. */
  ghost predicate TimersOk(s: Pass) {
    Valid(s.pool) && Sorted(s.timers) && forall e :: e in s.timers ==> TimerOk(s.pool, e)
  }

  lemma {:induction false} InsertMembers(q: seq<Entry>, e: Entry, x: Entry)
    requires x in Insert(q, e)
    ensures x == e || x in q
  {
    var n := UpTo(q, e.deadline);
    var i :| 0 <= i < |Insert(q, e)| && Insert(q, e)[i] == x;
    if i < n {
      assert q[i] == x;
    } else if i > n {
      assert q[i - 1] == x;
    }
  }

  /** A timer for a connection in use, stamped with its present counter, fits. */
  lemma AddKeepsOk(s: Pass, c: Id, deadline: int)
    requires TimersOk(s) && InUse(s.pool, c)
    ensures TimersOk(Pass(s.pool, Insert(s.timers, Entry(deadline, c, s.pool.conns[c].seqNo))))
  {
    var e := Entry(deadline, c, s.pool.conns[c].seqNo);
    InsertSorted(s.timers, e);
    forall x | x in Insert(s.timers, e) ensures TimerOk(s.pool, x) {
      InsertMembers(s.timers, e, x);
    }
  }

  /** A step of the pool; recycling takes the first timer of the connection with it. */
  function PoolStep(s: Pass, a: Action): (r: Pass)
    requires Known(s.pool) && (!a.Get? ==> a.c < |s.pool.conns|)
  {
    Pass(Apply(s.pool, a), if a.Recycle? then Erase(s.timers, a.c) else s.timers)
  }

  lemma PoolStepKeepsOk(s: Pass, a: Action, poolWait: int)
    requires TimersOk(s) && Enabled(s.pool, a, poolWait)
    ensures TimersOk(PoolStep(s, a))
  {
    StepValid(s.pool, a, poolWait);
    if a.Recycle? {
      EraseSorted(s.timers, a.c);
    }
    forall e | e in PoolStep(s, a).timers ensures TimerOk(Apply(s.pool, a), e) {
      TimerOkStep(s.pool, a, poolWait, e);
    }
  }

  lemma RearmedSorted(q: seq<Entry>, j: nat, t: int, r: seq<Entry>)
    requires Sorted(q) && j <= |q| && r == Rearmed(q, j, t)
    ensures Sorted(r)
  {
    var k := From(q, j, t);
    forall a, b | 0 <= a < b < |r| ensures r[a].deadline <= r[b].deadline {
      assert r[a] == RearmedAt(q, j, k, t, a) && r[b] == RearmedAt(q, j, k, t, b);
      if b >= k {
        FromSorted(q, j, t, b);
      }
    }
  }

  /** Re-arming changes deadlines only. */
  lemma RearmedFits(p: Pool, q: seq<Entry>, j: nat, t: int, r: seq<Entry>)
    requires j <= |q| && (forall e :: e in q ==> TimerOk(p, e)) && r == Rearmed(q, j, t)
    ensures forall e :: e in r ==> TimerOk(p, e)
  {
    var k := From(q, j, t);
    forall i | 0 <= i < |r| ensures TimerOk(p, r[i]) {
      var m := if i < k - j then j + i else if i < k then i - (k - j) else i;
      assert q[m] in q && TimerOk(p, q[m]);
      assert r[i] == RearmedAt(q, j, k, t, i);
    }
  }

  lemma RearmedOk(s: Pass, r: seq<Entry>, due: seq<Entry>, lastPing: seq<int>, cur: int, wait: int)
    requires PassOk(s, s.timers, lastPing, cur) && wait > 0
    requires r == Rearmed(s.timers, UpTo(s.timers, cur), cur + wait) && due == s.timers[..UpTo(s.timers, cur)]
    ensures PassOk(Pass(s.pool, r), due, lastPing, cur)
  {
    RearmedSorted(s.timers, UpTo(s.timers, cur), cur + wait, r);
    RearmedFits(s.pool, s.timers, UpTo(s.timers, cur), cur + wait, r);
  }

  /** One round of the monitor thread, on values. */
  ghost function Round(s: Pass, lastPing: seq<int>, cur: int, wait: int): (r: Pass)
    requires PassOk(s, s.timers, lastPing, cur) && wait > 0
    ensures TimersOk(r)
  {
    if s.timers != [] && cur > s.timers[0].deadline then
      var n := UpTo(s.timers, cur);
      var r, due := Rearmed(s.timers, n, cur + wait), s.timers[..n];
      RearmedOk(s, r, due, lastPing, cur, wait);
      Expire(Pass(s.pool, r), due, lastPing, cur, wait)
    else s
  }

  /** The round in terms of the drain loop. */
  lemma RoundByTurns(s: Pass, r: seq<Entry>, due: seq<Entry>, lastPing: seq<int>, cur: int, wait: int)
    requires PassOk(s, s.timers, lastPing, cur) && wait > 0 && s.timers != [] && cur > s.timers[0].deadline
    requires DrainTurns(s.timers, cur, wait, UpTo(s.timers, cur)) == r && s.timers[..UpTo(s.timers, cur)] == due
    ensures PassOk(Pass(s.pool, r), due, lastPing, cur)
    ensures Round(s, lastPing, cur, wait) == Expire(Pass(s.pool, r), due, lastPing, cur, wait)
  {
    TurnsAreRearmed(s.timers, cur, wait, UpTo(s.timers, cur));
    RearmedOk(s, r, due, lastPing, cur, wait);
  }

  /** The entries a round drains. */
  function DueIn(s: Pass, cur: int): (due: seq<Entry>) {
    if s.timers != [] && cur > s.timers[0].deadline then s.timers[..UpTo(s.timers, cur)] else []
  }

  /** A round recycles exactly the connections that have a timer of their present generation
      due and have been silent for more than three waits. */
  lemma RoundReclaims(s: Pass, lastPing: seq<int>, cur: int, wait: int)
    requires PassOk(s, s.timers, lastPing, cur) && wait > 0
    ensures Reclaimed(s.pool, Round(s, lastPing, cur, wait).pool, DueIn(s, cur), lastPing, cur, wait)
  {
    if s.timers != [] && cur > s.timers[0].deadline {
      var r := Rearmed(s.timers, UpTo(s.timers, cur), cur + wait);
      RearmedOk(s, r, DueIn(s, cur), lastPing, cur, wait);
      PassExact(Pass(s.pool, r), DueIn(s, cur), lastPing, cur, wait);
    }
  }

  // ---------------------------------------------------------------- the timers a round leaves

  /** The timers of one connection, in order. */
  function Of(q: seq<Entry>, c: Id): (r: seq<Entry>) {
    if q == [] then [] else (if q[0].conn == c then [q[0]] else []) + Of(q[1..], c)
  }

  function Tail(q: seq<Entry>): (r: seq<Entry>) { if q == [] then [] else q[1..] }

  /** Erasing takes the first timer of its connection and no other. */
  lemma {:induction false} EraseOf(q: seq<Entry>, c: Id, d: Id)
    ensures Of(Erase(q, c), d) == if d == c then Tail(Of(q, d)) else Of(q, d)
  {
    if q != [] {
      if q[0].conn != c {
        EraseOf(q[1..], c, d);
        assert Erase(q, c)[1..] == Erase(q[1..], c);
      } else if d != c {
        assert Of(q, d) == Of(q[1..], d);
      }
    }
  }

  /** Recycling a connection takes its first timer away; every other pool step leaves the
      timers alone. */
  lemma RecycleTakesTimer(s: Pass, a: Action, d: Id)
    requires Known(s.pool) && (!a.Get? ==> a.c < |s.pool.conns|)
    ensures Of(PoolStep(s, a).timers, d) == if a.Recycle? && a.c == d then Tail(Of(s.timers, d)) else Of(s.timers, d)
  {
    if a.Recycle? {
      EraseOf(s.timers, a.c, d);
    }
  }

  /** The connection has a drained timer of its present generation and has been silent. */
  ghost predicate Expired(p: Pool, due: seq<Entry>, lastPing: seq<int>, cur: int, wait: int, c: Id)
    requires c < |lastPing|
  {
    Current(p, due, c) && cur - lastPing[c] > wait * 3
  }

  /** The pass takes one timer of each connection it recycles. */
  lemma {:induction false} ExpireTimers(s: Pass, due: seq<Entry>, lastPing: seq<int>, cur: int, wait: int, c: Id)
    requires PassOk(s, due, lastPing, cur) && c < |s.pool.conns|
    ensures Of(Expire(s, due, lastPing, cur, wait).timers, c)
         == if Expired(s.pool, due, lastPing, cur, wait, c) then Tail(Of(s.timers, c)) else Of(s.timers, c)
    decreases |due|
  {
    if due != [] {
      var e := due[0];
      assert due == [e] + due[1..];
      assert TimerOk(s.pool, e) by { assert e in due; }
      if Overdue(s.pool, e, lastPing, cur, wait) {
        RecycleKeepsOk(s, due, lastPing, cur, e.conn);
        var t := RecycleWithTimer(s, e.conn, cur);
        StepSeq(s.pool, Recycle(cur, e.conn), 0, c);
        ExpireTimers(t, due[1..], lastPing, cur, wait, c);
        EraseOf(s.timers, e.conn, c);
        if c == e.conn {
          StaleAfterBump(s.pool, t.pool, due, c);
          assert Current(s.pool, due, c);
        } else {
          assert Current(t.pool, due[1..], c) <==> Current(s.pool, due, c);
        }
      } else {
        ExpireTimers(s, due[1..], lastPing, cur, wait, c);
        if cur - lastPing[c] > wait * 3 {
          assert Current(s.pool, due[1..], c) <==> Current(s.pool, due, c);
        }
      }
    }
  }

  /** An entry with its deadline put off if it is due. */
  function Renew(e: Entry, cur: int, wait: int): (r: Entry) {
    if e.deadline <= cur then e.(deadline := cur + wait) else e
  }

  function RenewAll(q: seq<Entry>, cur: int, wait: int): (r: seq<Entry>) {
    seq(|q|, i requires 0 <= i < |q| => Renew(q[i], cur, wait))
  }

  lemma RenewParts(q: seq<Entry>, n: nat, cur: int, wait: int)
    requires Sorted(q) && n == UpTo(q, cur)
    ensures RenewAll(q, cur, wait) == Rearm(q[..n], cur + wait) + q[n..]
  {
    UpToSorted(q, cur);
  }

  /** Draining puts off every due entry once, and changes nothing else but the order. */
  lemma RearmedIsRenewed(q: seq<Entry>, n: nat, cur: int, wait: int, x: seq<Entry>, y: seq<Entry>)
    requires Sorted(q) && n == UpTo(q, cur) && x == Rearmed(q, n, cur + wait) && y == RenewAll(q, cur, wait)
    ensures multiset(x) == multiset(y)
  {
    var b := Rearm(q[..n], cur + wait);
    assert multiset(x) == multiset(b) + multiset(q[n..]) by { RearmedMembers(q, n, cur + wait, b, x); }
    assert multiset(y) == multiset(b) + multiset(q[n..]) by { RenewParts(q, n, cur, wait); }
  }

  lemma RearmedMembers(q: seq<Entry>, n: nat, t: int, b: seq<Entry>, x: seq<Entry>)
    requires n <= |q| && b == Rearm(q[..n], t) && x == Rearmed(q, n, t)
    ensures multiset(x) == multiset(b) + multiset(q[n..])
  {
    var k := From(q, n, t);
    RearmedParts(q, n, t, k);
    Reordered(q, n, k, b, x);
  }

  lemma Reordered(q: seq<Entry>, n: nat, k: nat, b: seq<Entry>, x: seq<Entry>)
    requires n <= k <= |q| && x == q[n..k] + b + q[k..]
    ensures multiset(x) == multiset(b) + multiset(q[n..])
  {
    assert multiset(q[n..k] + b) == multiset(q[n..k]) + multiset(b);
    assert q[n..] == q[n..k] + q[k..];
  }

  lemma {:induction false} OfAppend(a: seq<Entry>, b: seq<Entry>, c: Id)
    ensures Of(a + b, c) == Of(a, c) + Of(b, c)
  {
    if a == [] {
      assert a + b == b;
    } else {
      OfAppend(a[1..], b, c);
      assert a + b == [a[0]] + (a[1..] + b);
      OfCons(a[0], a[1..] + b, a + b, c);
      OfCons(a[0], a[1..], a, c);
    }
  }

  lemma OfCons(e: Entry, rest: seq<Entry>, q: seq<Entry>, c: Id)
    requires q == [e] + rest
    ensures Of(q, c) == if e.conn == c then [e] + Of(rest, c) else Of(rest, c)
  {
    assert q[1..] == rest;
  }

  lemma {:induction false} OfRearm(q: seq<Entry>, t: int, c: Id)
    ensures |Of(Rearm(q, t), c)| == |Of(q, c)|
  {
    if q != [] {
      OfRearm(q[1..], t, c);
      assert Rearm(q, t)[1..] == Rearm(q[1..], t);
    }
  }

  lemma OfRearmed(q: seq<Entry>, j: nat, t: int, c: Id)
    requires j <= |q|
    ensures |Of(Rearmed(q, j, t), c)| == |Of(q, c)|
  {
    var k := From(q, j, t);
    RearmedParts(q, j, t, k);
    OfAppend(q[j..k] + Rearm(q[..j], t), q[k..], c);
    OfAppend(q[j..k], Rearm(q[..j], t), c);
    OfRearm(q[..j], t, c);
    OfAppend(q[..j], q[j..k] + q[k..], c);
    OfAppend(q[j..k], q[k..], c);
  }

  /** r is the queue with every due entry put off once, in order of deadline. */
  ghost predicate Renewed(q: seq<Entry>, r: seq<Entry>, cur: int, wait: int) {
    && Sorted(r) && multiset(r) == multiset(RenewAll(q, cur, wait))
    && forall c :: |Of(r, c)| == |Of(q, c)|
  }

  /** The timers after a round.  If no deadline has passed they are as before.  Otherwise
      every due one is put off once, and then each connection that is recycled loses the first
      of its timers, so its only one if it had one, and no other connection loses any. */
  lemma RoundTimers(s: Pass, lastPing: seq<int>, cur: int, wait: int) returns (r: seq<Entry>)
    requires PassOk(s, s.timers, lastPing, cur) && wait > 0
    ensures (forall e :: e in s.timers ==> e.deadline >= cur) ==> r == s.timers
    ensures (exists e :: e in s.timers && e.deadline < cur) ==> Renewed(s.timers, r, cur, wait)
    ensures forall c :: 0 <= c < |s.pool.conns| ==>
              Of(Round(s, lastPing, cur, wait).timers, c) ==
              (if Expired(s.pool, DueIn(s, cur), lastPing, cur, wait, c) then Tail(Of(r, c)) else Of(r, c))
  {
    r := s.timers;
    HeadIsFirst(s.timers, cur);
    if s.timers != [] && cur > s.timers[0].deadline {
      r := Rearmed(s.timers, UpTo(s.timers, cur), cur + wait);
      RearmedOk(s, r, DueIn(s, cur), lastPing, cur, wait);
      RearmedIsRenewed(s.timers, UpTo(s.timers, cur), cur, wait, r, RenewAll(s.timers, cur, wait));
      forall c {
        OfRearmed(s.timers, UpTo(s.timers, cur), cur + wait, c);
      }
      forall c | 0 <= c < |s.pool.conns| {
        ExpireTimers(Pass(s.pool, r), DueIn(s, cur), lastPing, cur, wait, c);
      }
    }
  }

  lemma HeadIsFirst(q: seq<Entry>, cur: int)
    requires Sorted(q)
    ensures (exists e :: e in q && e.deadline < cur) <==> q != [] && cur > q[0].deadline
  {
    if e :| e in q && e.deadline < cur {
      var i :| 0 <= i < |q| && q[i] == e;
      assert i > 0 ==> q[0].deadline <= q[i].deadline;
    }
  }

  datatype Event = Started(c: Id, deadline: int) | Pooled(a: Action) | Monitored(cur: int, lastPing: seq<int>)

  /** A timer is started for a connection in use; the pool steps as its callers may; the
      monitor looks at a clock that does not go back. */
  ghost predicate Possible(s: Pass, e: Event, poolWait: int) {
    match e
    case Started(c, _) => InUse(s.pool, c)
    case Pooled(a) => Enabled(s.pool, a, poolWait)
    case Monitored(cur, lastPing) => s.pool.now <= cur && |lastPing| == |s.pool.conns|
  }

  ghost function Happens(s: Pass, e: Event, poolWait: int, wait: int): (r: Pass)
    requires TimersOk(s) && Possible(s, e, poolWait) && wait > 0
    ensures TimersOk(r)
  {
    match e
    case Started(c, deadline) =>
      AddKeepsOk(s, c, deadline);
      Pass(s.pool, Insert(s.timers, Entry(deadline, c, s.pool.conns[c].seqNo)))
    case Pooled(a) =>
      PoolStepKeepsOk(s, a, poolWait);
      PoolStep(s, a)
    case Monitored(cur, lastPing) => Round(s, lastPing, cur, wait)
  }

  ghost predicate IsHistory(s: Pass, events: seq<Event>, poolWait: int, wait: int)
    requires TimersOk(s) && wait > 0
    decreases |events|
  {
    events == [] ||
    (Possible(s, events[0], poolWait) && IsHistory(Happens(s, events[0], poolWait, wait), events[1..], poolWait, wait))
  }

  ghost function Now(s: Pass, events: seq<Event>, poolWait: int, wait: int): (r: Pass)
    requires TimersOk(s) && wait > 0 && IsHistory(s, events, poolWait, wait)
    decreases |events|
  {
    if events == [] then s else Now(Happens(s, events[0], poolWait, wait), events[1..], poolWait, wait)
  }

  lemma {:induction false} HistoryKeepsOk(s: Pass, events: seq<Event>, poolWait: int, wait: int)
    requires TimersOk(s) && wait > 0 && IsHistory(s, events, poolWait, wait)
    ensures TimersOk(Now(s, events, poolWait, wait))
    decreases |events|
  {
    if events != [] {
      HistoryKeepsOk(Happens(s, events[0], poolWait, wait), events[1..], poolWait, wait);
    }
  }

  /** A fresh pool and no timers. */
  ghost function Fresh(n: nat, start: int): (s: Pass)
    ensures TimersOk(s)
  {
    InitValid(n, start);
    Pass(Init(n, start), [])
  }

  /** Over every history of a fresh pool without timers, whatever timers are started, however
      the pool steps and whenever the monitor comes round, the next round finds what it
      needs: every timer is of a generation that was, and a current one of a connection in
      use. */
  lemma EveryRoundIsReady(n: nat, start: int, events: seq<Event>, poolWait: int, wait: int, lastPing: seq<int>, cur: int)
    requires wait > 0 && IsHistory(Fresh(n, start), events, poolWait, wait)
    requires Possible(Now(Fresh(n, start), events, poolWait, wait), Monitored(cur, lastPing), poolWait)
    ensures var s := Now(Fresh(n, start), events, poolWait, wait); PassOk(s, s.timers, lastPing, cur)
  {
    HistoryKeepsOk(Fresh(n, start), events, poolWait, wait);
  }
}
