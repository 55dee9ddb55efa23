/**
 Who owns a packet buffer.  One state holds the connections with their receiving machines,
 the thread pool, and the buffers that have been deleted.  A buffer is named by its number
 in order of allocation.  Connections change by whole handler calls; the threads of the
 pool, interrupted or not, change by single statements, in every interleaving.
 */
module Ownership {
  import opened Bytes
  import opened Common
  import opened Framing
  import Streams
  import T = ThreadPool

  type Buffer = T.Buffer

  /** The receiving machine of a connection, and precv_mem_addr. */
  datatype Conn = Conn(used: bool, seqNo: nat, rx: Rx, mem: Option<Buffer>)

  /** The message header of a buffer: its connection, and the counter of that when the packet
      header was complete. */
  datatype Origin = Origin(conn: nat, stamp: nat)

  /** dropped holds the buffers deleted by put_one_to_free; those deleted by the workers are
      pool.finished.  origins holds the message header of every buffer allocated. */
  datatype Sys = Sys(conns: seq<Conn>, pool: T.State, dropped: seq<Buffer>, next: Buffer, origins: seq<Origin>)

  datatype Action =
    | Receive(c: nat, data: seq<byte>, p: nat)  // _read_request_handler, on the thread of producer p
    | HandOut(c: nat)                           // get_one_to_use
    | PutFree(c: nat)                           // put_one_to_free
    | Recycle(c: nat)                           // insert_recy_conn_queue
    | Thread(a: T.Action)                       // one statement of a pool thread

  predicate InHeader(rx: Rx) { rx.stat.HdrStart? || rx.stat.HdrReceiving? }

  /** The buffer of the packet that is being received, or is about to be. */
  function Current(s: Sys, k: Conn): (b: Buffer) { if k.mem.Some? then k.mem.value else s.next }

  ghost predicate CanReceive(s: Sys, k: Conn, data: seq<byte>, p: nat) {
    && k.used && WellFormed(k.rx) && 1 <= |data| <= k.rx.need
    && (Recv(k.rx, data, k.seqNo).out != [] ==> T.Enabled(s.pool, T.Call(p, Current(s, k))))
  }

  ghost predicate Enabled(s: Sys, a: Action) {
    match a
    case Receive(c, data, p) => c < |s.conns| && CanReceive(s, s.conns[c], data, p)
    case HandOut(c) => c < |s.conns| && !s.conns[c].used
    case PutFree(c) => c < |s.conns| && s.conns[c].used
    case Recycle(c) => c < |s.conns| && s.conns[c].used
    case Thread(a) => !a.Call? && T.Enabled(s.pool, a) && T.Safe(s.pool, a)
  }

  /** Whether this reception completes a header and so allocates. */
  ghost predicate Allocates(k: Conn, data: seq<byte>)
    requires WellFormed(k.rx) && 1 <= |data| <= k.rx.need
  {
    var r := Recv(k.rx, data, k.seqNo);
    k.mem.None? && (r.out != [] || !InHeader(r.rx))
  }

  /** A complete header allocates; a complete packet goes to the pool. */
  ghost function Received(s: Sys, c: nat, data: seq<byte>, p: nat): (t: Sys)
    requires c < |s.conns| && CanReceive(s, s.conns[c], data, p)
  {
    var k := s.conns[c];
    var r := Recv(k.rx, data, k.seqNo);
    var b := Current(s, k);
    var s := if Allocates(k, data) then s.(next := s.next + 1, origins := s.origins + [Origin(c, k.seqNo)]) else s;
    if r.out != [] then
      s.(conns := s.conns[c := k.(rx := r.rx, mem := None)], pool := T.Apply(s.pool, T.Call(p, b)))
    else
      s.(conns := s.conns[c := k.(rx := r.rx, mem := if InHeader(r.rx) then k.mem else Some(b))])
  }

  ghost function Apply(s: Sys, a: Action): (t: Sys)
    requires Enabled(s, a)
  {
    match a
    case Receive(c, data, p) => Received(s, c, data, p)
    case HandOut(c) =>
      var k := s.conns[c];
      s.(conns := s.conns[c := Conn(true, k.seqNo + 1, IDLE, None)])
    case PutFree(c) =>
      var k := s.conns[c];
      s.(conns := s.conns[c := Conn(false, k.seqNo + 1, k.rx, None)],
         dropped := if k.mem.Some? then s.dropped + [k.mem.value] else s.dropped)
    case Recycle(c) => s.(conns := s.conns[c := s.conns[c].(seqNo := s.conns[c].seqNo + 1)])
    case Thread(a) => s.(pool := T.Apply(s.pool, a))
  }

  ghost predicate Initial(s: Sys) {
    && T.Initial(s.pool) && s.dropped == [] && s.next == 0 && s.origins == []
    && forall c :: 0 <= c < |s.conns| ==> !s.conns[c].used && s.conns[c].mem.None?
  }

  // ---------------------------------------------------------------- the places of a buffer

  function Owns(k: Conn, b: Buffer): (n: nat) { if k.mem == Some(b) then 1 else 0 }

  function Owners(ks: seq<Conn>, b: Buffer): (n: nat) {
    if ks == [] then 0 else Owns(ks[0], b) + Owners(ks[1..], b)
  }

  lemma {:induction false} OwnersUpdate(ks: seq<Conn>, i: nat, k: Conn, b: Buffer)
    requires i < |ks|
    ensures Owners(ks[i := k], b) == Owners(ks, b) - Owns(ks[i], b) + Owns(k, b)
  {
    if i == 0 {
      assert ks[0 := k][1..] == ks[1..];
    } else {
      OwnersUpdate(ks[1..], i - 1, k, b);
      assert ks[i := k][1..] == ks[1..][i - 1 := k];
    }
  }

  lemma {:induction false} OwnersBound(ks: seq<Conn>, i: nat, j: nat, b: Buffer)
    requires i < j < |ks|
    ensures Owners(ks, b) >= Owns(ks[i], b) + Owns(ks[j], b)
  {
    if i == 0 {
      OneOwns(ks[1..], j - 1, b);
    } else {
      OwnersBound(ks[1..], i - 1, j - 1, b);
    }
  }

  lemma {:induction false} OneOwns(ks: seq<Conn>, i: nat, b: Buffer)
    requires i < |ks|
    ensures Owners(ks, b) >= Owns(ks[i], b)
  {
    if i > 0 {
      OneOwns(ks[1..], i - 1, b);
    }
  }

  lemma {:induction false} NobodyOwns(ks: seq<Conn>, b: Buffer)
    requires forall c :: 0 <= c < |ks| ==> ks[c].mem.None?
    ensures Owners(ks, b) == 0
  {
    if ks != [] {
      NobodyOwns(ks[1..], b);
    }
  }

  /** A producer that has the buffer as its argument and has not pushed it yet. */
  function Brings(p: T.Producer, b: Buffer): (n: nat) {
    if (p.Entered? || p.Holding?) && p.buf == b then 1 else 0
  }

  function Bringers(ps: seq<T.Producer>, b: Buffer): (n: nat) {
    if ps == [] then 0 else Brings(ps[0], b) + Bringers(ps[1..], b)
  }

  lemma {:induction false} BringersUpdate(ps: seq<T.Producer>, i: nat, p: T.Producer, b: Buffer)
    requires i < |ps|
    ensures Bringers(ps[i := p], b) == Bringers(ps, b) - Brings(ps[i], b) + Brings(p, b)
  {
    if i == 0 {
      assert ps[0 := p][1..] == ps[1..];
    } else {
      BringersUpdate(ps[1..], i - 1, p, b);
      assert ps[i := p][1..] == ps[1..][i - 1 := p];
    }
  }

  lemma {:induction false} NobodyBrings(ps: seq<T.Producer>, b: Buffer)
    requires forall p :: 0 <= p < |ps| ==> ps[p].Idle?
    ensures Bringers(ps, b) == 0
  {
    if ps != [] {
      NobodyBrings(ps[1..], b);
    }
  }

  /** How often b is in the pool: brought, queued, with a worker, or deleted by one. */
  ghost function InPool(s: T.State, b: Buffer): (n: nat) {
    Bringers(s.producers, b) + multiset(s.queue)[b] + T.Holders(s.workers, b) + multiset(s.finished)[b]
  }

  /** How often b is anywhere. */
  ghost function Places(s: Sys, b: Buffer): (n: nat) {
    Owners(s.conns, b) + InPool(s.pool, b) + multiset(s.dropped)[b]
  }

  lemma WorkerKeeps(s: T.State, a: T.Action, b: Buffer)
    requires T.Enabled(s, a) && T.Safe(s, a) && T.OfWorker(a)
    ensures InPool(T.Apply(s, a), b) == InPool(s, b)
  {
    var t := T.Apply(s, a);
    T.HoldersUpdate(s.workers, a.w, t.workers[a.w], b);
    if a.Pop? {
      assert s.queue == [s.queue[0]] + t.queue;
      assert multiset(s.queue) == multiset{s.queue[0]} + multiset(t.queue);
    } else if a.Finish? {
      assert multiset(t.finished) == multiset(s.finished) + multiset{s.workers[a.w].buf};
    }
  }

  lemma ProducerKeeps(s: T.State, a: T.Action, b: Buffer)
    requires T.Enabled(s, a) && !T.OfWorker(a)
    ensures InPool(T.Apply(s, a), b) == InPool(s, b) + if a.Call? && a.buf == b then 1 else 0
  {
    var t := T.Apply(s, a);
    BringersUpdate(s.producers, a.p, t.producers[a.p], b);
    if a.Push? {
      assert multiset(t.queue) == multiset(s.queue) + multiset{s.producers[a.p].buf};
    }
  }

  // ---------------------------------------------------------------- the invariant

  /** A connection in use owns a buffer exactly while it is in a packet body; a free one
      owns none. */
  ghost predicate ConnOk(k: Conn) {
    if k.used then WellFormed(k.rx) && (k.mem.None? <==> InHeader(k.rx)) else k.mem.None?
  }

  /** Every buffer allocated so far is in exactly one place, and no other is anywhere. */
  ghost predicate OnePlace(s: Sys, b: Buffer) { Places(s, b) == if b < s.next then 1 else 0 }

  ghost predicate Inv(s: Sys) {
    && T.Loose(s.pool)
    && (forall c :: 0 <= c < |s.conns| ==> ConnOk(s.conns[c]))
    && forall b :: OnePlace(s, b)
  }

  lemma InitialInv(s: Sys)
    requires Initial(s)
    ensures Inv(s)
  {
    T.InitialInv(s.pool);
    forall b ensures OnePlace(s, b) {
      NobodyOwns(s.conns, b);
      NobodyBrings(s.pool.producers, b);
      T.NobodyHolds(s.pool.workers, b);
    }
  }

  lemma ReceiveConn(k: Conn, data: seq<byte>)
    requires ConnOk(k) && k.used && 1 <= |data| <= k.rx.need
    ensures var r := Recv(k.rx, data, k.seqNo);
            && WellFormed(r.rx)
            && (r.out != [] ==> InHeader(r.rx))
            && (k.mem.Some? && r.out == [] ==> !InHeader(r.rx))
  {
    RecvParses(k.rx, data, k.seqNo);
  }

  lemma ReceivePlace(s: Sys, c: nat, data: seq<byte>, p: nat, b: Buffer)
    requires c < |s.conns| && ConnOk(s.conns[c]) && CanReceive(s, s.conns[c], data, p) && OnePlace(s, b)
    ensures OnePlace(Received(s, c, data, p), b)
  {
    var k, t := s.conns[c], Received(s, c, data, p);
    ReceiveConn(k, data);
    OwnersUpdate(s.conns, c, t.conns[c], b);
    if Recv(k.rx, data, k.seqNo).out != [] {
      ProducerKeeps(s.pool, T.Call(p, Current(s, k)), b);
    }
  }

  lemma ReceiveInv(s: Sys, c: nat, data: seq<byte>, p: nat)
    requires Inv(s) && c < |s.conns| && CanReceive(s, s.conns[c], data, p)
    ensures Inv(Received(s, c, data, p))
  {
    var k, t := s.conns[c], Received(s, c, data, p);
    ReceiveConn(k, data);
    if Recv(k.rx, data, k.seqNo).out != [] {
      T.LooseStep(s.pool, T.Call(p, Current(s, k)));
    }
    forall b ensures OnePlace(t, b) {
      ReceivePlace(s, c, data, p, b);
    }
  }

  lemma ThreadInv(s: Sys, a: T.Action)
    requires Inv(s) && Enabled(s, Thread(a))
    ensures Inv(Apply(s, Thread(a)))
  {
    T.LooseStep(s.pool, a);
    forall b ensures OnePlace(Apply(s, Thread(a)), b) {
      assert OnePlace(s, b);
      if T.OfWorker(a) {
        WorkerKeeps(s.pool, a, b);
      } else {
        ProducerKeeps(s.pool, a, b);
      }
    }
  }

  lemma ConnInv(s: Sys, a: Action)
    requires Inv(s) && Enabled(s, a) && (a.HandOut? || a.PutFree? || a.Recycle?)
    ensures Inv(Apply(s, a))
  {
    var t := Apply(s, a);
    forall b ensures OnePlace(t, b) {
      assert OnePlace(s, b);
      OwnersUpdate(s.conns, a.c, t.conns[a.c], b);
      if a.PutFree? && s.conns[a.c].mem.Some? {
        assert multiset(t.dropped) == multiset(s.dropped) + multiset{s.conns[a.c].mem.value};
      }
    }
  }

  lemma Step(s: Sys, a: Action)
    requires Inv(s) && Enabled(s, a)
    ensures Inv(Apply(s, a))
  {
    match a
    case Receive(c, data, p) => ReceiveInv(s, c, data, p);
    case Thread(x) => ThreadInv(s, x);
    case _ => ConnInv(s, a);
  }

  // ---------------------------------------------------------------- whole runs

  ghost predicate IsRun(s: Sys, actions: seq<Action>)
    decreases |actions|
  {
    actions == [] || (Enabled(s, actions[0]) && IsRun(Apply(s, actions[0]), actions[1..]))
  }

  ghost function End(s: Sys, actions: seq<Action>): (t: Sys)
    requires IsRun(s, actions)
    decreases |actions|
  {
    if actions == [] then s else End(Apply(s, actions[0]), actions[1..])
  }

  lemma {:induction false} InvRun(s: Sys, actions: seq<Action>)
    requires Inv(s) && IsRun(s, actions)
    ensures Inv(End(s, actions))
    decreases |actions|
  {
    if actions != [] {
      Step(s, actions[0]);
      InvRun(Apply(s, actions[0]), actions[1..]);
    }
  }

  /** In every run from the start: a buffer that was allocated is in exactly one of the
      connections, the callers, the queue, the workers and the deleted; it is deleted at
      most once; a connection at a header, or free, owns none; and no two connections share
      one. */
  lemma OneOwner(s: Sys, actions: seq<Action>, b: Buffer)
    requires Initial(s) && IsRun(s, actions)
    ensures var t := End(s, actions);
            && Places(t, b) == (if b < t.next then 1 else 0)
            && multiset(t.dropped)[b] + multiset(t.pool.finished)[b] <= 1
            && (forall c :: 0 <= c < |t.conns| && (!t.conns[c].used || InHeader(t.conns[c].rx)) ==> t.conns[c].mem.None?)
            && forall c, d :: 0 <= c < d < |t.conns| && t.conns[c].mem.Some? ==> t.conns[c].mem != t.conns[d].mem
  {
    InitialInv(s);
    InvRun(s, actions);
    var t := End(s, actions);
    assert OnePlace(t, b);
    forall c, d | 0 <= c < d < |t.conns| && t.conns[c].mem.Some? ensures t.conns[c].mem != t.conns[d].mem {
      assert OnePlace(t, t.conns[c].mem.value);
      OwnersBound(t.conns, c, d, t.conns[c].mem.value);
    }
  }

  /** No message is queued twice or finished twice, and what the workers finish or hold is
      what left the queue: with distinct buffers, first in first out is exactly once. */
  lemma ExactlyOnce(s: Sys, actions: seq<Action>, b: Buffer)
    requires Initial(s) && IsRun(s, actions)
    ensures var t := End(s, actions).pool;
            && t.pushed == t.taken + t.queue
            && multiset(t.pushed)[b] <= 1
            && multiset(t.taken)[b] == multiset(t.finished)[b] + T.Holders(t.workers, b)
  {
    InitialInv(s);
    InvRun(s, actions);
    var t := End(s, actions);
    assert OnePlace(t, b);
    assert multiset(t.pool.pushed) == multiset(t.pool.taken) + multiset(t.pool.queue);
  }

  // ---------------------------------------------------------------- stamps

  /** A connection that owns a buffer is the one in its message header, and its machine
      carries the same stamp. */
  ghost predicate Labelled(s: Sys) {
    && |s.origins| == s.next
    && forall c :: 0 <= c < |s.conns| && s.conns[c].mem.Some? ==>
         s.conns[c].mem.value < s.next && s.origins[s.conns[c].mem.value] == Origin(c, s.conns[c].rx.stamp)
  }

  lemma ReceiveLabels(s: Sys, c: nat, data: seq<byte>, p: nat)
    requires Inv(s) && Labelled(s) && c < |s.conns| && CanReceive(s, s.conns[c], data, p)
    ensures Labelled(Received(s, c, data, p))
  {
    assert ConnOk(s.conns[c]);
    ReceiveConn(s.conns[c], data);
  }

  lemma StepLabels(s: Sys, a: Action)
    requires Inv(s) && Labelled(s) && Enabled(s, a)
    ensures Labelled(Apply(s, a)) && s.origins <= Apply(s, a).origins && |Apply(s, a).conns| == |s.conns|
  {
    if a.Receive? {
      ReceiveLabels(s, a.c, a.data, a.p);
    }
  }

  /** The message that goes to the pool carries the stamp that its buffer was given. */
  lemma DeliveredStamp(s: Sys, c: nat, data: seq<byte>, p: nat)
    requires Inv(s) && Labelled(s) && c < |s.conns| && CanReceive(s, s.conns[c], data, p)
    requires Recv(s.conns[c].rx, data, s.conns[c].seqNo).out != []
    ensures var out, b, t := Recv(s.conns[c].rx, data, s.conns[c].seqNo).out, Current(s, s.conns[c]), Received(s, c, data, p);
            |out| == 1 && b < t.next && |t.origins| == t.next && t.origins[b] == Origin(c, out[0].seqNo)
  {
    assert ConnOk(s.conns[c]);
    ReceiveConn(s.conns[c], data);
  }

  /** The action hands c out, frees it or recycles it. */
  predicate Touches(a: Action, c: nat) { (a.HandOut? || a.PutFree? || a.Recycle?) && a.c == c }

  function Touched(actions: seq<Action>, c: nat): (n: nat) {
    if actions == [] then 0 else (if Touches(actions[0], c) then 1 else 0) + Touched(actions[1..], c)
  }

  lemma {:induction false} RunLabels(s: Sys, actions: seq<Action>, c: nat)
    requires Inv(s) && Labelled(s) && IsRun(s, actions) && c < |s.conns|
    ensures var t := End(s, actions);
            && Labelled(t) && s.origins <= t.origins && |t.conns| == |s.conns|
            && t.conns[c].seqNo == s.conns[c].seqNo + Touched(actions, c)
    decreases |actions|
  {
    if actions != [] {
      Step(s, actions[0]);
      StepLabels(s, actions[0]);
      RunLabels(Apply(s, actions[0]), actions[1..], c);
    }
  }

  /** Whatever happens after the header of a packet was complete, also while its body is still
      coming: the buffer keeps its message header, and its stamp is the counter of its
      connection if and only if that was not handed out, recycled or freed since. */
  lemma CurrentExactly(s: Sys, c: nat, data: seq<byte>, p: nat, actions: seq<Action>)
    requires Inv(s) && Labelled(s) && Enabled(s, Receive(c, data, p)) && Allocates(s.conns[c], data)
    requires IsRun(Apply(s, Receive(c, data, p)), actions)
    ensures var b, t := s.next, End(Apply(s, Receive(c, data, p)), actions);
            && b < |t.origins| && t.origins[b].conn == c < |t.conns|
            && (t.conns[c].seqNo == t.origins[b].stamp <==> Touched(actions, c) == 0)
  {
    var a := Receive(c, data, p);
    var s1 := Apply(s, a);
    Step(s, a);
    StepLabels(s, a);
    assert s1.origins[s.next] == Origin(c, s.conns[c].seqNo) && s1.conns[c].seqNo == s.conns[c].seqNo;
    RunLabels(s1, actions, c);
  }

  lemma {:induction false} RunFromStart(s: Sys, actions: seq<Action>)
    requires Inv(s) && Labelled(s) && IsRun(s, actions)
    ensures Inv(End(s, actions)) && Labelled(End(s, actions))
    decreases |actions|
  {
    if actions != [] {
      Step(s, actions[0]);
      StepLabels(s, actions[0]);
      RunFromStart(Apply(s, actions[0]), actions[1..]);
    }
  }

  /** Every state that a fresh system reaches satisfies what the lemmas above ask for. */
  lemma ReachedIsLabelled(s: Sys, actions: seq<Action>)
    requires Initial(s) && IsRun(s, actions)
    ensures Inv(End(s, actions)) && Labelled(End(s, actions))
  {
    InitialInv(s);
    RunFromStart(s, actions);
  }

  // ---------------------------------------------------------------- reassembly in the whole system

  /** The bytes that connection c receives in the run. */
  function Fed(actions: seq<Action>, c: nat): (s: seq<byte>) {
    if actions == [] then []
    else (if actions[0].Receive? && actions[0].c == c then actions[0].data else []) + Fed(actions[1..], c)
  }

  /** The messages that it hands to the pool. */
  ghost function Delivered(s: Sys, actions: seq<Action>, c: nat): (r: seq<Msg>)
    requires IsRun(s, actions)
    decreases |actions|
  {
    if actions == [] then []
    else
      var a := actions[0];
      (if a.Receive? && a.c == c then Recv(s.conns[c].rx, a.data, s.conns[c].seqNo).out else [])
      + Delivered(Apply(s, a), actions[1..], c)
  }

  /** No action of the run hands c out or frees it. */
  predicate Kept(actions: seq<Action>, c: nat) {
    forall i :: 0 <= i < |actions| ==> !((actions[i].HandOut? || actions[i].PutFree?) && actions[i].c == c)
  }

  lemma OtherActions(s: Sys, a: Action, c: nat)
    requires Enabled(s, a) && c < |s.conns| && !((a.Receive? || a.HandOut? || a.PutFree?) && a.c == c)
    ensures var t := Apply(s, a); c < |t.conns| && t.conns[c].rx == s.conns[c].rx && t.conns[c].used == s.conns[c].used
  {
  }

  lemma OneReception(s: Sys, c: nat, data: seq<byte>, p: nat)
    requires c < |s.conns| && CanReceive(s, s.conns[c], data, p)
    ensures var k, t := s.conns[c], Apply(s, Receive(c, data, p));
            && c < |t.conns| && t.conns[c].used && t.conns[c].rx == Recv(k.rx, data, k.seqNo).rx
            && Parse(k.rx.buf + data) == Parsed(Packets(Recv(k.rx, data, k.seqNo).out), t.conns[c].rx.buf)
  {
    RecvParses(s.conns[c].rx, data, s.conns[c].seqNo);
  }

  /** Whatever the other connections and the threads do in between, and also if it is recycled,
      a connection delivers the packets of its own bytes and holds back the rest of them. */
  lemma {:induction false} Reassembled(s: Sys, actions: seq<Action>, c: nat)
    requires Inv(s) && IsRun(s, actions) && c < |s.conns| && s.conns[c].used && Kept(actions, c)
    ensures var t := End(s, actions);
            && c < |t.conns| && t.conns[c].used
            && Parse(s.conns[c].rx.buf + Fed(actions, c)) == Parsed(Packets(Delivered(s, actions, c)), t.conns[c].rx.buf)
    decreases |actions|
  {
    var rx := s.conns[c].rx;
    if actions == [] {
      assert ConnOk(s.conns[c]);
      assert rx.buf + [] == rx.buf;
      HeldBack(rx);
    } else {
      var a, rest := actions[0], actions[1..];
      var s1 := Apply(s, a);
      Step(s, a);
      assert !((a.HandOut? || a.PutFree?) && a.c == c);
      if a.Receive? && a.c == c {
        OneReception(s, c, a.data, a.p);
      } else {
        OtherActions(s, a, c);
      }
      Reassembled(s1, rest, c);
      if a.Receive? && a.c == c {
        var out, end := Recv(rx, a.data, s.conns[c].seqNo).out, End(s1, rest).conns[c].rx;
        Resumed(rx.buf, a.data, Fed(rest, c), s1.conns[c].rx.buf, out, Framing.Step(end, Delivered(s1, rest, c)));
      } else {
        assert [] + Fed(rest, c) == Fed(rest, c) && [] + Delivered(s1, rest, c) == Delivered(s1, rest, c);
      }
    }
  }

  /** From its hand-out on, until it is freed, a connection delivers exactly the packets among
      the pieces of the stream that its peer sends, cut and interleaved in any way. */
  lemma EachConnection(s: Sys, c: nat, actions: seq<Action>, ps: seq<seq<byte>>, rest: seq<byte>)
    requires Inv(s) && Enabled(s, HandOut(c)) && IsRun(Apply(s, HandOut(c)), actions) && Kept(actions, c)
    requires Streams.Pieces(ps) && Streams.Incomplete(rest) && Fed(actions, c) == Flatten(ps) + rest
    ensures var s1 := Apply(s, HandOut(c));
            && Packets(Delivered(s1, actions, c)) == Streams.Accepted(ps)
            && c < |End(s1, actions).conns| && End(s1, actions).conns[c].rx.buf == rest
  {
    var s1 := Apply(s, HandOut(c));
    Step(s, HandOut(c));
    Reassembled(s1, actions, c);
    Streams.ParsePieces(ps, rest);
    assert [] + Fed(actions, c) == Fed(actions, c);
  }
}
