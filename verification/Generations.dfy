/**
 What the generation counter is for, across the components: a packet, the reply to it and
 a heartbeat timer all carry the counter of their connection at one moment, and act on the
 connection only if it is still in that generation.
 */
module Generations {
  import opened Bytes
  import opened Common
  import opened Framing
  import opened Dispatch
  import opened ConnPool
  import Heartbeat

  /** m was received on connection c, cut into chunks in some way, in the generation c has
      at p. */
  ghost predicate Received(p: Pool, c: Id, chunks: seq<seq<byte>>, m: Msg) {
    c < |p.conns| && Legal(IDLE, chunks, p.conns[c].seqNo) && m in Run(IDLE, chunks, p.conns[c].seqNo).out
  }

  /** A received message is a packet, and its stamp is the counter of its connection. */
  lemma ReceivedStamp(p: Pool, c: Id, chunks: seq<seq<byte>>, m: Msg)
    requires Received(p, c, chunks, m)
    ensures m.seqNo == p.conns[c].seqNo && IsPacket(m.packet)
  {
    var n := p.conns[c].seqNo;
    var out := Run(IDLE, chunks, n).out;
    ChunkingIndependence(IDLE, chunks, n);
    var i :| 0 <= i < |out| && out[i] == m;
    assert Packets(out)[i] == m.packet;
    ParsePackets(IDLE.buf + Flatten(chunks), i);
  }

  /** th_msg_process_func calls a handler for m. */
  predicate HandledAt(q: Pool, c: Id, m: Msg) {
    |m.packet| >= PKG_HDR_SIZE && c < |q.conns| && Judge(m, q.conns[c].seqNo).Handled?
  }

  /** The check of send_msg_th_func before a reply is written to the socket. */
  predicate SendAllowed(q: Pool, c: Id, stamp: nat) { c < |q.conns| && q.conns[c].seqNo == stamp }

  /** A packet received at p and handled after the run was handled for the same hand-out:
      nothing in between handed the connection out, recycled it or freed it. */
  lemma HandledInSameGeneration(p: Pool, actions: seq<Action>, wait: int, c: Id, chunks: seq<seq<byte>>, m: Msg)
    requires Valid(p) && IsRun(p, actions, wait) && Received(p, c, chunks, m)
    requires HandledAt(End(p, actions, wait), c, m)
    ensures Untouched(p, actions, wait, c) && SamePlace(p, End(p, actions, wait), c)
  {
    ReceivedStamp(p, c, chunks, m);
    StampCurrent(p, actions, wait, c);
  }

  /** The reply copies the stamp of the packet.  If it is let onto the socket, the
      connection has been in one generation from the packet's header to that moment, so
      the descriptor is the one the packet came from. */
  lemma ReplyToTheSamePeer(p: Pool, before: seq<Action>, after: seq<Action>, wait: int, c: Id,
                           chunks: seq<seq<byte>>, m: Msg)
    requires Valid(p) && IsRun(p, before, wait) && Received(p, c, chunks, m)
    requires HandledAt(End(p, before, wait), c, m) && IsRun(End(p, before, wait), after, wait)
    requires SendAllowed(End(End(p, before, wait), after, wait), c, m.seqNo)
    ensures var r := End(End(p, before, wait), after, wait);
            && SamePlace(p, r, c) && r.conns[c].fd == p.conns[c].fd
            && Untouched(End(p, before, wait), after, wait, c)
  {
    HandledInSameGeneration(p, before, wait, c, chunks, m);
    ReceivedStamp(p, c, chunks, m);
    StampCurrent(End(p, before, wait), after, wait, c);
  }

  /** A packet received at p is handled after the run if and only if nothing in between
      handed its connection out, recycled it or freed it and its bytes are the encoding of a
      packet of a known kind. */
  lemma HandledIf(p: Pool, actions: seq<Action>, wait: int, c: Id, chunks: seq<seq<byte>>, m: Msg)
    requires Valid(p) && IsRun(p, actions, wait) && Received(p, c, chunks, m)
    ensures HandledAt(End(p, actions, wait), c, m)
       <==> Untouched(p, actions, wait, c) && exists k :: Encodable(k) && k.kind < 3 && m.packet == Encode(k)
  {
    ReceivedStamp(p, c, chunks, m);
    StampCurrent(p, actions, wait, c);
    HandledExactly(m, End(p, actions, wait).conns[c].seqNo);
  }

  /** A reply, which copies the stamp of the packet, is let onto the socket after the run if
      and only if nothing in between touched the connection. */
  lemma ReplyExactly(p: Pool, actions: seq<Action>, wait: int, c: Id, chunks: seq<seq<byte>>, m: Msg)
    requires Valid(p) && IsRun(p, actions, wait) && Received(p, c, chunks, m)
    ensures SendAllowed(End(p, actions, wait), c, m.seqNo) <==> Untouched(p, actions, wait, c)
  {
    ReceivedStamp(p, c, chunks, m);
    StampCurrent(p, actions, wait, c);
  }

  /** From the fresh pool on: a packet was received on a connection that was not free, handled,
      and a reply let onto the socket.  The descriptor the reply goes to is then the one
      of the last accept that got this connection before the packet was received. */
  lemma ReplyToTheAcceptedSocket(n: nat, now: int, history: seq<Action>, before: seq<Action>, after: seq<Action>,
                                 wait: int, c: Id, chunks: seq<seq<byte>>, m: Msg)
    requires Valid(Init(n, now)) && IsRun(Init(n, now), history, wait)
    requires var p := End(Init(n, now), history, wait);
             && Received(p, c, chunks, m) && !IsFree(p, c)
             && IsRun(p, before, wait) && HandledAt(End(p, before, wait), c, m)
             && IsRun(End(p, before, wait), after, wait)
             && SendAllowed(End(End(p, before, wait), after, wait), c, m.seqNo)
    ensures var r := End(End(End(Init(n, now), history, wait), before, wait), after, wait);
            c < |r.conns| && LastFd(Init(n, now), history, wait, c) == Some(r.conns[c].fd)
  {
    FdIsAccepted(n, now, history, wait, c);
    ReplyToTheSamePeer(End(Init(n, now), history, wait), before, after, wait, c, chunks, m);
  }

  /** A packet or a reply from before the last hand-out is let through nowhere. */
  lemma OldGenerationIsDropped(p: Pool, actions: seq<Action>, wait: int, c: Id, chunks: seq<seq<byte>>, m: Msg)
    requires Valid(p) && IsRun(p, actions, wait) && Received(p, c, chunks, m)
    requires !Untouched(p, actions, wait, c)
    ensures !HandledAt(End(p, actions, wait), c, m) && !SendAllowed(End(p, actions, wait), c, m.seqNo)
  {
    ReceivedStamp(p, c, chunks, m);
    StampCurrent(p, actions, wait, c);
  }

  /** A heartbeat timer added at p passes the generation test after the run if and only if
      nothing in between handed its connection out, recycled it or freed it; so a silent
      old generation never gets a new one recycled. */
  lemma TimerOfTheSameGeneration(p: Pool, actions: seq<Action>, wait: int, e: Heartbeat.Entry,
                                 lastPing: seq<int>, cur: int, heartWait: int)
    requires Valid(p) && IsRun(p, actions, wait) && e.conn < |p.conns| && e.conn < |lastPing|
    requires e.seqNo == p.conns[e.conn].seqNo
    ensures var q := End(p, actions, wait);
            && e.conn < |q.conns|
            && (Heartbeat.Overdue(q, e, lastPing, cur, heartWait) <==>
                Untouched(p, actions, wait, e.conn) && cur - lastPing[e.conn] > heartWait * 3)
  {
    StampCurrent(p, actions, wait, e.conn);
  }
}
