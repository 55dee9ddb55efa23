/**
 TCP packet reassembly: net/mgx_socket_request.cpp.

 Three layers.  Parse cuts a whole byte stream into packets and knows nothing about
 how the bytes arrived.  Recv is the four-state machine as a function of one recv
 result.  Connection is the machine as the source writes it, with a header buffer, an
 allocated packet buffer and a write cursor.  Connection is proved to do what Recv
 says, and Recv, over every legal sequence of recv results, what Parse says.
 */
module Framing {
  import opened Bytes

  const PKG_HDR_SIZE: nat := 8       // sizeof(mgx_pkg_hdr_t), packed
  const PKG_HDR_BUF_SIZE: nat := 20
  const PKG_MAX_SIZE: nat := 30000

  /** The first field of a header. */
  function PkgSize(packet: seq<byte>): (n: nat)
    requires |packet| >= PKG_HDR_SIZE
  {
    Nat16(packet[..2])
  }

  predicate WrongSize(n: nat) { n < PKG_HDR_SIZE || n > PKG_MAX_SIZE - 1000 }

  // ---------------------------------------------------------------- the stream parser

  datatype Parsed = Parsed(packets: seq<seq<byte>>, rest: seq<byte>)

  /** A header with an impossible size is skipped, and only the header. */
  function Parse(s: seq<byte>): (p: Parsed) {
    if |s| < PKG_HDR_SIZE then Parsed([], s)
    else
      var n := PkgSize(s);
      if WrongSize(n) then Parse(s[PKG_HDR_SIZE..])
      else if |s| < n then Parsed([], s)
      else var p := Parse(s[n..]); Parsed([s[..n]] + p.packets, p.rest)
  }

  function Then(p: Parsed, q: Parsed): (r: Parsed) { Parsed(p.packets + q.packets, q.rest) }

  lemma ThenCons(packet: seq<byte>, p: Parsed, q: Parsed)
    ensures [packet] + Then(p, q).packets == Then(Parsed([packet] + p.packets, p.rest), q).packets
  {
  }

  /** Parsing can be suspended anywhere and resumed with what was left over. */
  lemma {:induction false} ParseAppend(s: seq<byte>, t: seq<byte>)
    ensures Parse(s + t) == Then(Parse(s), Parse(Parse(s).rest + t))
    decreases |s|
  {
    if |s| >= PKG_HDR_SIZE {
      var n := PkgSize(s);
      assert PkgSize(s + t) == n by { assert (s + t)[..2] == s[..2]; }
      if WrongSize(n) {
        ParseAppend(s[PKG_HDR_SIZE..], t);
        assert (s + t)[PKG_HDR_SIZE..] == s[PKG_HDR_SIZE..] + t;
      } else if |s| >= n {
        ParseAppendPacket(s, t);
        ParseAppend(s[n..], t);
        ThenCons(s[..n], Parse(s[n..]), Parse(Parse(s[n..]).rest + t));
      }
    }
  }

  lemma ParseAppendPacket(s: seq<byte>, t: seq<byte>)
    requires |s| >= PKG_HDR_SIZE && !WrongSize(PkgSize(s)) && |s| >= PkgSize(s)
    ensures var n := PkgSize(s); Parse(s + t) == Then(Parsed([s[..n]], []), Parse(s[n..] + t))
  {
    var n := PkgSize(s);
    assert PkgSize(s + t) == n by { assert (s + t)[..2] == s[..2]; }
    assert (s + t)[n..] == s[n..] + t && (s + t)[..n] == s[..n];
  }

  /** Every packet that comes out has the size its header says, within the limits. */
  lemma {:induction false} ParsePackets(s: seq<byte>, i: nat)
    requires i < |Parse(s).packets|
    ensures var k := Parse(s).packets[i];
            |k| >= PKG_HDR_SIZE && PkgSize(k) == |k| && !WrongSize(|k|)
    decreases |s|
  {
    var n := PkgSize(s);
    if WrongSize(n) {
      ParsePackets(s[PKG_HDR_SIZE..], i);
    } else if i == 0 {
      assert s[..n][..2] == s[..2];
    } else {
      ParsePackets(s[n..], i - 1);
    }
  }

  // ---------------------------------------------------------------- the receiving machine

  datatype RecvStat = HdrStart | HdrReceiving | BodyStart | BodyReceiving

  /** A received packet with the generation it was stamped with. */
  datatype Msg = Msg(seqNo: nat, packet: seq<byte>)

  /** buf holds the bytes of the current packet received so far, need is rest_recv_size. */
  datatype Rx = Rx(stat: RecvStat, buf: seq<byte>, need: nat, stamp: nat)

  datatype Step = Step(rx: Rx, out: seq<Msg>)

  const IDLE: Rx := Rx(HdrStart, [], PKG_HDR_SIZE, 0)

  /** read_request_handler_process_v2 */
  function PacketDone(packet: seq<byte>, stamp: nat): (r: Step) { Step(IDLE, [Msg(stamp, packet)]) }

  /** read_request_handler_process_v1 */
  function HeaderDone(hdr: seq<byte>, seqNo: nat): (r: Step)
    requires |hdr| == PKG_HDR_SIZE
  {
    var n := PkgSize(hdr);
    if WrongSize(n) then Step(IDLE, [])
    else if n == PKG_HDR_SIZE then PacketDone(hdr, seqNo)
    else Step(Rx(BodyStart, hdr, n - PKG_HDR_SIZE, seqNo), [])
  }

  /** _read_request_handler, for a recv that returned the given bytes. */
  function Recv(rx: Rx, data: seq<byte>, seqNo: nat): (r: Step)
    requires WellFormed(rx) && 1 <= |data| <= rx.need
  {
    var buf := rx.buf + data;
    match rx.stat
    case HdrStart =>
      if |data| == PKG_HDR_SIZE then HeaderDone(buf, seqNo)
      else Step(Rx(HdrReceiving, buf, rx.need - |data|, rx.stamp), [])
    case HdrReceiving =>
      if |data| == rx.need then HeaderDone(buf, seqNo)
      else Step(Rx(HdrReceiving, buf, rx.need - |data|, rx.stamp), [])
    case BodyStart =>
      if |data| == rx.need then PacketDone(buf, rx.stamp)
      else Step(Rx(BodyReceiving, buf, rx.need - |data|, rx.stamp), [])
    case BodyReceiving =>
      if |data| == rx.need then PacketDone(buf, rx.stamp)
      else Step(Rx(BodyReceiving, buf, rx.need - |data|, rx.stamp), [])
  }

  /** What the state, the cursor and the byte count have to do with each other. */
  ghost predicate WellFormed(rx: Rx) {
    && rx.need > 0
    && match rx.stat
       case HdrStart => rx.buf == [] && rx.need == PKG_HDR_SIZE
       case HdrReceiving => 0 < |rx.buf| && |rx.buf| + rx.need == PKG_HDR_SIZE
       case BodyStart =>
         |rx.buf| == PKG_HDR_SIZE && |rx.buf| + rx.need == PkgSize(rx.buf) && !WrongSize(PkgSize(rx.buf))
       case BodyReceiving =>
         |rx.buf| > PKG_HDR_SIZE && |rx.buf| + rx.need == PkgSize(rx.buf) && !WrongSize(PkgSize(rx.buf))
  }

  function Packets(out: seq<Msg>): (r: seq<seq<byte>>)
    ensures |r| == |out|
  {
    seq(|out|, i requires 0 <= i < |out| => out[i].packet)
  }

  lemma HeaderParses(hdr: seq<byte>, seqNo: nat)
    requires |hdr| == PKG_HDR_SIZE
    ensures var r := HeaderDone(hdr, seqNo); WellFormed(r.rx) && Parse(hdr) == Parsed(Packets(r.out), r.rx.buf)
  {
    assert Parse([]) == Parsed([], []);
    assert hdr[PKG_HDR_SIZE..] == [] && hdr[..PKG_HDR_SIZE] == hdr;
    assert Packets([Msg(seqNo, hdr)]) == [hdr];
  }

  lemma BodyParses(buf: seq<byte>, stamp: nat)
    requires |buf| > PKG_HDR_SIZE && !WrongSize(PkgSize(buf)) && |buf| <= PkgSize(buf)
    ensures Parse(buf) == if |buf| == PkgSize(buf) then Parsed(Packets(PacketDone(buf, stamp).out), []) else Parsed([], buf)
  {
    if |buf| == PkgSize(buf) {
      assert Parse([]) == Parsed([], []);
      assert buf[|buf|..] == [] && buf[..|buf|] == buf;
      assert Packets([Msg(stamp, buf)]) == [buf];
    }
  }

  /** One recv does to the bytes held back exactly what the parser does. */
  lemma RecvParses(rx: Rx, data: seq<byte>, seqNo: nat)
    requires WellFormed(rx) && 1 <= |data| <= rx.need
    ensures var r := Recv(rx, data, seqNo);
            && WellFormed(r.rx)
            && Parse(rx.buf + data) == Parsed(Packets(r.out), r.rx.buf)
  {
    var buf := rx.buf + data;
    if rx.stat.HdrStart? || rx.stat.HdrReceiving? {
      if |data| == rx.need {
        HeaderParses(buf, seqNo);
      }
    } else {
      assert PkgSize(buf) == PkgSize(rx.buf) by { assert buf[..2] == rx.buf[..2]; }
      BodyParses(buf, rx.stamp);
    }
  }

  /** A legal sequence of recv results: each delivers between one byte and rest_recv_size. */
  ghost predicate Legal(rx: Rx, chunks: seq<seq<byte>>, seqNo: nat)
    requires WellFormed(rx)
    decreases |chunks|
  {
    chunks == [] ||
    (&& 1 <= |chunks[0]| <= rx.need
     && (RecvParses(rx, chunks[0], seqNo); Legal(Recv(rx, chunks[0], seqNo).rx, chunks[1..], seqNo)))
  }

  function Flatten(chunks: seq<seq<byte>>): (s: seq<byte>) {
    if chunks == [] then [] else chunks[0] + Flatten(chunks[1..])
  }

  /** The machine over a whole sequence of recv results in one generation. */
  ghost function Run(rx: Rx, chunks: seq<seq<byte>>, seqNo: nat): (r: Step)
    requires WellFormed(rx) && Legal(rx, chunks, seqNo)
    decreases |chunks|
  {
    if chunks == [] then Step(rx, [])
    else
      RecvParses(rx, chunks[0], seqNo);
      var first := Recv(rx, chunks[0], seqNo);
      var more := Run(first.rx, chunks[1..], seqNo);
      Step(more.rx, first.out + more.out)
  }

  /** A packet begun before, if there is one, carries the stamp n. */
  predicate StampedWith(rx: Rx, n: nat) { rx.stat.HdrStart? || rx.stat.HdrReceiving? || rx.stamp == n }

  /** Every message of a run carries the generation in which the run took place. */
  lemma {:induction false} RunStamps(rx: Rx, chunks: seq<seq<byte>>, seqNo: nat)
    requires WellFormed(rx) && Legal(rx, chunks, seqNo) && StampedWith(rx, seqNo)
    ensures var r := Run(rx, chunks, seqNo);
            StampedWith(r.rx, seqNo) && forall i :: 0 <= i < |r.out| ==> r.out[i].seqNo == seqNo
    decreases |chunks|
  {
    if chunks != [] {
      RecvParses(rx, chunks[0], seqNo);
      RunStamps(Recv(rx, chunks[0], seqNo).rx, chunks[1..], seqNo);
    }
  }

  lemma {:induction false} ChunksParse(rx: Rx, chunks: seq<seq<byte>>, seqNo: nat)
    requires WellFormed(rx) && Legal(rx, chunks, seqNo)
    ensures var r := Run(rx, chunks, seqNo);
            && WellFormed(r.rx)
            && Parse(rx.buf + Flatten(chunks)) == Parsed(Packets(r.out), r.rx.buf)
    decreases |chunks|
  {
    if chunks == [] {
      assert rx.buf + [] == rx.buf;
      HeldBack(rx);
    } else {
      var head, tail := chunks[0], chunks[1..];
      RecvParses(rx, head, seqNo);
      var first := Recv(rx, head, seqNo);
      ChunksParse(first.rx, tail, seqNo);
      Resumed(rx.buf, head, Flatten(tail), first.rx.buf, first.out, Run(first.rx, tail, seqNo));
    }
  }

  /** Chunking independence: however the stream is cut into recv results, the packets
      delivered and the bytes held back are those of the parser on the whole stream, and
      every packet is stamped with the generation of the connection. */
  lemma ChunkingIndependence(rx: Rx, chunks: seq<seq<byte>>, seqNo: nat)
    requires WellFormed(rx) && Legal(rx, chunks, seqNo)
    ensures var r := Run(rx, chunks, seqNo);
            && WellFormed(r.rx)
            && Parse(rx.buf + Flatten(chunks)) == Parsed(Packets(r.out), r.rx.buf)
            && (StampedWith(rx, seqNo) ==> forall i :: 0 <= i < |r.out| ==> r.out[i].seqNo == seqNo)
  {
    ChunksParse(rx, chunks, seqNo);
    if StampedWith(rx, seqNo) {
      RunStamps(rx, chunks, seqNo);
    }
  }

  /** One chunk more in front. */
  lemma Resumed(held: seq<byte>, head: seq<byte>, rest: seq<byte>, left: seq<byte>, out: seq<Msg>, more: Step)
    requires Parse(held + head) == Parsed(Packets(out), left)
    requires Parse(left + rest) == Parsed(Packets(more.out), more.rx.buf)
    ensures Parse(held + (head + rest)) == Parsed(Packets(out + more.out), more.rx.buf)
  {
    ParseAppend(held + head, rest);
    assert held + head + rest == held + (head + rest);
    PacketsAppend(out, more.out);
  }

  lemma PacketsAppend(a: seq<Msg>, b: seq<Msg>)
    ensures Packets(a + b) == Packets(a) + Packets(b)
  {
  }

  /** A well-formed state holds back no complete packet and no wrong header. */
  lemma HeldBack(rx: Rx)
    requires WellFormed(rx)
    ensures Parse(rx.buf) == Parsed([], rx.buf)
  {
  }

  /** Two ways of cutting the same stream cannot be told apart afterwards. */
  lemma CutsAgree(a: seq<seq<byte>>, b: seq<seq<byte>>, seqNo: nat)
    requires Legal(IDLE, a, seqNo) && Legal(IDLE, b, seqNo) && Flatten(a) == Flatten(b)
    ensures var ra := Run(IDLE, a, seqNo); var rb := Run(IDLE, b, seqNo);
            Packets(ra.out) == Packets(rb.out) && ra.rx.buf == rb.rx.buf && ra.rx.need == rb.rx.need
  {
    ChunkingIndependence(IDLE, a, seqNo);
    ChunkingIndependence(IDLE, b, seqNo);
  }

  // ---------------------------------------------------------------- the machine in place

  /** What recv_process reports. */
  datatype RecvResult = Data(bytes: seq<byte>) | Shutdown | TryAgain | Failed

  datatype Fate = Keep | Recycle | Close

  /** The receiving half of mgx_conn_t.  precv_buf is the pair (inHeader, pos); the packet
      part of precv_mem_addr is mem and its message header is memSeq. */
  class Connection {
    var curSeq: nat
    var recvStat: RecvStat
    const hdrBuf: array<byte>
    var inHeader: bool
    var pos: nat
    var restRecvSize: nat
    var mem: array?<byte>
    var memSeq: nat
    var poolQueue: seq<Msg>   // what has been handed to the thread pool, in order
    ghost var allocs: nat     // packet buffers allocated
    ghost var releases: nat   // packet buffers deleted by this connection

    /** Every buffer ever allocated has one owner: it was handed to the pool, or deleted
        here, or is the one precv_mem_addr points to. */
    ghost predicate Accounted()
      reads this
    {
      allocs == |poolQueue| + releases + if mem == null then 0 else 1
    }

    /** A connection that lies in the free queue. */
    ghost predicate Parked()
      reads this
    {
      hdrBuf.Length == PKG_HDR_BUF_SIZE && mem == null && Accounted()
    }

    ghost predicate Valid()
      reads this, hdrBuf, mem
    {
      && Accounted()
      && hdrBuf.Length == PKG_HDR_BUF_SIZE
      && hdrBuf != mem
      && pos <= (if inHeader then PKG_HDR_SIZE else if mem == null then 0 else mem.Length)
      && (inHeader <==> mem == null)
      && (inHeader <==> recvStat.HdrStart? || recvStat.HdrReceiving?)
      && (mem != null ==> pos + restRecvSize == mem.Length)
      && WellFormed(View())
    }

    /** The state as the machine function sees it. */
    ghost function View(): (rx: Rx)
      reads this, hdrBuf, mem
      requires hdrBuf.Length == PKG_HDR_BUF_SIZE
      requires pos <= (if inHeader then PKG_HDR_SIZE else if mem == null then 0 else mem.Length)
    {
      Rx(recvStat,
         if inHeader then hdrBuf[..pos] else if mem == null then [] else mem[..pos],
         restRecvSize,
         if mem == null then 0 else memSeq)
    }

    constructor ()
      ensures Parked() && poolQueue == [] && fresh(hdrBuf)
    {
      hdrBuf := new byte[PKG_HDR_BUF_SIZE];
      curSeq, memSeq := 0, 0;
      recvStat, inHeader, pos, restRecvSize, mem := HdrStart, true, 0, PKG_HDR_SIZE, null;
      poolQueue, allocs, releases := [], 0, 0;
    }

    /** get_one_to_use: whatever partial packet went before, the next byte starts a header. */
    method GetOneToUse()
      requires Parked()
      modifies this
      ensures Valid() && View() == IDLE
      ensures curSeq == old(curSeq) + 1 && poolQueue == old(poolQueue) && allocs == old(allocs)
    {
      curSeq := curSeq + 1;
      recvStat, inHeader, pos, restRecvSize, mem := HdrStart, true, 0, PKG_HDR_SIZE, null;
    }

    /** put_one_to_free: the partial packet, if any, is deleted; nothing else is. */
    method PutOneToFree()
      requires Valid()
      modifies this
      ensures Parked()
      ensures curSeq == old(curSeq) + 1 && poolQueue == old(poolQueue) && allocs == old(allocs)
      ensures releases == old(releases) + if old(recvStat.BodyStart? || recvStat.BodyReceiving?) then 1 else 0
    {
      curSeq := curSeq + 1;
      if mem != null {
        releases := releases + 1;
        mem := null;
      }
    }

    /** read_request_handler_process_v2 */
    method ProcessPacket()
      requires mem != null && hdrBuf.Length == PKG_HDR_BUF_SIZE && Accounted()
      modifies this
      ensures Valid() && allocs == old(allocs) && releases == old(releases) && curSeq == old(curSeq)
      ensures mem == null
      ensures Step(View(), poolQueue) == Step(IDLE, old(poolQueue) + PacketDone(old(mem[..]), old(memSeq)).out)
    {
      poolQueue := poolQueue + [Msg(memSeq, mem[..])];
      recvStat, inHeader, pos, restRecvSize, mem := HdrStart, true, 0, PKG_HDR_SIZE, null;
    }

    /** read_request_handler_process_v1 */
    method ProcessHeader()
      requires hdrBuf.Length == PKG_HDR_BUF_SIZE && mem == null && Accounted()
      modifies this
      ensures Valid() && releases == old(releases) && curSeq == old(curSeq)
      ensures mem == null || fresh(mem)
      ensures var r := HeaderDone(old(hdrBuf[..PKG_HDR_SIZE]), curSeq);
              View() == r.rx && poolQueue == old(poolQueue) + r.out
    {
      var n := hdrBuf[0] as nat + 256 * hdrBuf[1] as nat;
      ghost var hdr := hdrBuf[..PKG_HDR_SIZE];
      assert hdr[..2] == [hdrBuf[0], hdrBuf[1]];
      if WrongSize(n) {
        recvStat, inHeader, pos, restRecvSize, mem := HdrStart, true, 0, PKG_HDR_SIZE, null;
      } else {
        mem := new byte[n];
        memSeq, allocs := curSeq, allocs + 1;
        for i := 0 to PKG_HDR_SIZE
          invariant mem != null && mem.Length == n && fresh(mem)
          invariant mem[..i] == hdrBuf[..i] && hdrBuf[..PKG_HDR_SIZE] == hdr
          modifies mem
        {
          mem[i] := hdrBuf[i];
        }
        if n == PKG_HDR_SIZE {
          assert mem[..] == hdr;
          ProcessPacket();
        } else {
          recvStat, inHeader, pos, restRecvSize := BodyStart, false, PKG_HDR_SIZE, n - PKG_HDR_SIZE;
        }
      }
    }

    /** The bytes recv writes at precv_buf; every one lands inside the buffer. */
    method Store(data: seq<byte>)
      requires Valid() && |data| <= restRecvSize
      modifies hdrBuf, mem
      ensures inHeader ==> hdrBuf[..pos + |data|] == old(View().buf) + data
      ensures !inHeader ==> mem[..pos + |data|] == old(View().buf) + data
    {
      var target := if inHeader then hdrBuf else mem;
      ghost var before := target[..pos];
      for i := 0 to |data|
        invariant pos + |data| <= target.Length
        invariant target[..pos + i] == before + data[..i]
        modifies target
      {
        target[pos + i] := data[i];
      }
      assert data[..|data|] == data;
    }

    /** The two header cases of _read_request_handler. */
    method HeaderBytes(data: seq<byte>)
      requires Valid() && inHeader && 1 <= |data| <= restRecvSize
      modifies this, hdrBuf
      ensures Valid() && releases == old(releases) && curSeq == old(curSeq)
      ensures mem == null || mem == old(mem) || fresh(mem)
      ensures var r := Recv(old(View()), data, curSeq); View() == r.rx && poolQueue == old(poolQueue) + r.out
    {
      Store(data);
      if recvStat.HdrStart? {
        if |data| == PKG_HDR_SIZE {
          ProcessHeader();
        } else {
          recvStat := HdrReceiving;
          pos, restRecvSize := pos + |data|, restRecvSize - |data|;
        }
      } else {
        if |data| == restRecvSize {
          ProcessHeader();
        } else {
          pos, restRecvSize := pos + |data|, restRecvSize - |data|;
        }
      }
    }

    /** The two body cases. */
    method BodyBytes(data: seq<byte>)
      requires Valid() && !inHeader && 1 <= |data| <= restRecvSize
      modifies this, hdrBuf, mem
      ensures Valid() && releases == old(releases) && curSeq == old(curSeq)
      ensures mem == null || mem == old(mem) || fresh(mem)
      ensures var r := Recv(old(View()), data, curSeq); View() == r.rx && poolQueue == old(poolQueue) + r.out
    {
      Store(data);
      if |data| == restRecvSize {
        assert mem[..] == mem[..pos + |data|];
        ProcessPacket();
      } else {
        assert mem[..pos + |data|][..2] == old(View().buf)[..2];
        recvStat := BodyReceiving;
        pos, restRecvSize := pos + |data|, restRecvSize - |data|;
      }
    }

    /** _read_request_handler: one readiness event, whatever recv returns. */
    method ReadRequest(result: RecvResult) returns (fate: Fate)
      requires Valid()
      requires result.Data? ==> 1 <= |result.bytes| <= restRecvSize
      modifies this, hdrBuf, mem
      ensures Valid() && releases == old(releases) && curSeq == old(curSeq)
      ensures mem == null || mem == old(mem) || fresh(mem)
      ensures !result.Data? ==> View() == old(View()) && poolQueue == old(poolQueue)
      ensures result.Data? ==>
                var r := Recv(old(View()), result.bytes, curSeq);
                View() == r.rx && poolQueue == old(poolQueue) + r.out
      ensures fate == (match result case Shutdown => Recycle case Failed => Close case _ => Keep)
    {
      fate := match result case Shutdown => Recycle case Failed => Close case _ => Keep;
      if result.Data? {
        if recvStat.HdrStart? || recvStat.HdrReceiving? {
          HeaderBytes(result.bytes);
        } else {
          BodyBytes(result.bytes);
        }
      }
    }
  }
}
