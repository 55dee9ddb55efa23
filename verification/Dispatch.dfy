/**
 Packets as peers build them and as the worker threads check them:
 bussiness/mgx_logic_socket.cpp on top of the framing and the CRC.
 */
module Dispatch {
  import opened Bytes
  import opened Crc32
  import opened Framing

  datatype Packet = Packet(kind: nat, body: seq<byte>)

  ghost predicate Encodable(p: Packet) {
    p.kind < 0x1_0000 && PKG_HDR_SIZE + |p.body| < 0x1_0000
  }

  /** The receiver takes packets only up to this size. */
  ghost predicate Acceptable(p: Packet) {
    p.kind < 0x1_0000 && PKG_HDR_SIZE + |p.body| <= PKG_MAX_SIZE - 1000
  }

  function CrcField(body: seq<byte>): (s: seq<byte>)
    ensures |s| == 4
  {
    LittleEndian32(if body == [] then ZERO else Register(INIT, body))
  }

  /** The packet builders of send_msg_with_nobody and register_handler. */
  function Encode(p: Packet): (s: seq<byte>)
    requires Encodable(p)
    ensures |s| == PKG_HDR_SIZE + |p.body|
  {
    LittleEndian16(PKG_HDR_SIZE + |p.body|) + LittleEndian16(p.kind) + CrcField(p.body) + p.body
  }

  // ---------------------------------------------------------------- the worker's checks

  datatype Verdict = NoBodyCrc | CrcError | Stale | BadType | NullHandler
                   | Handled(kind: nat, body: seq<byte>)

  const PKG_HANDLERS_CNT: nat := 4   // ping, register, login, nullptr

  ghost predicate IsPacket(s: seq<byte>) {
    |s| >= PKG_HDR_SIZE && PkgSize(s) == |s|
  }

  /** The crc32 field of a header, as a word. */
  function HeaderCrc(s: seq<byte>): (w: Word)
    requires |s| >= PKG_HDR_SIZE
  {
    Bits(s[4..8])
  }

  function PkgType(s: seq<byte>): (n: nat)
    requires |s| >= PKG_HDR_SIZE
  {
    Nat16(s[2..4])
  }

  function Body(s: seq<byte>): (b: seq<byte>)
    requires |s| >= PKG_HDR_SIZE
  {
    s[PKG_HDR_SIZE..]
  }

  /** th_msg_process_func, for a message of a connection whose counter is now curSeq. */
  function Judge(m: Msg, curSeq: nat): (v: Verdict)
    requires |m.packet| >= PKG_HDR_SIZE
  {
    if PkgSize(m.packet) == PKG_HDR_SIZE && HeaderCrc(m.packet) != ZERO then NoBodyCrc
    else if PkgSize(m.packet) != PKG_HDR_SIZE && Register(INIT, Body(m.packet)) != HeaderCrc(m.packet) then CrcError
    else if curSeq != m.seqNo then Stale
    else if PkgType(m.packet) >= PKG_HANDLERS_CNT then BadType
    else if PkgType(m.packet) == 3 then NullHandler
    else Handled(PkgType(m.packet), Body(m.packet))
  }

  /** The same as the source runs it, with the CRC object. */
  method ThMsgProcess(crc: Crc, m: Msg, curSeq: nat) returns (v: Verdict)
    requires crc.Valid() && IsPacket(m.packet)
    ensures v == Judge(m, curSeq)
  {
    var s := m.packet;
    var size := s[0] as nat + 256 * s[1] as nat;
    assert s[..2] == [s[0], s[1]];
    var body := [];
    if size == PKG_HDR_SIZE {
      if Bits(s[4..8]) != ZERO {
        return NoBodyCrc;
      }
    } else {
      body := s[PKG_HDR_SIZE..size];
      assert body == s[PKG_HDR_SIZE..];
      var crc32 := crc.GetCrc32(body);
      if crc32 != Bits(s[4..8]) {
        return CrcError;
      }
    }
    if curSeq != m.seqNo {
      return Stale;
    }
    var kind := s[2] as nat + 256 * s[3] as nat;
    assert s[2..4] == [s[2], s[3]];
    if kind >= PKG_HANDLERS_CNT {
      return BadType;
    }
    if kind == 3 {
      return NullHandler;
    }
    return Handled(kind, body);
  }

  lemma FieldsAt(a: seq<byte>, b: seq<byte>, c: seq<byte>, d: seq<byte>, s: seq<byte>)
    requires |a| == 2 && |b| == 2 && |c| == 4 && s == a + b + c + d
    ensures s[..2] == a && s[2..4] == b && s[4..8] == c && s[8..] == d
  {
  }

  lemma EncodeFields(p: Packet)
    requires Encodable(p)
    ensures var s := Encode(p);
            && IsPacket(s)
            && PkgType(s) == p.kind
            && HeaderCrc(s) == (if p.body == [] then ZERO else Register(INIT, p.body))
            && Body(s) == p.body
  {
    FieldsAt(LittleEndian16(PKG_HDR_SIZE + |p.body|), LittleEndian16(p.kind), CrcField(p.body), p.body, Encode(p));
  }

  /** The verdict on a packet whose CRC field is right. */
  lemma JudgeOf(m: Msg, curSeq: nat, kind: nat, body: seq<byte>)
    requires IsPacket(m.packet) && PkgType(m.packet) == kind && Body(m.packet) == body
    requires HeaderCrc(m.packet) == if body == [] then ZERO else Register(INIT, body)
    ensures Judge(m, curSeq) == if curSeq != m.seqNo then Stale else if kind >= PKG_HANDLERS_CNT then BadType
                                else if kind == 3 then NullHandler else Handled(kind, body)
  {
    assert |body| == |m.packet| - PKG_HDR_SIZE;
  }

  /** A packet built by a peer passes the integrity check, so only its generation and its
      kind decide; with a current stamp and a known kind the handler gets kind and body. */
  lemma EncodedIsHandled(p: Packet, stamp: nat, curSeq: nat)
    requires Encodable(p)
    ensures var v := Judge(Msg(stamp, Encode(p)), curSeq);
            && v != NoBodyCrc && v != CrcError
            && (v.Handled? <==> stamp == curSeq && p.kind < 3)
            && (v.Handled? ==> v == Handled(p.kind, p.body))
  {
    EncodeFields(p);
    JudgeOf(Msg(stamp, Encode(p)), curSeq, p.kind, p.body);
  }

  /** s is laid out, byte by byte, as a packet of this kind, CRC and body. */
  ghost predicate LaidOut(s: seq<byte>, kind: nat, crc: Word, body: seq<byte>) {
    && |s| == 8 + |body|
    && s[0] as nat + 256 * s[1] as nat == |s|
    && s[2] as nat + 256 * s[3] as nat == kind
    && Bits(s[4..8]) == crc
    && s[8..] == body
  }

  lemma Layout(s: seq<byte>)
    requires IsPacket(s)
    ensures LaidOut(s, PkgType(s), HeaderCrc(s), Body(s))
  {
    assert s[..2] == [s[0], s[1]] && s[2..4] == [s[2], s[3]];
  }

  lemma WireFormat(p: Packet)
    requires Encodable(p)
    ensures LaidOut(Encode(p), p.kind, if p.body == [] then ZERO else Register(INIT, p.body), p.body)
  {
    EncodeFields(p);
    Layout(Encode(p));
  }

  /** The CRC field says what it should say. */
  predicate Intact(s: seq<byte>)
    requires |s| >= PKG_HDR_SIZE
  {
    HeaderCrc(s) == if Body(s) == [] then ZERO else Register(INIT, Body(s))
  }

  lemma IntactIsEncoded(s: seq<byte>)
    requires IsPacket(s) && Intact(s)
    ensures Encodable(Packet(PkgType(s), Body(s))) && s == Encode(Packet(PkgType(s), Body(s)))
  {
    FourFields(s);
    RightFields(s);
  }

  /** Each field is the one that would be stored. */
  lemma RightFields(s: seq<byte>)
    requires IsPacket(s) && Intact(s)
    ensures PKG_HDR_SIZE + |Body(s)| < 0x1_0000 && s[..2] == LittleEndian16(PKG_HDR_SIZE + |Body(s)|)
    ensures s[2..4] == LittleEndian16(PkgType(s)) && s[4..8] == CrcField(Body(s))
  {
    StoredAgain(s[..2]);
    StoredAgain(s[2..4]);
    BitsInjective(s[4..8], CrcField(Body(s)));
  }

  lemma StoredAgain(s: seq<byte>)
    requires |s| == 2
    ensures LittleEndian16(Nat16(s)) == s
  {
  }

  lemma FourFields(s: seq<byte>)
    requires |s| >= PKG_HDR_SIZE
    ensures s == s[..2] + s[2..4] + s[4..8] + s[8..]
  {
  }

  lemma EncodedIsIntact(s: seq<byte>, p: Packet)
    requires Encodable(p) && s == Encode(p)
    ensures IsPacket(s) && Intact(s) && p == Packet(PkgType(s), Body(s))
  {
    EncodeFields(p);
  }

  lemma JudgeIntegrity(m: Msg, curSeq: nat)
    requires IsPacket(m.packet)
    ensures var v := Judge(m, curSeq);
            if Intact(m.packet) then v != NoBodyCrc && v != CrcError
            else v == if |m.packet| == PKG_HDR_SIZE then NoBodyCrc else CrcError
  {
    assert |Body(m.packet)| == |m.packet| - PKG_HDR_SIZE;
  }

  /** The integrity check is exact: it lets through what some packet encodes to, and nothing else. */
  lemma IntegrityExact(m: Msg, curSeq: nat)
    requires IsPacket(m.packet)
    ensures var v := Judge(m, curSeq);
            && ((exists p :: Encodable(p) && m.packet == Encode(p)) <==> v != NoBodyCrc && v != CrcError)
            && (v == NoBodyCrc ==> |m.packet| == PKG_HDR_SIZE)
            && (v == CrcError ==> |m.packet| > PKG_HDR_SIZE)
  {
    JudgeIntegrity(m, curSeq);
    if Intact(m.packet) {
      IntactIsEncoded(m.packet);
    }
    if p :| Encodable(p) && m.packet == Encode(p) {
      EncodedIsIntact(m.packet, p);
    }
  }

  /** A packet reaches a handler if and only if its stamp is current and it is, byte for
      byte, the encoding of a packet with one of the three known kinds; and the handler gets
      the kind and the body of that packet. */
  lemma HandledExactly(m: Msg, curSeq: nat)
    requires IsPacket(m.packet)
    ensures var v := Judge(m, curSeq);
            && (v.Handled? <==> m.seqNo == curSeq && exists p :: Encodable(p) && p.kind < 3 && m.packet == Encode(p))
            && forall p :: Encodable(p) && m.packet == Encode(p) && v.Handled? ==> v == Handled(p.kind, p.body)
  {
    if Intact(m.packet) {
      IntactIsEncoded(m.packet);
    }
    JudgeIntact(m, curSeq);
    forall p | Encodable(p) && m.packet == Encode(p) ensures Intact(m.packet) && p == Packet(PkgType(m.packet), Body(m.packet)) {
      EncodedIsIntact(m.packet, p);
    }
  }

  lemma JudgeIntact(m: Msg, curSeq: nat)
    requires IsPacket(m.packet)
    ensures var v := Judge(m, curSeq);
            && (v.Handled? <==> Intact(m.packet) && m.seqNo == curSeq && PkgType(m.packet) < 3)
            && (v.Handled? ==> v == Handled(PkgType(m.packet), Body(m.packet)))
  {
    JudgeIntegrity(m, curSeq);
    if Intact(m.packet) {
      JudgeOf(m, curSeq, PkgType(m.packet), Body(m.packet));
    }
  }

  /** The packet with its CRC field replaced. */
  function Recrc(p: Packet, crc: seq<byte>): (s: seq<byte>)
    requires Encodable(p) && |crc| == 4
    ensures |s| == PKG_HDR_SIZE + |p.body|
  {
    Encode(p)[..4] + crc + p.body
  }

  /** An altered CRC field alone is found out, also on a packet without a body. */
  lemma AlteredCrcIsRejected(p: Packet, crc: seq<byte>, stamp: nat, curSeq: nat)
    requires Encodable(p) && |crc| == 4 && crc != CrcField(p.body)
    ensures IsPacket(Recrc(p, crc))
    ensures Judge(Msg(stamp, Recrc(p, crc)), curSeq) == if p.body == [] then NoBodyCrc else CrcError
  {
    EncodeFields(p);
    var s, t := Encode(p), Recrc(p, crc);
    assert t[..2] == s[..2] && t[4..8] == crc && t[PKG_HDR_SIZE..] == p.body;
    if Bits(crc) == Bits(CrcField(p.body)) {
      BitsInjective(crc, CrcField(p.body));
    }
    JudgeIntegrity(Msg(stamp, t), curSeq);
  }

  /** The packet with its body replaced and its header left alone. */
  function Tamper(p: Packet, body: seq<byte>): (s: seq<byte>)
    requires Encodable(p) && |body| == |p.body|
    ensures |s| == PKG_HDR_SIZE + |p.body|
  {
    Encode(p)[..PKG_HDR_SIZE] + body
  }

  /** An altered body whose changes lie within 32 consecutive bits reaches no handler. */
  lemma TamperedIsRejected(p: Packet, body: seq<byte>, k: nat, stamp: nat, curSeq: nat)
    requires Encodable(p) && body != p.body && DifferWithin(p.body, body, k)
    ensures IsPacket(Tamper(p, body))
    ensures Judge(Msg(stamp, Tamper(p, body)), curSeq) == CrcError
  {
    EncodeFields(p);
    var s, t := Encode(p), Tamper(p, body);
    assert t[..2] == s[..2] && t[4..8] == s[4..8] && t[PKG_HDR_SIZE..] == body;
    BurstDetected(INIT, p.body, body, k);
  }

  // ---------------------------------------------------------------- end to end

  ghost predicate AllPackets(packets: seq<seq<byte>>) {
    forall i :: 0 <= i < |packets| ==> IsPacket(packets[i]) && !WrongSize(|packets[i]|)
  }

  /** A stream that is nothing but acceptable packets is cut back into exactly them. */
  lemma {:induction false} ParseFlatten(packets: seq<seq<byte>>)
    requires AllPackets(packets)
    ensures Parse(Flatten(packets)) == Parsed(packets, [])
  {
    if packets != [] {
      var p, rest := packets[0], packets[1..];
      ParseFlatten(rest);
      assert IsPacket(p);
      assert PkgSize(p + Flatten(rest)) == |p| by { assert (p + Flatten(rest))[..2] == p[..2]; }
      assert (p + Flatten(rest))[..|p|] == p && (p + Flatten(rest))[|p|..] == Flatten(rest);
    }
  }

  /** However it is cut, the stream of these packets is delivered as these packets, stamped
      with the generation of the connection. */
  lemma Arrives(packets: seq<seq<byte>>, chunks: seq<seq<byte>>, seqNo: nat)
    requires AllPackets(packets) && Legal(IDLE, chunks, seqNo) && Flatten(chunks) == Flatten(packets)
    ensures var r := Run(IDLE, chunks, seqNo);
            && Packets(r.out) == packets && r.rx.stat.HdrStart?
            && forall i :: 0 <= i < |r.out| ==> r.out[i].seqNo == seqNo
  {
    ParseFlatten(packets);
    ChunkingIndependence(IDLE, chunks, seqNo);
    assert IDLE.buf + Flatten(chunks) == Flatten(chunks);
  }

  ghost predicate AllAcceptable(ps: seq<Packet>) {
    forall i :: 0 <= i < |ps| ==> Acceptable(ps[i])
  }

  function EncodeAll(ps: seq<Packet>): (r: seq<seq<byte>>)
    requires AllAcceptable(ps)
    ensures |r| == |ps|
  {
    if ps == [] then [] else
      assert Acceptable(ps[0]);
      [Encode(ps[0])] + EncodeAll(ps[1..])
  }

  /** s is what p looks like on the wire. */
  ghost predicate Encodes(s: seq<byte>, p: Packet) { Acceptable(p) && s == Encode(p) }

  lemma {:induction false} EncodeAllAt(ps: seq<Packet>, i: nat)
    requires AllAcceptable(ps) && i < |ps|
    ensures Encodes(EncodeAll(ps)[i], ps[i])
    decreases |ps|
  {
    assert Acceptable(ps[0]);
    if i > 0 {
      EncodeAllAt(ps[1..], i - 1);
    }
  }

  lemma EncodesPacket(s: seq<byte>, p: Packet)
    requires Encodes(s, p)
    ensures IsPacket(s) && |s| == PKG_HDR_SIZE + |p.body| && !WrongSize(|s|)
  {
    EncodeFields(p);
  }

  lemma EncodeAllPackets(ps: seq<Packet>)
    requires AllAcceptable(ps)
    ensures AllPackets(EncodeAll(ps))
  {
    var sent := EncodeAll(ps);
    forall i | 0 <= i < |sent| ensures IsPacket(sent[i]) && !WrongSize(|sent[i]|) {
      EncodeAllAt(ps, i);
      EncodesPacket(sent[i], ps[i]);
    }
  }

  /** m carries the packet p, and a worker that finds the counter at curSeq decides so. */
  ghost predicate Delivers(m: Msg, p: Packet, curSeq: nat)
    requires Acceptable(p)
  {
    && m.packet == Encode(p)
    && Judge(m, curSeq) == if p.kind < 3 then Handled(p.kind, p.body)
                           else if p.kind == 3 then NullHandler else BadType
  }

  lemma EncodedDelivers(m: Msg, p: Packet)
    requires Acceptable(p) && m.packet == Encode(p)
    ensures Delivers(m, p, m.seqNo)
  {
    EncodeFields(p);
    JudgeOf(m, m.seqNo, p.kind, p.body);
  }

  /** Any list of acceptable packets, cut into recv results in any way, arrives as the same
      list, leaves nothing behind, and reaches the handlers packet by packet while the
      connection's counter still has the value it had when they were received. */
  lemma EndToEnd(ps: seq<Packet>, chunks: seq<seq<byte>>, seqNo: nat)
    requires AllAcceptable(ps) && Legal(IDLE, chunks, seqNo)
    requires Flatten(chunks) == Flatten(EncodeAll(ps))
    ensures var r := Run(IDLE, chunks, seqNo);
            && r.rx.stat.HdrStart?
            && |r.out| == |ps|
            && forall i :: 0 <= i < |ps| ==> Delivers(r.out[i], ps[i], seqNo)
  {
    EncodeAllPackets(ps);
    Arrives(EncodeAll(ps), chunks, seqNo);
    var out := Run(IDLE, chunks, seqNo).out;
    forall i | 0 <= i < |ps| ensures Delivers(out[i], ps[i], seqNo) {
      EncodeAllAt(ps, i);
      PacketAt(out, EncodeAll(ps), i);
      EncodedDelivers(out[i], ps[i]);
    }
  }

  /** One packet replaced in transit by other bytes that frame alike: every other packet is
      delivered as sent, and these bytes arrive in its place. */
  lemma EndToEndReplaced(ps: seq<Packet>, j: nat, bytes: seq<byte>, chunks: seq<seq<byte>>, seqNo: nat)
    requires AllAcceptable(ps) && Legal(IDLE, chunks, seqNo) && j < |ps|
    requires IsPacket(bytes) && |bytes| == PKG_HDR_SIZE + |ps[j].body|
    requires Flatten(chunks) == Flatten(EncodeAll(ps)[j := bytes])
    ensures var r := Run(IDLE, chunks, seqNo);
            && |r.out| == |ps| && r.out[j].packet == bytes
            && forall i :: 0 <= i < |ps| && i != j ==> Delivers(r.out[i], ps[i], seqNo)
  {
    var sent := EncodeAll(ps);
    ReplacedPackets(ps, j, bytes, sent);
    Arrives(sent[j := bytes], chunks, seqNo);
    EncodeAllEncodes(ps, sent);
    AsSent(ps, j, bytes, sent, Run(IDLE, chunks, seqNo).out, seqNo);
  }

  lemma ReplacedPackets(ps: seq<Packet>, j: nat, bytes: seq<byte>, sent: seq<seq<byte>>)
    requires AllAcceptable(ps) && j < |ps| && sent == EncodeAll(ps)
    requires IsPacket(bytes) && |bytes| == PKG_HDR_SIZE + |ps[j].body|
    ensures AllPackets(sent[j := bytes])
  {
    EncodeAllPackets(ps);
    EncodeAllAt(ps, j);
    EncodesPacket(sent[j], ps[j]);
    StillPackets(sent, j, bytes);
  }

  lemma StillPackets(packets: seq<seq<byte>>, j: nat, bytes: seq<byte>)
    requires AllPackets(packets) && j < |packets| && IsPacket(bytes) && |bytes| == |packets[j]|
    ensures AllPackets(packets[j := bytes])
  {
  }

  ghost predicate AllEncode(sent: seq<seq<byte>>, ps: seq<Packet>) {
    |sent| == |ps| && forall i :: 0 <= i < |ps| ==> Encodes(sent[i], ps[i])
  }

  lemma EncodeAllEncodes(ps: seq<Packet>, sent: seq<seq<byte>>)
    requires AllAcceptable(ps) && sent == EncodeAll(ps)
    ensures AllEncode(sent, ps)
  {
    forall i | 0 <= i < |ps| ensures Encodes(sent[i], ps[i]) {
      EncodeAllAt(ps, i);
    }
  }

  lemma AsSent(ps: seq<Packet>, j: nat, bytes: seq<byte>, sent: seq<seq<byte>>, out: seq<Msg>, seqNo: nat)
    requires AllAcceptable(ps) && j < |ps| && AllEncode(sent, ps) && Packets(out) == sent[j := bytes]
    requires forall i :: 0 <= i < |out| ==> out[i].seqNo == seqNo
    ensures |out| == |ps| && out[j].packet == bytes
    ensures forall i :: 0 <= i < |ps| && i != j ==> Delivers(out[i], ps[i], seqNo)
  {
    PacketAt(out, sent[j := bytes], j);
    forall i | 0 <= i < |ps| && i != j ensures Delivers(out[i], ps[i], seqNo) {
      PacketAt(out, sent[j := bytes], i);
      assert Encodes(sent[i], ps[i]);
      EncodedDelivers(out[i], ps[i]);
    }
  }

  lemma PacketAt(out: seq<Msg>, sent: seq<seq<byte>>, i: nat)
    requires Packets(out) == sent && i < |sent|
    ensures |out| == |sent| && out[i].packet == sent[i]
  {
    assert Packets(out)[i] == out[i].packet;
  }

  /** One body altered in transit, within 32 consecutive bits: framing is not disturbed,
      every other packet is delivered as sent, and the altered one reaches no handler,
      whatever the connection's counter is by then. */
  lemma EndToEndTampered(ps: seq<Packet>, j: nat, body: seq<byte>, k: nat,
                         chunks: seq<seq<byte>>, seqNo: nat, curSeq: nat)
    requires AllAcceptable(ps) && Legal(IDLE, chunks, seqNo)
    requires j < |ps| && body != ps[j].body && DifferWithin(ps[j].body, body, k)
    requires Flatten(chunks) == Flatten(EncodeAll(ps)[j := Tamper(ps[j], body)])
    ensures var r := Run(IDLE, chunks, seqNo);
            && |r.out| == |ps|
            && (forall i :: 0 <= i < |ps| && i != j ==> Delivers(r.out[i], ps[i], seqNo))
            && |r.out[j].packet| >= PKG_HDR_SIZE
            && Judge(r.out[j], curSeq) == CrcError
  {
    TamperedIsRejected(ps[j], body, k, 0, curSeq);
    EndToEndReplaced(ps, j, Tamper(ps[j], body), chunks, seqNo);
    TamperedIsRejected(ps[j], body, k, Run(IDLE, chunks, seqNo).out[j].seqNo, curSeq);
  }

  /** The same for a CRC field altered in any way, with or without a body behind it. */
  lemma EndToEndAlteredCrc(ps: seq<Packet>, j: nat, crc: seq<byte>, chunks: seq<seq<byte>>, seqNo: nat, curSeq: nat)
    requires AllAcceptable(ps) && Legal(IDLE, chunks, seqNo)
    requires j < |ps| && |crc| == 4 && crc != CrcField(ps[j].body)
    requires Flatten(chunks) == Flatten(EncodeAll(ps)[j := Recrc(ps[j], crc)])
    ensures var r := Run(IDLE, chunks, seqNo);
            && |r.out| == |ps|
            && (forall i :: 0 <= i < |ps| && i != j ==> Delivers(r.out[i], ps[i], seqNo))
            && |r.out[j].packet| >= PKG_HDR_SIZE
            && !Judge(r.out[j], curSeq).Handled?
  {
    AlteredCrcIsRejected(ps[j], crc, 0, curSeq);
    EndToEndReplaced(ps, j, Recrc(ps[j], crc), chunks, seqNo);
    AlteredCrcIsRejected(ps[j], crc, Run(IDLE, chunks, seqNo).out[j].seqNo, curSeq);
  }

  /** The size limit is exact: an encoded packet comes back out of a receiver of this
      framework if and only if it is at most PKG_MAX_SIZE - 1000 bytes long. */
  lemma SizeLimitExact(p: Packet)
    requires Encodable(p)
    ensures Parse(Encode(p)) == Parsed([Encode(p)], []) <==> Acceptable(p)
  {
    EncodeFields(p);
    LimitOf(Encode(p));
  }

  lemma LimitOf(s: seq<byte>)
    requires IsPacket(s)
    ensures Parse(s) == Parsed([s], []) <==> !WrongSize(|s|)
  {
    if !WrongSize(|s|) {
      ParseFlatten([s]);
      assert Flatten([s]) == s;
    } else if Parse(s) == Parsed([s], []) {
      ParsePackets(s, 0);
    }
  }

  /** The 65000-byte reply of register_handler is over that limit: a peer that frames
      like this repository does not receive it. */
  lemma RegisterReplyRefused(p: Packet)
    requires p.kind == 1 && |p.body| == 65000
    ensures Encodable(p) && Parse(Encode(p)) != Parsed([Encode(p)], [])
  {
    SizeLimitExact(p);
  }
}
