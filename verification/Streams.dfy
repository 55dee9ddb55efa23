/**
 Byte streams in which anything may come: every stream is a list of packets and refused
 headers with an incomplete piece behind it, in exactly one way, and the receiver of
 net/mgx_socket_request.cpp delivers the packets of that list.
 */
module Streams {
  import opened Bytes
  import opened Framing
  import opened Dispatch

  /** A complete packet of a size that is accepted. */
  ghost predicate Whole(k: seq<byte>) { IsPacket(k) && !WrongSize(|k|) }

  /** A header that states a size that is not. */
  ghost predicate Refused(h: seq<byte>) { |h| == PKG_HDR_SIZE && WrongSize(PkgSize(h)) }

  /** What more bytes have to follow. */
  ghost predicate Incomplete(r: seq<byte>) {
    |r| < PKG_HDR_SIZE || (!WrongSize(PkgSize(r)) && |r| < PkgSize(r))
  }

  ghost predicate Pieces(ps: seq<seq<byte>>) {
    forall i :: 0 <= i < |ps| ==> Whole(ps[i]) || Refused(ps[i])
  }

  /** The packets among the pieces. */
  ghost function Accepted(ps: seq<seq<byte>>): (r: seq<seq<byte>>) {
    if ps == [] then [] else (if Whole(ps[0]) then [ps[0]] else []) + Accepted(ps[1..])
  }

  /** A refused header is dropped, all of it and nothing else. */
  lemma RefusedIsSkipped(h: seq<byte>, t: seq<byte>)
    requires Refused(h)
    ensures Parse(h + t) == Parse(t)
  {
    assert (h + t)[..2] == h[..2] && (h + t)[PKG_HDR_SIZE..] == t;
  }

  lemma WholeComesOut(k: seq<byte>, t: seq<byte>)
    requires Whole(k)
    ensures Parse(k + t) == Parsed([k] + Parse(t).packets, Parse(t).rest)
  {
    assert (k + t)[..2] == k[..2] && (k + t)[..|k|] == k && (k + t)[|k|..] == t;
  }

  /** The parser delivers the packets of the list and holds back what is incomplete. */
  lemma {:induction false} ParsePieces(ps: seq<seq<byte>>, rest: seq<byte>)
    requires Pieces(ps) && Incomplete(rest)
    ensures Parse(Flatten(ps) + rest) == Parsed(Accepted(ps), rest)
  {
    if ps == [] {
      assert Flatten(ps) + rest == rest;
    } else {
      var p, more := ps[0], Flatten(ps[1..]) + rest;
      ParsePieces(ps[1..], rest);
      assert Flatten(ps) + rest == p + more;
      if Whole(p) {
        WholeComesOut(p, more);
      } else {
        RefusedIsSkipped(p, more);
      }
    }
  }

  /** Every stream is such a list. */
  lemma {:induction false} EveryStream(s: seq<byte>) returns (ps: seq<seq<byte>>, rest: seq<byte>)
    ensures Pieces(ps) && Incomplete(rest) && s == Flatten(ps) + rest
    decreases |s|
  {
    if Incomplete(s) {
      ps, rest := [], s;
    } else {
      var n := if WrongSize(PkgSize(s)) then PKG_HDR_SIZE else PkgSize(s);
      var more;
      more, rest := EveryStream(s[n..]);
      assert s[..n][..2] == s[..2];
      ps := [s[..n]] + more;
      assert s == s[..n] + s[n..];
    }
  }

  /** The length of a piece is in its header. */
  lemma SameFirst(p: seq<byte>, t: seq<byte>, q: seq<byte>, u: seq<byte>)
    requires (Whole(p) || Refused(p)) && (Whole(q) || Refused(q)) && p + t == q + u
    ensures p == q && t == u
  {
    var s := p + t;
    assert s[..2] == p[..2] && s[..2] == q[..2];
    assert s[..|p|] == p && s[..|q|] == q && s[|p|..] == t && s[|q|..] == u;
  }

  lemma BeginsComplete(ps: seq<seq<byte>>, rest: seq<byte>)
    requires Pieces(ps) && Incomplete(rest)
    ensures Incomplete(Flatten(ps) + rest) <==> ps == []
  {
    var s := Flatten(ps) + rest;
    if ps == [] {
      assert s == rest;
    } else {
      assert s[..2] == ps[0][..2];
    }
  }

  /** And in only one way. */
  lemma {:induction false} OneWay(ps: seq<seq<byte>>, rest: seq<byte>, qs: seq<seq<byte>>, left: seq<byte>)
    requires Pieces(ps) && Incomplete(rest) && Pieces(qs) && Incomplete(left)
    requires Flatten(ps) + rest == Flatten(qs) + left
    ensures ps == qs && rest == left
  {
    BeginsComplete(ps, rest);
    BeginsComplete(qs, left);
    if ps == [] {
      assert Flatten(ps) + rest == rest && Flatten(qs) + left == left;
    } else {
      var t, u := Flatten(ps[1..]) + rest, Flatten(qs[1..]) + left;
      assert ps[0] + t == Flatten(ps) + rest && qs[0] + u == Flatten(qs) + left;
      SameFirst(ps[0], t, qs[0], u);
      OneWay(ps[1..], rest, qs[1..], left);
      assert ps == [ps[0]] + ps[1..] && qs == [qs[0]] + qs[1..];
    }
  }

  /** However the stream is cut into recv results, a connection at a packet boundary delivers
      exactly the packets of the list, in order and with its counter, holds the incomplete
      piece, and is at a packet boundary again exactly if there is none. */
  lemma AnythingArrives(ps: seq<seq<byte>>, rest: seq<byte>, chunks: seq<seq<byte>>, seqNo: nat)
    requires Pieces(ps) && Incomplete(rest) && Legal(IDLE, chunks, seqNo) && Flatten(chunks) == Flatten(ps) + rest
    ensures var r := Run(IDLE, chunks, seqNo);
            && Packets(r.out) == Accepted(ps) && r.rx.buf == rest
            && (r.rx.stat.HdrStart? <==> rest == [])
            && forall i :: 0 <= i < |r.out| ==> r.out[i].seqNo == seqNo
  {
    ParsePieces(ps, rest);
    ChunkingIndependence(IDLE, chunks, seqNo);
    assert IDLE.buf + Flatten(chunks) == Flatten(chunks);
  }
}
