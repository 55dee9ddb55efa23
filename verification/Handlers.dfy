/**
 What the handlers of bussiness/mgx_logic_socket.cpp do with a packet body: they log it with
 "%s".  The body is as long as the packet says and need not end with a NUL, and a packet
 without a body leaves a null pointer.
 */
module Handlers {
  import opened Bytes
  import opened CStrings
  import opened Framing
  import opened Dispatch
  import opened Printf
  import opened Log

  const REGISTER_TEXT: string := "register_handler called succeed, msg: "
  const LOGIN_TEXT: string := "login_handler called succeed, msg: "

  function Chars(body: seq<byte>): (s: string)
    ensures |s| == |body| && (NUL in s <==> 0 in body)
    ensures forall i :: 0 <= i < |s| ==> s[i] == body[i] as char
  {
    var s := seq(|body|, i requires 0 <= i < |body| => body[i] as char);
    assert forall i :: 0 <= i < |body| ==> (s[i] == NUL <==> body[i] == 0);
    assert NUL in s ==> exists i :: 0 <= i < |body| && s[i] == NUL && body[i] == 0;
    assert 0 in body ==> exists i :: 0 <= i < |body| && body[i] == 0 && s[i] == NUL;
    s
  }

  /** The pointer the dispatcher hands to the handler. */
  function BodyArg(body: seq<byte>): (a: Arg) { if body == [] then Null else Str(Chars(body)) }

  function LogFormat(text: string): (fmt: string) { text + ['%', 's', NUL] }

  /** What a "%s" at the end of a format prints. */
  lemma StringAtEnd(fmt: string, i: nat, a: Arg)
    requires i + 3 == |fmt| && fmt[i] == '%' && fmt[i + 1] == 's' && fmt[i + 2] == NUL
    ensures Format(fmt, i, [a], 0)
         == var t := Text(ConvertArg('s', Plain(), a)); if t.stop.Done? then Before(t.text, Out("", Done)) else t
  {
    OneLetter(fmt, i + 1, [a], 0);
    assert Format(fmt, i + 2, [a], 1) == Out("", Done);
  }

  /** Logging a body behind a text: it is defined if and only if the room ends with the text,
      or there is a body and it has a NUL or is longer than the room that is left. */
  lemma LoggedBody(text: string, body: seq<byte>, room: nat)
    requires IsPlain(text)
    ensures Clean(Format(LogFormat(text), 0, [BodyArg(body)], 0), room)
       <==> room <= |text| || (body != [] && (0 in body || |body| > room - |text|))
  {
    var fmt, a := LogFormat(text), BodyArg(body);
    PlainRun(fmt, 0, |text|, [a], 0);
    assert fmt[0..|text|] == text;
    StringAtEnd(fmt, |text|, a);
    NulFound(Chars(body));
  }

  ghost predicate IsPlain(text: string) { forall m :: 0 <= m < |text| ==> text[m] != NUL && text[m] != '%' }

  function HandlerText(kind: nat): (text: string) { if kind == 1 then REGISTER_TEXT else LOGIN_TEXT }

  lemma TextIsPlain(kind: nat)
    ensures IsPlain(HandlerText(kind)) && |HandlerText(kind)| == if kind == 1 then 38 else 35
  {
  }

  lemma ReachesHandler(kind: nat, body: seq<byte>, stamp: nat)
    requires (kind == 1 || kind == 2) && Encodable(Packet(kind, body))
    ensures Judge(Msg(stamp, Encode(Packet(kind, body))), stamp) == Handled(kind, body)
  {
    EncodedIsHandled(Packet(kind, body), stamp, stamp);
  }

  /** A register or login packet whose stamp is current reaches its handler with its body,
      and the log of it there, behind a prefix of fewer than 100 bytes, is defined if and only
      if there is a body and it has a NUL or fills the rest of the line. */
  lemma HandlerLogs(kind: nat, body: seq<byte>, stamp: nat, prefix: nat)
    requires (kind == 1 || kind == 2) && Encodable(Packet(kind, body)) && prefix < 100
    ensures Judge(Msg(stamp, Encode(Packet(kind, body))), stamp) == Handled(kind, body)
    ensures var text, room := HandlerText(kind), MGX_MAX_LOG_STR_SIZE - prefix;
            Clean(Format(LogFormat(text), 0, [BodyArg(body)], 0), room) <==> body != [] && (0 in body || |body| > room - |text|)
  {
    ReachesHandler(kind, body, stamp);
    TextIsPlain(kind);
    LoggedBody(HandlerText(kind), body, MGX_MAX_LOG_STR_SIZE - prefix);
  }
}
