/**
 HTTP header fields in http/mgx_http_socket.cpp: the parser cuts the request head into
 lines with strtok and fills a map, the response writer prints such a map.
 */
module HttpHeaders {
  import opened CStrings
  import opened Digits

  const CR: char := '\r'
  const LF: char := '\n'
  const CRLF: string := "\r\n"

  predicate IsDelim(c: char) { c == CR || c == LF }

  predicate Inner(c: char) { !IsDelim(c) && c != NUL }

  /** The characters of one line. */
  predicate OneLine(s: string) { forall i :: 0 <= i < |s| ==> Inner(s[i]) }

  // ---------------------------------------------------------------- strim

  function TrimLeft(s: string): (r: string)
    ensures r != "" ==> r[0] != ' '
    ensures OneLine(s) ==> OneLine(r)
    ensures forall c :: c !in s ==> c !in r
  {
    if s != "" && s[0] == ' ' then TrimLeft(s[1..]) else s
  }

  function TrimRight(s: string): (r: string)
    ensures |r| <= |s| && r == s[..|r|]
    ensures r != "" ==> r[|r| - 1] != ' '
  {
    if s != "" && s[|s| - 1] == ' ' then TrimRight(s[..|s| - 1]) else s
  }

  function Trim(s: string): (r: string)
    ensures Trimmed(r)
    ensures OneLine(s) ==> OneLine(r)
    ensures forall c :: c !in s ==> c !in r
  {
    TrimRight(TrimLeft(s))
  }

  /** No space at either end. */
  predicate Trimmed(s: string) { s != "" ==> s[0] != ' ' && s[|s| - 1] != ' ' }

  lemma TrimOfTrimmed(s: string)
    requires Trimmed(s)
    ensures Trim(s) == s && Trim(" " + s) == s
  {
    assert (" " + s)[1..] == s;
  }

  lemma {:induction false} TrimLeftSpaces(a: nat, s: string)
    ensures TrimLeft(Repeat(' ', a) + s) == TrimLeft(s)
    decreases a
  {
    if a == 0 {
      assert Repeat(' ', 0) + s == s;
    } else {
      TrimLeftSpaces(a - 1, s);
      assert (Repeat(' ', a) + s)[1..] == Repeat(' ', a - 1) + s;
    }
  }

  lemma {:induction false} TrimRightSpaces(s: string, b: nat)
    ensures TrimRight(s + Repeat(' ', b)) == TrimRight(s)
    decreases b
  {
    var t := s + Repeat(' ', b);
    if b == 0 {
      assert t == s;
    } else {
      TrimRightSpaces(s, b - 1);
      assert t[..|t| - 1] == s + Repeat(' ', b - 1);
    }
  }

  /** Trimming takes the spaces off both ends, */
  lemma TrimExact(a: nat, t: string, b: nat)
    requires Trimmed(t)
    ensures Trim(Repeat(' ', a) + (t + Repeat(' ', b))) == t
  {
    TrimLeftSpaces(a, t + Repeat(' ', b));
    if t == "" {
      TrimLeftSpaces(b, "");
      assert t + Repeat(' ', b) == Repeat(' ', b) + "";
    } else {
      TrimRightSpaces(t, b);
    }
  }

  lemma {:induction false} TrimLeftTakes(s: string) returns (a: nat)
    ensures s == Repeat(' ', a) + TrimLeft(s)
  {
    a := 0;
    if s != "" && s[0] == ' ' {
      var n := TrimLeftTakes(s[1..]);
      a := n + 1;
      assert Repeat(' ', a) == [' '] + Repeat(' ', n);
    }
  }

  lemma {:induction false} TrimRightTakes(s: string) returns (b: nat)
    ensures s == TrimRight(s) + Repeat(' ', b)
  {
    b := 0;
    if s != "" && s[|s| - 1] == ' ' {
      var n := TrimRightTakes(s[..|s| - 1]);
      b := n + 1;
      assert Repeat(' ', b) == Repeat(' ', n) + [' '];
    }
  }

  /** and nothing else. */
  lemma TrimTakesSpaces(s: string) returns (a: nat, b: nat)
    ensures s == Repeat(' ', a) + (Trim(s) + Repeat(' ', b)) && Trimmed(Trim(s))
  {
    a := TrimLeftTakes(s);
    b := TrimRightTakes(TrimLeft(s));
  }

  // ---------------------------------------------------------------- lines and fields

  /** How far the line at the beginning of s reaches. */
  function Span(s: string): (n: nat)
    ensures n <= |s| && OneLine(s[..n])
    ensures n < |s| ==> !Inner(s[n])
  {
    if s == "" || !Inner(s[0]) then 0
    else
      assert s[..1 + Span(s[1..])] == [s[0]] + s[1..][..Span(s[1..])];
      1 + Span(s[1..])
  }

  /** The nonempty lines before the first NUL. */
  function Lines(s: string): (r: seq<string>)
    decreases |s|
  {
    if s == "" || s[0] == NUL then []
    else if IsDelim(s[0]) then Lines(s[1..])
    else [s[..Span(s)]] + Lines(s[Span(s)..])
  }

  /** The place of the first colon, or the length. */
  function Colon(s: string): (n: nat)
    ensures n <= |s| && ':' !in s[..n]
    ensures n < |s| ==> s[n] == ':'
  {
    if s == "" || s[0] == ':' then 0
    else
      assert s[..1 + Colon(s[1..])] == [s[0]] + s[1..][..Colon(s[1..])];
      1 + Colon(s[1..])
  }

  function Key(line: string): (k: string) { Trim(line[..Colon(line)]) }

  function Val(line: string): (v: string) { if Colon(line) < |line| then Trim(line[Colon(line) + 1..]) else "" }

  /** Later lines replace earlier ones. */
  function Collect(lines: seq<string>, m: map<string, string>): (r: map<string, string>) {
    if lines == [] then m else Collect(lines[1..], m[Key(lines[0]) := Val(lines[0])])
  }

  function Parse(head: string, m: map<string, string>): (r: map<string, string>) { Collect(Lines(head), m) }

  // ---------------------------------------------------------------- printing

  function Line(k: string, v: string): (s: string) { k + ": " + v }

  function Print(order: seq<string>, m: map<string, string>): (s: string)
    requires forall k :: k in order ==> k in m
  {
    if order == [] then "" else Line(order[0], m[order[0]]) + CRLF + Print(order[1..], m)
  }

  predicate GoodKey(k: string) { Trimmed(k) && OneLine(k) && ':' !in k }

  predicate GoodVal(v: string) { Trimmed(v) && OneLine(v) }

  ghost predicate WellFormed(m: map<string, string>) { forall k :: k in m ==> GoodKey(k) && GoodVal(m[k]) }

  // ---------------------------------------------------------------- the round trip

  lemma {:induction false} SpanOfLine(line: string, rest: string)
    requires OneLine(line) && rest != "" && IsDelim(rest[0])
    ensures Span(line + rest) == |line|
  {
    if line == "" {
      assert line + rest == rest;
    } else {
      SpanOfLine(line[1..], rest);
      assert (line + rest)[1..] == line[1..] + rest;
    }
  }

  /** A line and its CRLF come off as one line. */
  lemma LinesOfLine(line: string, rest: string)
    requires OneLine(line) && line != ""
    ensures Lines(line + CRLF + rest) == [line] + Lines(rest)
  {
    var s := line + CRLF + rest;
    assert s == line + (CRLF + rest);
    SpanOfLine(line, CRLF + rest);
    assert s[..|line|] == line && s[|line|..] == CRLF + rest;
    assert (CRLF + rest)[1..] == "\n" + rest && ("\n" + rest)[1..] == rest;
    assert Lines(CRLF + rest) == Lines("\n" + rest) == Lines(rest);
  }

  lemma {:induction false} ColonOfKey(k: string, rest: string)
    requires ':' !in k && rest != "" && rest[0] == ':'
    ensures Colon(k + rest) == |k|
  {
    if k == "" {
      assert k + rest == rest;
    } else {
      ColonOfKey(k[1..], rest);
      assert (k + rest)[1..] == k[1..] + rest;
    }
  }

  lemma KeyOfLine(k: string, v: string)
    requires GoodKey(k)
    ensures Colon(Line(k, v)) == |k| && Key(Line(k, v)) == k
  {
    var line := Line(k, v);
    assert line == k + (": " + v);
    ColonOfKey(k, ": " + v);
    assert line[..|k|] == k;
    TrimOfTrimmed(k);
  }

  lemma ValOfLine(k: string, v: string)
    requires GoodKey(k) && GoodVal(v)
    ensures Val(Line(k, v)) == v
  {
    var line := Line(k, v);
    KeyOfLine(k, v);
    assert line[|k| + 1..] == " " + v;
    TrimOfTrimmed(v);
  }

  lemma LineIsOneLine(k: string, v: string)
    requires OneLine(k) && OneLine(v)
    ensures OneLine(Line(k, v)) && Line(k, v) != ""
  {
  }

  function Updated(order: seq<string>, m: map<string, string>, m0: map<string, string>): (r: map<string, string>)
    requires forall k :: k in order ==> k in m
  {
    if order == [] then m0 else Updated(order[1..], m, m0[order[0] := m[order[0]]])
  }

  lemma {:induction false} UpdatedAt(order: seq<string>, m: map<string, string>, m0: map<string, string>, k: string)
    requires forall j :: j in order ==> j in m
    ensures var r := Updated(order, m, m0);
            && (k in r <==> k in order || k in m0)
            && (k in order ==> k in r && r[k] == m[k])
            && (k in m0 && k !in order ==> k in r && r[k] == m0[k])
  {
    if order != [] {
      UpdatedAt(order[1..], m, m0[order[0] := m[order[0]]], k);
      assert order == [order[0]] + order[1..];
    }
  }

  lemma {:induction false} ParsePrint(order: seq<string>, m: map<string, string>, m0: map<string, string>)
    requires WellFormed(m) && forall k :: k in order ==> k in m
    ensures Parse(Print(order, m), m0) == Updated(order, m, m0)
  {
    if order != [] {
      var k := order[0];
      KeyOfLine(k, m[k]);
      ValOfLine(k, m[k]);
      LineIsOneLine(k, m[k]);
      LinesOfLine(Line(k, m[k]), Print(order[1..], m));
      ParsePrint(order[1..], m, m0[k := m[k]]);
    }
  }

  lemma {:induction false} LinesAreLines(s: string)
    ensures forall l :: l in Lines(s) ==> OneLine(l)
    decreases |s|
  {
    if s != "" && s[0] != NUL {
      LinesAreLines(if IsDelim(s[0]) then s[1..] else s[Span(s)..]);
    }
  }

  /** Whatever is parsed, the fields are well formed. */
  lemma {:induction false} CollectWellFormed(lines: seq<string>, m: map<string, string>)
    requires WellFormed(m) && forall l :: l in lines ==> OneLine(l)
    ensures WellFormed(Collect(lines, m))
  {
    if lines != [] {
      var line := lines[0];
      assert OneLine(line);
      CollectWellFormed(lines[1..], m[Key(line) := Val(line)]);
    }
  }

  lemma ParseWellFormed(head: string, m: map<string, string>)
    requires WellFormed(m)
    ensures WellFormed(Parse(head, m))
  {
    LinesAreLines(head);
    CollectWellFormed(Lines(head), m);
  }

  /** In whatever order a map is printed, it is parsed back exactly if it is well formed. */
  lemma RoundTrip(order: seq<string>, m: map<string, string>)
    requires forall k :: k in order <==> k in m
    ensures Parse(Print(order, m), map[]) == m <==> WellFormed(m)
  {
    ParseWellFormed(Print(order, m), map[]);
    if WellFormed(m) {
      ParsePrint(order, m, map[]);
      var r := Updated(order, m, map[]);
      forall k ensures (k in r <==> k in m) && (k in m ==> r[k] == m[k]) {
        UpdatedAt(order, m, map[], k);
      }
    }
  }

  /** Printing again what was parsed changes nothing more. */
  lemma Stable(head: string, order: seq<string>)
    requires forall k :: k in order <==> k in Parse(head, map[])
    ensures Parse(Print(order, Parse(head, map[])), map[]) == Parse(head, map[])
  {
    ParseWellFormed(head, map[]);
    RoundTrip(order, Parse(head, map[]));
  }

  /** The printed head is the printed fields, one after the other, each as it stands here. */
  lemma {:induction false} PrintIs(order: seq<string>, k: string, m: map<string, string>)
    requires k in m && forall j :: j in order ==> j in m
    ensures Print(order + [k], m) == Print(order, m) + (k + ": " + m[k] + "\r\n") && Print([], m) == ""
  {
    if order == [] {
      assert order + [k] == [k];
    } else {
      PrintIs(order[1..], k, m);
      assert (order + [k])[1..] == order[1..] + [k];
    }
  }

  // ---------------------------------------------------------------- heads as peers write them

  /** A line of a head with any number of spaces around key and value, with or without a
      colon, and the CRs and LFs behind it. */
  datatype HeadLine = HeadLine(a: nat, key: string, b: nat, colon: bool, c: nat, val: string, d: nat, ends: string)

  function Written(f: HeadLine): (s: string) {
    (Repeat(' ', f.a) + (f.key + Repeat(' ', f.b))) + if f.colon then ":" + (Repeat(' ', f.c) + (f.val + Repeat(' ', f.d))) else ""
  }

  ghost predicate Good(f: HeadLine) {
    && GoodKey(f.key) && GoodVal(f.val) && (!f.colon ==> f.val == "") && Written(f) != ""
    && f.ends != "" && forall i :: 0 <= i < |f.ends| ==> IsDelim(f.ends[i])
  }

  function Head(fields: seq<HeadLine>): (s: string) {
    if fields == [] then "" else Written(fields[0]) + (fields[0].ends + Head(fields[1..]))
  }

  lemma FieldOfLine(f: HeadLine)
    requires Good(f)
    ensures Key(Written(f)) == f.key && Val(Written(f)) == f.val
  {
    var front := Repeat(' ', f.a) + (f.key + Repeat(' ', f.b));
    var line := Written(f);
    TrimExact(f.a, f.key, f.b);
    assert ':' !in front;
    if f.colon {
      var back := Repeat(' ', f.c) + (f.val + Repeat(' ', f.d));
      ColonOfKey(front, ":" + back);
      TrimExact(f.c, f.val, f.d);
      assert line[..|front|] == front && line[|front| + 1..] == back;
    } else {
      assert line == front;
      ColonNowhere(line);
    }
  }

  lemma ColonNowhere(line: string)
    requires ':' !in line
    ensures Colon(line) == |line| && line[..|line|] == line
  {
  }

  lemma WrittenIsOneLine(f: HeadLine)
    requires Good(f)
    ensures OneLine(Written(f))
  {
  }

  lemma {:induction false} SkipEnds(ends: string, rest: string)
    requires forall i :: 0 <= i < |ends| ==> IsDelim(ends[i])
    ensures Lines(ends + rest) == Lines(rest)
  {
    if ends == "" {
      assert ends + rest == rest;
    } else {
      SkipEnds(ends[1..], rest);
      assert (ends + rest)[1..] == ends[1..] + rest;
    }
  }

  lemma LinesOfWritten(f: HeadLine, rest: string)
    requires Good(f)
    ensures Lines(Written(f) + (f.ends + rest)) == [Written(f)] + Lines(rest)
  {
    var line, more := Written(f), f.ends + rest;
    WrittenIsOneLine(f);
    SpanOfLine(line, more);
    assert (line + more)[..|line|] == line && (line + more)[|line|..] == more;
    SkipEnds(f.ends, rest);
  }

  function Assigned(fields: seq<HeadLine>, m: map<string, string>): (r: map<string, string>) {
    if fields == [] then m else Assigned(fields[1..], m[fields[0].key := fields[0].val])
  }

  lemma {:induction false} ParseAssigns(fields: seq<HeadLine>, tail: string, m: map<string, string>)
    requires (forall i :: 0 <= i < |fields| ==> Good(fields[i])) && (tail == "" || tail[0] == NUL)
    ensures Parse(Head(fields) + tail, m) == Assigned(fields, m)
  {
    if fields == [] {
      assert Head(fields) + tail == tail;
    } else {
      var f, rest := fields[0], Head(fields[1..]) + tail;
      assert Head(fields) + tail == Written(f) + (f.ends + rest);
      LinesOfWritten(f, rest);
      FieldOfLine(f);
      ParseAssigns(fields[1..], tail, m[f.key := f.val]);
    }
  }

  lemma {:induction false} AssignedLast(fields: seq<HeadLine>, m: map<string, string>, k: string)
    ensures k in Assigned(fields, m) <==> k in m || exists i :: 0 <= i < |fields| && fields[i].key == k
    ensures forall i :: 0 <= i < |fields| && fields[i].key == k && (forall j :: i < j < |fields| ==> fields[j].key != k) ==>
              Assigned(fields, m)[k] == fields[i].val
    ensures (forall i :: 0 <= i < |fields| ==> fields[i].key != k) && k in m ==> Assigned(fields, m)[k] == m[k]
  {
    if fields != [] {
      var f, rest := fields[0], fields[1..];
      AssignedLast(rest, m[f.key := f.val], k);
      assert forall i :: 0 < i < |fields| ==> fields[i] == rest[i - 1];
      assert forall i :: 0 <= i < |rest| ==> rest[i] == fields[i + 1];
    }
  }

  /** Of a head written in any such way the parser finds the fields: a key is there if and
      only if some line has it or it was there before; its value is that of the last line with
      this key, without the spaces around it, and empty if that line has no colon; and other
      keys keep their values. */
  lemma HeadIsFound(fields: seq<HeadLine>, tail: string, m: map<string, string>, k: string)
    requires (forall i :: 0 <= i < |fields| ==> Good(fields[i])) && (tail == "" || tail[0] == NUL)
    ensures var r := Parse(Head(fields) + tail, m);
            && (k in r <==> k in m || exists i :: 0 <= i < |fields| && fields[i].key == k)
            && (forall i :: 0 <= i < |fields| && fields[i].key == k && (forall j :: i < j < |fields| ==> fields[j].key != k) ==>
                  r[k] == fields[i].val)
            && ((forall i :: 0 <= i < |fields| ==> fields[i].key != k) && k in m ==> r[k] == m[k])
  {
    ParseAssigns(fields, tail, m);
    AssignedLast(fields, m, k);
  }

  // ---------------------------------------------------------------- the loops

  /** strspn: past the delimiters. */
  method SkipDelims(buf: array<char>, from: nat) returns (start: nat)
    requires from <= buf.Length && NUL in buf[from..]
    ensures from <= start < buf.Length && NUL in buf[start..] && !IsDelim(buf[start])
    ensures Lines(buf[start..]) == Lines(buf[from..])
  {
    start := from;
    while IsDelim(buf[start])
      invariant from <= start < buf.Length && NUL in buf[start..]
      invariant Lines(buf[start..]) == Lines(buf[from..])
      decreases buf.Length - start
    {
      assert buf[start..] == [buf[start]] + buf[start + 1..];
      start := start + 1;
    }
  }

  /** strcspn: to the end of the line. */
  method LineEnd(buf: array<char>, start: nat) returns (end: nat)
    requires start <= buf.Length && NUL in buf[start..]
    ensures start <= end < buf.Length && NUL in buf[end..]
    ensures Span(buf[start..]) == end - start
  {
    end := start;
    while Inner(buf[end])
      invariant start <= end < buf.Length && NUL in buf[end..]
      invariant OneLine(buf[start..end])
      decreases buf.Length - end
    {
      assert buf[end..] == [buf[end]] + buf[end + 1..];
      end := end + 1;
    }
    assert buf[start..][..end - start] == buf[start..end];
    SpanIs(buf[start..], end - start);
  }

  /** strtok with CRLF: the next line is terminated in place by a NUL. */
  method Strtok(buf: array<char>, from: nat) returns (found: bool, start: nat, next: nat)
    requires from <= buf.Length && NUL in buf[from..]
    modifies buf
    ensures found == (Lines(old(buf[from..])) != [])
    ensures from <= start <= next <= buf.Length && NUL in buf[next..]
    ensures found ==> start < next
    ensures found ==> Lines(old(buf[from..])) == [UpToNul(buf[start..])] + Lines(buf[next..])
  {
    start := SkipDelims(buf, from);
    next := start;
    found := buf[start] != NUL;
    if found {
      next := EndLine(buf, start);
    }
  }

  /** The second half of strtok: a NUL behind the line, and where to go on. */
  method EndLine(buf: array<char>, start: nat) returns (next: nat)
    requires start < buf.Length && NUL in buf[start..] && Inner(buf[start])
    modifies buf
    ensures start < next <= buf.Length && NUL in buf[next..]
    ensures Lines(old(buf[start..])) == [UpToNul(buf[start..])] + Lines(buf[next..])
  {
    next := LineEnd(buf, start);
    ghost var s, n := buf[start..], next - start;
    ghost var rest := if s[n] == NUL then s[n..] else s[n + 1..];
    if buf[next] != NUL {
      buf[next] := NUL;
      next := next + 1;
    }
    assert buf[next..] == rest;
    assert buf[start..] == s[n := NUL];
    EndedLine(s, n, s[n := NUL], rest);
  }

  lemma EndedLine(s: string, n: nat, after: string, rest: string)
    requires s != "" && Inner(s[0]) && n == Span(s) < |s| && NUL in s
    requires after == s[n := NUL] && rest == if s[n] == NUL then s[n..] else s[n + 1..]
    ensures n > 0 && Lines(s) == [UpToNul(after)] + Lines(rest) && NUL in rest
  {
    CutLine(s, n);
  }

  /** What the NUL behind a line does. */
  lemma CutLine(s: string, n: nat)
    requires s != "" && Inner(s[0]) && n == Span(s) < |s|
    ensures n > 0 && UpToNul(s[n := NUL]) == s[..n]
    ensures Lines(s) == [s[..n]] + Lines(if s[n] == NUL then s[n..] else s[n + 1..])
    ensures s[n] != NUL && NUL in s ==> NUL in s[n + 1..]
  {
    CutIs(s[n := NUL], s[..n]);
    assert s[n..] == [s[n]] + s[n + 1..];
    if s[n] != NUL && NUL in s {
      assert s == s[..n] + s[n..];
    }
  }

  lemma SpanIs(s: string, n: nat)
    requires n < |s| && OneLine(s[..n]) && !Inner(s[n])
    ensures Span(s) == n
  {
  }

  lemma CutIs(s: string, line: string)
    requires |line| < |s| && s[..|line|] == line && OneLine(line) && s[|line|] == NUL
    ensures UpToNul(s) == line
  {
    var u := UpToNul(s);
    assert forall i :: 0 <= i < |line| ==> s[i] == line[i] && Inner(line[i]);
    assert forall i :: 0 <= i < |u| ==> s[i] == u[i];
  }

  /** The parts of mgx_http_request_t that the header parser works on. */
  class Request {
    const requestHead: array<char>
    var headers: map<string, string>

    constructor (head: array<char>)
      ensures requestHead == head && headers == map[]
    {
      requestHead := head;
      headers := map[];
    }

    /** http_parse_request_head: the buffer is cut up, the map filled. */
    method ParseRequestHead()
      requires NUL in requestHead[..]
      modifies this, requestHead
      ensures headers == Parse(old(requestHead[..]), old(headers))
    {
      ghost var all := Parse(requestHead[..], headers);
      assert requestHead[0..] == requestHead[..];
      var found, p, next := Strtok(requestHead, 0);
      while found
        invariant p <= next <= requestHead.Length && (found ==> p < next) && NUL in requestHead[next..]
        invariant found ==> all == Collect([UpToNul(requestHead[p..])] + Lines(requestHead[next..]), headers)
        invariant !found ==> all == headers
        decreases found, requestHead.Length - p
      {
        var line := UpToNul(requestHead[p..]);
        headers := headers[Key(line) := Val(line)];
        found, p, next := Strtok(requestHead, next);
      }
    }
  }

  /** The header loop of http_write_response. */
  method PrintHeaders(order: seq<string>, m: map<string, string>) returns (response: string)
    requires forall k :: k in order ==> k in m
    ensures response == Print(order, m)
  {
    response := "";
    for i := 0 to |order|
      invariant response + Print(order[i..], m) == Print(order, m)
    {
      response := response + (Line(order[i], m[order[i]]) + CRLF);
    }
  }
}
