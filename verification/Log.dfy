/**
 The log line of app/mgx_log.cpp: time stamp, tag and process number, the message, and a
 newline and a NUL for which there is always room.
 */
module Log {
  import opened CStrings
  import opened Digits
  import opened Printf

  const MGX_MAX_LOG_STR_SIZE: nat := 10240
  const HEAD: string := " [%s] %d: " + [NUL]
  const STD_ERR_TAG: string := "mgx: "

  function LogTag(level: nat): (s: string)
    requires level < 9
    ensures |s| <= 6 && NUL !in s
  {
    ["stderr", "emerg", "alert", "crit", "error", "warn", "notice", "info", "debug"][level]
  }

  function HeadArgs(tag: string, pid: int): (a: seq<Arg>) { [Str(tag + [NUL]), Num(pid)] }

  function Decimals(n: int): (s: string) { Minus(n < 0) + Numeral(Abs(n), Decimal) }

  /** What stands before the message. */
  function Head(tag: string, pid: int): (s: string) { " [" + tag + "] " + Decimals(Signed(pid, TWO32)) + ": " }

  predicate IsHead(h: string) {
    && |h| == 11 && h[0] == ' ' && h[1] == '[' && h[2] == '%' && h[3] == 's' && h[4] == ']' && h[5] == ' '
    && h[6] == '%' && h[7] == 'd' && h[8] == ':' && h[9] == ' ' && h[10] == NUL
  }

  function Plain(): (sp: Spec) { Spec(' ', 0, true, Decimal, 0, UNSET) }

  /** A directive of one letter. */
  lemma OneLetter(h: string, i: nat, args: seq<Arg>, k: nat)
    requires i < |h| && TakesArg(h[i])
    ensures Directive(h, i, args, k) == Scanned(Plain(), i, k)
  {
    assert Digits64(h, i, 0) == (0, i);
  }

  lemma HeadTail(h: string, args: seq<Arg>)
    requires IsHead(h)
    ensures Format(h, 8, args, 2) == Out(": ", Done)
  {
    PlainRun(h, 8, 10, args, 2);
    assert h[8..10] == ": ";
    assert Format(h, 10, args, 2) == Out("", Done);
    assert ": " + "" == ": ";
  }

  /** The end of the head: "%d: ". */
  lemma HeadEnd(h: string, args: seq<Arg>, pid: int)
    requires IsHead(h) && |args| == 2 && args[1] == Num(pid)
    ensures Format(h, 6, args, 1) == Out(Decimals(Signed(pid, TWO32)) + ": ", Done)
  {
    var n := Signed(pid, TWO32);
    OneLetter(h, 7, args, 1);
    assert Convert('d', Plain(), args, 1) == Number(n < 0, Abs(n), ' ', Decimal, 0);
    assert Padded(Abs(n), ' ', Decimal, 0) == Numeral(Abs(n), Decimal);
    HeadTail(h, args);
  }

  /** The "%s" of the head. */
  lemma HeadTag(h: string, tag: string, args: seq<Arg>)
    requires IsHead(h) && NUL !in tag && |args| == 2 && args[0] == Str(tag + [NUL])
    ensures Format(h, 2, args, 0) == Before(tag, Format(h, 4, args, 1))
  {
    OneLetter(h, 3, args, 0);
    assert Convert('s', Plain(), args, 0) == CString(tag + [NUL]);
    WholeString(tag);
  }

  lemma TwoPlain(h: string, i: nat, two: string, args: seq<Arg>, k: nat)
    requires i + 2 < |h| && |two| == 2 && h[i] == two[0] && h[i + 1] == two[1]
    requires NUL !in two && '%' !in two
    ensures Format(h, i, args, k) == Before(two, Format(h, i + 2, args, k))
  {
    PlainRun(h, i, i + 2, args, k);
    assert h[i..i + 2] == two;
  }

  lemma HeadFront(h: string, tag: string, args: seq<Arg>)
    requires IsHead(h) && NUL !in tag && |args| == 2 && args[0] == Str(tag + [NUL])
    ensures Format(h, 0, args, 0) == Before(" [", Before(tag, Format(h, 4, args, 1)))
  {
    TwoPlain(h, 0, " [", args, 0);
    HeadTag(h, tag, args);
  }

  lemma CloseBracket(h: string, args: seq<Arg>, rest: Out)
    requires IsHead(h) && rest == Format(h, 6, args, 1)
    ensures Format(h, 4, args, 1) == Before("] ", rest)
  {
    TwoPlain(h, 4, "] ", args, 1);
  }

  lemma HeadBack(h: string, pid: int, args: seq<Arg>)
    requires IsHead(h) && |args| == 2 && args[1] == Num(pid)
    ensures Format(h, 4, args, 1) == Before("] ", Out(Decimals(Signed(pid, TWO32)) + ": ", Done))
  {
    HeadEnd(h, args, pid);
    CloseBracket(h, args, Out(Decimals(Signed(pid, TWO32)) + ": ", Done));
  }

  /** The head comes out as it is meant to. */
  lemma HeadText(tag: string, pid: int)
    requires NUL !in tag
    ensures Format(HEAD, 0, HeadArgs(tag, pid), 0) == Out(Head(tag, pid), Done)
  {
    HeadFront(HEAD, tag, HeadArgs(tag, pid));
    HeadBack(HEAD, pid, HeadArgs(tag, pid));
    Joined(" [", tag, "] ", Decimals(Signed(pid, TWO32)), ": ");
  }

  lemma Joined(a: string, b: string, c: string, d: string, e: string)
    ensures Before(a, Before(b, Before(c, Out(d + e, Done)))) == Out(a + b + c + d + e, Done)
  {
    assert a + (b + (c + (d + e))) == a + b + c + d + e;
  }

  /** The head is short. */
  lemma HeadFits(tag: string, pid: int)
    ensures |Head(tag, pid)| <= |tag| + 27
  {
    ScratchTight(Abs(Signed(pid, TWO32)), Decimal);
  }

  predicate Blank(s: string) { forall i :: 0 <= i < |s| ==> s[i] == NUL }

  /** As much of the text as leaves room for a newline, the newline, and nothing but NULs, at
      least one, behind it. */
  ghost predicate IsLine(buf: string, p: nat, text: string) {
    && |buf| == MGX_MAX_LOG_STR_SIZE && p < |buf|
    && buf[..p] == Take(text, MGX_MAX_LOG_STR_SIZE - 2) + "\n"
    && Blank(buf[p..])
  }

  /** Newline and NUL behind the text, over its last two bytes if it fills the buffer. */
  method Terminate(buf: array<char>, end: nat, ghost before: string, ghost text: string) returns (p: nat)
    requires buf.Length == MGX_MAX_LOG_STR_SIZE
    requires Printed(before, buf[..], 0, end, buf.Length, text) && Blank(before)
    modifies buf
    ensures IsLine(buf[..], p, text)
  {
    ghost var full := buf[..];
    p := end;
    if p >= MGX_MAX_LOG_STR_SIZE - 1 {
      p := MGX_MAX_LOG_STR_SIZE - 2;
    }
    assert full[..p] == Take(text, MGX_MAX_LOG_STR_SIZE - 2);
    buf[p] := '\n';
    p := p + 1;
    buf[p] := NUL;
    assert buf[..p] == full[..p - 1] + "\n";
  }

  /** A fixed text at the beginning, then a formatted message. */
  method Message(buf: array<char>, pos: nat, fmt: string, args: seq<Arg>, ghost before: string, ghost prefix: string)
    returns (p: nat, ok: bool)
    requires buf.Length == MGX_MAX_LOG_STR_SIZE && |prefix| <= buf.Length
    requires Printed(before, buf[..], 0, pos, buf.Length, prefix) && Blank(before)
    modifies buf
    ensures ok <==> Clean(Format(fmt, 0, args, 0), MGX_MAX_LOG_STR_SIZE - |prefix|)
    ensures ok ==> IsLine(buf[..], p, prefix + Format(fmt, 0, args, 0).text)
  {
    ghost var mid, text := buf[..], Format(fmt, 0, args, 0).text;
    p, ok := VslPrintf(buf, pos, buf.Length, fmt, args);
    if ok {
      PrintedThen(before, mid, buf[..], 0, pos, p, buf.Length, prefix, text);
      p := Terminate(buf, p, before, prefix + text);
    }
  }

  /** mgx_log up to the write: ok is false exactly if the message meets an undefined step. */
  method LogLine(time: string, level: nat, pid: int, fmt: string, args: seq<Arg>) returns (buf: array<char>, p: nat, ok: bool)
    requires |time| < 64 && level < 9
    ensures fresh(buf)
    ensures var prefix, full := time + Head(LogTag(level), pid), Format(fmt, 0, args, 0);
            && |prefix| < 100
            && (ok <==> Clean(full, MGX_MAX_LOG_STR_SIZE - |prefix|))
            && (ok ==> IsLine(buf[..], p, prefix + full.text))
  {
    buf := new char[MGX_MAX_LOG_STR_SIZE](_ => NUL);
    ghost var before := buf[..];
    p := Copy(buf, 0, time);
    assert Take(time, buf.Length) == time;
    ghost var mid, pos := buf[..], p;
    ghost var head := Head(LogTag(level), pid);
    HeadText(LogTag(level), pid);
    HeadFits(LogTag(level), pid);
    p, ok := VslPrintf(buf, p, buf.Length, HEAD, HeadArgs(LogTag(level), pid));
    PrintedThen(before, mid, buf[..], 0, pos, p, buf.Length, time, head);
    p, ok := Message(buf, p, fmt, args, before, time + head);
  }

  /** mgx_log_stderr up to the write. */
  method StderrLine(fmt: string, args: seq<Arg>) returns (buf: array<char>, p: nat, ok: bool)
    ensures fresh(buf)
    ensures var full := Format(fmt, 0, args, 0);
            && (ok <==> Clean(full, MGX_MAX_LOG_STR_SIZE - 5))
            && (ok ==> IsLine(buf[..], p, STD_ERR_TAG + full.text))
  {
    buf := new char[MGX_MAX_LOG_STR_SIZE](_ => NUL);
    ghost var before := buf[..];
    p := Copy(buf, 0, STD_ERR_TAG);
    assert Take(STD_ERR_TAG, buf.Length) == STD_ERR_TAG;
    p, ok := Message(buf, p, fmt, args, before, STD_ERR_TAG);
  }

  // ---------------------------------------------------------------- the second pass

  /** What the second pass reads: the line without its newline, and the NULs behind it. */
  function Again(text: string): (mem: string)
    ensures |mem| == MGX_MAX_LOG_STR_SIZE
  {
    var line := Take(text, MGX_MAX_LOG_STR_SIZE - 2);
    line + Repeat(NUL, MGX_MAX_LOG_STR_SIZE - |line|)
  }

  /** At the lowest level, and in debug mode at every level, the newline of the finished line
      is overwritten and the buffer given to mgx_log_stderr as its format, with no arguments. */
  method Echo(buf: array<char>, p: nat, ghost text: string) returns (out: array<char>, q: nat, ok: bool)
    requires IsLine(buf[..], p, text)
    modifies buf
    ensures var full := Format(Again(text), 0, [], 0);
            && (ok <==> Clean(full, MGX_MAX_LOG_STR_SIZE - 5))
            && (ok ==> IsLine(out[..], q, STD_ERR_TAG + full.text))
  {
    ghost var was := buf[..];
    buf[p - 1] := NUL;
    AgainIs(was, buf[..], p, text);
    out, q, ok := StderrLine(buf[..], []);
  }

  lemma AgainIs(was: string, now: string, p: nat, text: string)
    requires IsLine(was, p, text) && now == was[p - 1 := NUL]
    ensures now == Again(text)
  {
    var line := Take(text, MGX_MAX_LOG_STR_SIZE - 2);
    forall i | 0 <= i < |now| ensures now[i] == Again(text)[i] {
      if i < p - 1 {
        assert was[..p][i] == line[i];
      } else if i >= p {
        assert was[p..][i - p] == NUL;
      }
    }
  }

  /** The directive at i takes an argument, for a '*' or for its conversion. */
  predicate Wants(mem: string, i: nat) {
    var d := Directive(mem, i + 1, [], 0);
    d.Missing? || TakesArg(At(mem, d.next))
  }

  /** Where the format goes on behind a directive without arguments. */
  function After(mem: string, i: nat): (j: nat)
    requires i < |mem|
    ensures j > i
  {
    var d := Directive(mem, i + 1, [], 0);
    if d.Scanned? then d.next + 1 else i + 1
  }

  datatype Want = Nowhere | Behind(n: nat)

  function More(w: Want): (r: Want) { if w.Behind? then Behind(w.n + 1) else Nowhere }

  /** How many characters and directives without arguments come before the first directive
      that takes one. */
  function FirstWant(mem: string, i: nat): (w: Want)
    decreases |mem| - i
  {
    if At(mem, i) == NUL then Nowhere
    else if At(mem, i) != '%' then More(FirstWant(mem, i + 1))
    else if Wants(mem, i) then Behind(0)
    else More(FirstWant(mem, After(mem, i)))
  }

  /** Two NULs stand behind n. */
  ghost predicate Ends(mem: string, n: nat) {
    n + 2 <= |mem| && (forall i :: 0 <= i < n ==> mem[i] != NUL) && forall i :: n <= i < |mem| ==> mem[i] == NUL
  }

  lemma {:induction false} ScanStops(mem: string, i: nat, acc: nat, n: nat)
    requires Ends(mem, n) && i <= n
    ensures Digits64(mem, i, acc).1 <= n
    decreases n - i
  {
    if IsDigit(At(mem, i)) {
      ScanStops(mem, i + 1, Shifted(acc, At(mem, i)), n);
    }
  }

  lemma {:induction false} FlagsStop(mem: string, i: nat, sp: Spec, n: nat)
    requires Ends(mem, n) && i <= n
    ensures Flags(mem, i, sp, [], 0).Scanned? ==> Flags(mem, i, sp, [], 0).next <= n && Flags(mem, i, sp, [], 0).k == 0
    decreases n - i
  {
    var c := At(mem, i);
    if c == 'u' {
      FlagsStop(mem, i + 1, sp.(signed := false), n);
    } else if c == 'X' {
      FlagsStop(mem, i + 1, sp.(signed := false, radix := UpperHex), n);
    } else if c == 'x' {
      FlagsStop(mem, i + 1, sp.(signed := false, radix := LowerHex), n);
    } else if c == '.' {
      ScanStops(mem, i + 1, 0, n);
    }
  }

  lemma DirectiveStops(mem: string, i: nat, n: nat)
    requires Ends(mem, n) && i <= n
    ensures Directive(mem, i, [], 0).Scanned? ==> Directive(mem, i, [], 0).next <= n && Directive(mem, i, [], 0).k == 0
  {
    ScanStops(mem, i, 0, n);
    var w := Digits64(mem, i, 0);
    FlagsStop(mem, w.1, Spec(if At(mem, i) == '0' then '0' else ' ', w.0, true, Decimal, 0, UNSET), n);
  }

  /** Without arguments a directive prints one character, or is undefined. */
  lemma EchoedDirective(mem: string, i: nat, n: nat)
    requires Ends(mem, n) && i < n && mem[i] == '%'
    ensures var p := Percent(mem, i, [], 0);
            && After(mem, i) <= n + 1
            && (Wants(mem, i) ==> p.out == Out("", Undefined(0)) && p.next < |mem|)
            && (!Wants(mem, i) ==> p.out.stop.Done? && |p.out.text| == 1 && p.next == After(mem, i) && p.k == 0)
  {
    DirectiveStops(mem, i + 1, n);
  }

  ghost predicate StopsAt(full: Out, w: Want) { full.stop == if w.Nowhere? then Done else Undefined(w.n) }

  lemma {:induction false} EchoStops(mem: string, i: nat, n: nat)
    requires Ends(mem, n) && i <= n + 1
    ensures StopsAt(Format(mem, i, [], 0), FirstWant(mem, i))
    decreases n + 1 - i
  {
    if i < n {
      if mem[i] != '%' {
        EchoStops(mem, i + 1, n);
      } else {
        EchoedDirective(mem, i, n);
        if !Wants(mem, i) {
          EchoStops(mem, After(mem, i), n);
        }
      }
    }
  }

  /** The second pass over a line without NULs meets an undefined step exactly if some
      directive in it takes an argument and fewer characters and directives come before it
      than there is room.  A directive cut off by the end of the line is harmless. */
  lemma EchoIsSafe(text: string, room: nat)
    requires NUL !in Take(text, MGX_MAX_LOG_STR_SIZE - 2)
    ensures var w := FirstWant(Again(text), 0);
            Clean(Format(Again(text), 0, [], 0), room) <==> (w.Behind? ==> room <= w.n)
  {
    var line := Take(text, MGX_MAX_LOG_STR_SIZE - 2);
    assert Ends(Again(text), |line|);
    EchoStops(Again(text), 0, |line|);
  }

  /** Plain text and a lone percent sign: nothing happens but a NUL more in the output. */
  lemma EchoedLonePercent(s: string)
    requires |s| + 1 <= MGX_MAX_LOG_STR_SIZE - 2 && forall m :: 0 <= m < |s| ==> s[m] != NUL && s[m] != '%'
    ensures Format(Again(s + "%"), 0, [], 0) == Out(s + [NUL], Done)
  {
    var mem := Again(s + "%");
    PlainRun(mem, 0, |s|, [], 0);
    assert mem[0..|s|] == s;
    LonePercent(mem, |s|, []);
    assert Format(mem, |s| + 2, [], 0) == Out("", Done);
    assert s + ([NUL] + "") == s + [NUL];
  }

  /** Bytes of a peer that get into a line make it undefined: plain text, then '%' and any
      conversion that takes an argument. */
  lemma EchoedPercent(s: string, c: char, rest: string, room: nat)
    requires TakesArg(c) && |s| + 2 <= MGX_MAX_LOG_STR_SIZE - 2 && forall m :: 0 <= m < |s| ==> s[m] != NUL && s[m] != '%'
    ensures Clean(Format(Again(s + ("%" + [c] + rest)), 0, [], 0), room) <==> room <= |s|
  {
    var mem := Again(s + ("%" + [c] + rest));
    PlainRun(mem, 0, |s|, [], 0);
    assert mem[0..|s|] == s && mem[|s|] == '%' && mem[|s| + 1] == c;
    ArgumentMissing(mem, |s|);
  }

  lemma ArgumentMissing(mem: string, i: nat)
    requires i + 2 < |mem| && mem[i] == '%' && TakesArg(mem[i + 1])
    ensures Format(mem, i, [], 0) == Out("", Undefined(0))
  {
    OneLetter(mem, i + 1, [], 0);
  }
}
