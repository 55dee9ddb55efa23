/**
 The bounded formatter mgx_vslprintf of app/mgx_printf.cpp.  Format says what would be
 printed without any bound; the methods below it move through a buffer of limited room as
 the code does.

 The format is given as the memory that can be read behind the pointer: for a C string that
 is its characters and the NUL, for a buffer all of it.
 */
module Printf {
  import opened CStrings
  import opened Digits
  import opened FixedPoint
  import Doubles

  const LF: char := '\n'
  const TWO32: nat := 0x1_0000_0000
  const UNSET: nat := TWO64 - 1

  /** An argument behind the ellipsis: an integer, a pointer to readable memory, a null
      pointer, or a double. */
  datatype Arg = Num(v: int) | Str(mem: string) | Null | Dbl(x: Doubles.Double)

  /** What the characters between '%' and the conversion set. */
  datatype Spec = Spec(zero: char, width: nat, signed: bool, radix: Radix, frac: nat, slen: nat)

  /** A directive read up to its conversion character at next; k arguments are used up. */
  datatype Scan = Scanned(spec: Spec, next: nat, k: nat) | Missing

  /** What a conversion prints. */
  datatype Item =
    | One(c: char)
    | CString(mem: string)
    | Memory(mem: string, len: nat)
    | Number(neg: bool, n: nat, zero: char, radix: Radix, width: nat)
    | Fixed(neg: bool, x: real, zero: char, width: nat, frac: nat)
    | Bad

  /** How formatting ends: at the end of the format, or at a step that is undefined.  That
      step is reached as soon as there is more room than the limit. */
  datatype Stop = Done | Undefined(limit: int)

  datatype Out = Out(text: string, stop: Stop)

  // ---------------------------------------------------------------- reading the format

  function At(fmt: string, i: nat): (c: char)
    ensures c != NUL ==> i < |fmt|
  {
    if i < |fmt| then fmt[i] else NUL
  }

  predicate IsDigit(c: char) { '0' <= c <= '9' }

  /** Decimal digits from i on, in a machine word. */
  function Digits64(fmt: string, i: nat, acc: nat): (r: (nat, nat))
    ensures r.1 >= i && !IsDigit(At(fmt, r.1))
    ensures i <= |fmt| ==> r.1 <= |fmt|
    decreases |fmt| - i
  {
    if IsDigit(At(fmt, i)) then Digits64(fmt, i + 1, Shifted(acc, At(fmt, i))) else (acc, i)
  }

  function Shifted(acc: nat, c: char): (n: nat)
    requires IsDigit(c)
  {
    (acc * 10 + (c as int - '0' as int)) % TWO64
  }

  function Flags(fmt: string, i: nat, sp: Spec, args: seq<Arg>, k: nat): (r: Scan)
    ensures r.Scanned? && i <= |fmt| ==> i <= r.next <= |fmt|
    decreases |fmt| - i
  {
    var c := At(fmt, i);
    if c == 'u' then Flags(fmt, i + 1, sp.(signed := false), args, k)
    else if c == 'X' then Flags(fmt, i + 1, sp.(signed := false, radix := UpperHex), args, k)
    else if c == 'x' then Flags(fmt, i + 1, sp.(signed := false, radix := LowerHex), args, k)
    else if c == '.' then
      var r := Digits64(fmt, i + 1, 0);
      Scanned(sp.(frac := r.0), r.1, k)
    else if c == '*' then
      if k < |args| && args[k].Num? then
        Flags(fmt, i + 1, sp.(slen := args[k].v % TWO64), args, k + 1)
      else Missing
    else Scanned(sp, i, k)
  }

  /** The directive whose '%' stands just before i. */
  function Directive(fmt: string, i: nat, args: seq<Arg>, k: nat): (r: Scan)
    ensures r.Scanned? && i <= |fmt| ==> i <= r.next <= |fmt|
  {
    var w := Digits64(fmt, i, 0);
    Flags(fmt, w.1, Spec(if At(fmt, i) == '0' then '0' else ' ', w.0, true, Decimal, 0, UNSET), args, k)
  }

  // ---------------------------------------------------------------- the conversions

  function Unsigned(v: int, size: nat): (n: nat)
    requires size == TWO32 || size == TWO64
    ensures n < size && (0 <= v < size ==> n == v)
  {
    v % size
  }

  function Signed(v: int, size: nat): (n: int)
    requires size == TWO32 || size == TWO64
    ensures 0 - size / 2 <= n < size / 2 && (0 - size / 2 <= v < size / 2 ==> n == v)
  {
    var u := v % size;
    if u >= size / 2 then u - size else u
  }

  /** The conversions that print an integer as a number. */
  predicate IsInteger(c: char) {
    c == 'O' || c == 'P' || c == 'T' || c == 'M' || c == 'z' || c == 'i' || c == 'd' || c == 'l' || c == 'D' || c == 'L'
  }

  predicate TakesArg(c: char) { IsInteger(c) || c == 's' || c == 'f' || c == 'p' || c == 'c' }

  function SizeOf(c: char): (n: nat)
    ensures n == TWO32 || n == TWO64
  {
    if c == 'P' || c == 'i' || c == 'd' || c == 'D' then TWO32 else TWO64
  }

  /** The number an integer conversion reads from its argument. */
  function Loaded(c: char, signed: bool, v: int): (n: int)
    ensures 0 - TWO64 / 2 <= n < TWO64
  {
    var s := if c == 'O' || c == 'P' || c == 'T' then true else if c == 'M' then v % TWO64 == TWO64 - 1 else signed;
    if s then Signed(v, SizeOf(c)) else Unsigned(v, SizeOf(c))
  }

  function Abs(n: int): (m: nat) { if n < 0 then -n else n }

  /** The item of conversion c with the given argument. */
  function ConvertArg(c: char, sp: Spec, a: Arg): (r: Item)
    ensures Ready(r)
  {
    if c == 's' then
      if !a.Str? then Bad else if sp.slen == UNSET then CString(a.mem) else Memory(a.mem, sp.slen)
    else if c == 'f' then
      if !a.Dbl? || Doubles.Magnitude(a.x).Floor >= TWO64 / 2 then Bad
      else Fixed(a.x < 0.0, Doubles.Magnitude(a.x), sp.zero, sp.width, sp.frac)
    else if c == 'p' && a.Null? then Number(false, 0, '0', UpperHex, 16)
    else if !a.Num? then Bad
    else if c == 'c' then One((a.v % 256) as char)
    else if c == 'p' then Number(false, Unsigned(a.v, TWO64), '0', UpperHex, 16)
    else
      var n := Loaded(c, sp.signed, a.v);
      Number(n < 0, Abs(n), sp.zero, sp.radix, sp.width)
  }

  function Convert(c: char, sp: Spec, args: seq<Arg>, k: nat): (r: Item)
    ensures Ready(r)
  {
    if TakesArg(c) then (if k < |args| then ConvertArg(c, sp, args[k]) else Bad)
    else if c == 'Z' then One(NUL)
    else if c == 'N' then One(LF)
    else One(c)
  }

  function Next(c: char, k: nat): (n: nat) { if TakesArg(c) then k + 1 else k }

  /** What the printing steps need: values that fit a machine word. */
  predicate Ready(t: Item) {
    match t
    case Number(_, n, _, _, _) => n < TWO64
    case Fixed(_, x, _, _, _) => x >= 0.0 && Doubles.IsDouble(x) && x.Floor < TWO64 / 2
    case _ => true
  }

  // ---------------------------------------------------------------- the unbounded output

  function Minus(neg: bool): (s: string) { if neg then "-" else "" }

  function FixedText(neg: bool, r: (nat, nat), zero: char, width: nat, frac: nat): (s: string) {
    Minus(neg) + Padded(r.0, zero, Decimal, width) + if frac == 0 then "" else "." + Padded(r.1, '0', Decimal, frac)
  }

  function Text(t: Item): (r: Out)
    requires Ready(t)
    ensures r.stop.Undefined? ==> 0 <= r.stop.limit <= |r.text|
  {
    match t
    case One(c) => Out([c], Done)
    case CString(mem) =>
      var s := UpToNul(mem);
      Out(s, if |s| < |mem| then Done else if s == "" then Undefined(0) else Undefined(|s| - 1))
    case Memory(mem, len) => if len <= |mem| then Out(mem[..len], Done) else Out(mem, Undefined(|mem|))
    case Number(neg, n, zero, radix, width) => Out(Minus(neg) + Padded(n, zero, radix, width), Done)
    case Fixed(neg, x, zero, width, frac) => Out(FixedText(neg, Split(x, frac), zero, width, frac), Done)
    case Bad => Out("", Undefined(0))
  }

  /** s, then r.  An undefined step right behind s that needs no room is reached as soon as s
      is begun. */
  function Before(s: string, r: Out): (o: Out)
    ensures o.text == s + r.text && (o.stop.Done? <==> r.stop.Done?)
  {
    Out(s + r.text, if r.stop.Done? then Done else Undefined(if r.stop.limit < 0 then 0 else |s| + r.stop.limit))
  }

  /** What one directive prints, where the format goes on, and with which argument. */
  datatype Piece = Piece(out: Out, next: nat, k: nat)

  /** The directive whose '%' stands at i.  Its conversion character may be a NUL, which is
      printed like any other. */
  function Percent(fmt: string, i: nat, args: seq<Arg>, k: nat): (p: Piece)
    requires At(fmt, i) == '%'
    ensures p.out.stop.Undefined? ==> 0 <= p.out.stop.limit <= |p.out.text|
    ensures i < p.next <= |fmt|
  {
    var d := Directive(fmt, i + 1, args, k);
    if d.Missing? || d.next >= |fmt| then Piece(Out("", Undefined(0)), i + 1, k)
    else
      var conv := At(fmt, d.next);
      Piece(Text(Convert(conv, d.spec, args, d.k)), d.next + 1, Next(conv, d.k))
  }

  /** What is printed for the format from i on, with the arguments from k on.  Looking at the
      format behind the readable memory is undefined and needs no room. */
  function Format(fmt: string, i: nat, args: seq<Arg>, k: nat): (r: Out)
    ensures r.stop.Undefined? ==> (r.stop.limit < 0 <==> i >= |fmt|) && -1 <= r.stop.limit <= |r.text|
    ensures i >= |fmt| ==> r == Out("", Undefined(-1))
    decreases |fmt| - i
  {
    var c := At(fmt, i);
    if i >= |fmt| then Out("", Undefined(-1))
    else if c == NUL then Out("", Done)
    else if c != '%' then Before([c], Format(fmt, i + 1, args, k))
    else
      var p := Percent(fmt, i, args, k);
      if p.out.stop.Done? then Before(p.out.text, Format(fmt, p.next, args, p.k))
      else if p.next < |fmt| then p.out
      else Out(p.out.text, Undefined(0))
  }

  /** Whether formatting into so much room stays clear of undefined steps. */
  predicate Clean(full: Out, room: nat) { full.stop.Done? || room <= full.stop.limit }

  // ---------------------------------------------------------------- the scanning loops

  method ScanDigits(fmt: string, i: nat) returns (n: nat, j: nat)
    ensures (n, j) == Digits64(fmt, i, 0)
  {
    n, j := 0, i;
    while IsDigit(At(fmt, j))
      invariant Digits64(fmt, i, 0) == Digits64(fmt, j, n)
      decreases |fmt| - j
    {
      n, j := Shifted(n, At(fmt, j)), j + 1;
    }
  }

  /** The for (;;) loop over the flags. */
  method ScanFlags(fmt: string, i: nat, sp: Spec, args: seq<Arg>, k: nat) returns (r: Scan)
    ensures r == Flags(fmt, i, sp, args, k)
  {
    var j: nat, s, m: nat := i, sp, k;
    while true
      invariant Flags(fmt, i, sp, args, k) == Flags(fmt, j, s, args, m)
      decreases |fmt| - j
    {
      match At(fmt, j)
      case 'u' =>
        s := s.(signed := false);
        j := j + 1;
      case 'X' =>
        s := s.(signed := false, radix := UpperHex);
        j := j + 1;
      case 'x' =>
        s := s.(signed := false, radix := LowerHex);
        j := j + 1;
      case '.' =>
        var n, e := ScanDigits(fmt, j + 1);
        return Scanned(s.(frac := n), e, m);
      case '*' =>
        if !(m < |args| && args[m].Num?) {
          return Missing;
        }
        s := s.(slen := args[m].v % TWO64);
        j, m := j + 1, m + 1;
      case _ =>
        return Scanned(s, j, m);
    }
  }

  // ---------------------------------------------------------------- the printing loops

  /** The loop of '%s': stops at the NUL or at the end of the room, and reads one byte
      more than it prints. */
  method EmitCString(buf: array<char>, pos: nat, last: nat, mem: string) returns (end: nat, ok: bool)
    requires pos <= last <= buf.Length
    modifies buf
    ensures ok == (|UpToNul(mem)| < |mem| || |mem| > last - pos)
    ensures Printed(old(buf[..]), buf[..], pos, end, last, UpToNul(mem))
  {
    ghost var before, s := buf[..], UpToNul(mem);
    end := pos;
    var p := 0;
    while p < |mem| && mem[p] != NUL && end < last
      invariant p <= |s| && end == pos + p <= last
      invariant Wrote(before, buf[..], pos, s[..p])
    {
      ghost var mid := buf[..];
      end := PutChar(buf, end, mem[p]);
      WroteThen(before, mid, buf[..], pos, s[..p], [mem[p]]);
      assert s[..p + 1] == s[..p] + [mem[p]];
      p := p + 1;
    }
    ok := p < |mem|;
    assert s[..p] == Take(s, last - pos);
  }

  /** A minus sign is written without a check. */
  method EmitMinus(buf: array<char>, pos: nat, last: nat, neg: bool) returns (end: nat)
    requires pos < last <= buf.Length
    modifies buf
    ensures Printed(old(buf[..]), buf[..], pos, end, last, Minus(neg))
  {
    end := pos;
    if neg {
      end := PutChar(buf, end, '-');
    }
    assert Take(Minus(neg), last - pos) == Minus(neg);
  }

  method EmitNumber(buf: array<char>, pos: nat, last: nat, neg: bool, n: nat, zero: char, radix: Radix, width: nat)
    returns (end: nat)
    requires pos < last <= buf.Length && n < TWO64
    modifies buf
    ensures Printed(old(buf[..]), buf[..], pos, end, last, Minus(neg) + Padded(n, zero, radix, width))
  {
    ghost var before := buf[..];
    end := EmitMinus(buf, pos, last, neg);
    ghost var mid, signed := buf[..], end;
    end := SprintfNum(buf, end, last, n, zero, radix, width);
    PrintedThen(before, mid, buf[..], pos, signed, end, last, Minus(neg), Padded(n, zero, radix, width));
  }

  /** The loop that computes scale. */
  method ScaleLoop(frac: nat) returns (s: nat)
    ensures s == Scale64(frac)
  {
    s := 1;
    for n := 0 to frac
      invariant s == Scale64(n)
    {
      s := s * 10 % TWO64;
    }
  }

  method EmitFraction(buf: array<char>, pos: nat, last: nat, f: nat, frac: nat) returns (end: nat)
    requires pos <= last <= buf.Length && f < TWO64
    modifies buf
    ensures Printed(old(buf[..]), buf[..], pos, end, last, "." + Padded(f, '0', Decimal, frac))
  {
    ghost var before := buf[..];
    end := pos;
    if end < last {
      end := PutChar(buf, end, '.');
    }
    ghost var mid, dotted := buf[..], end;
    assert Take(".", last - pos) == if pos < last then "." else "";
    end := SprintfNum(buf, end, last, f, '0', Decimal, frac);
    PrintedThen(before, mid, buf[..], pos, dotted, end, last, ".", Padded(f, '0', Decimal, frac));
  }

  method SplitStep(x: real, frac: nat) returns (whole: nat, f: nat)
    requires x >= 0.0 && Doubles.IsDouble(x)
    ensures (whole, f) == Split(x, frac)
  {
    whole, f := x.Floor, 0;
    if frac != 0 {
      var s := ScaleLoop(frac);
      f := Fraction(x, s);
      if f == s {
        whole, f := whole + 1, 0;
      }
    }
  }

  method EmitFixed(buf: array<char>, pos: nat, last: nat, neg: bool, whole: nat, f: nat, zero: char, width: nat, frac: nat)
    returns (end: nat)
    requires pos < last <= buf.Length && whole < TWO64 && f < TWO64
    modifies buf
    ensures Printed(old(buf[..]), buf[..], pos, end, last, FixedText(neg, (whole, f), zero, width, frac))
  {
    ghost var before := buf[..];
    ghost var front, tail := Minus(neg) + Padded(whole, zero, Decimal, width), "";
    end := EmitNumber(buf, pos, last, neg, whole, zero, Decimal, width);
    ghost var mid, point := buf[..], end;
    if frac != 0 {
      tail := "." + Padded(f, '0', Decimal, frac);
      end := EmitFraction(buf, end, last, f, frac);
    }
    PrintedThen(before, mid, buf[..], pos, point, end, last, front, tail);
  }

  /** One conversion. */
  method Emit(buf: array<char>, pos: nat, last: nat, t: Item) returns (end: nat, ok: bool)
    requires pos < last <= buf.Length && Ready(t)
    modifies buf
    ensures ok == Clean(Text(t), last - pos)
    ensures ok ==> Printed(old(buf[..]), buf[..], pos, end, last, Text(t).text)
    ensures forall i :: 0 <= i < buf.Length && !(pos <= i < last) ==> buf[i] == old(buf[i])
  {
    end, ok := pos, true;
    match t
    case One(c) =>
      end := PutChar(buf, pos, c);
      assert Take([c], last - pos) == [c];
    case CString(mem) =>
      end, ok := EmitCString(buf, pos, last, mem);
    case Memory(mem, len) =>
      var n := if last - pos > len then len else last - pos;
      if n > |mem| {
        ok := false;
      } else {
        end := Copy(buf, pos, mem[..n]);
        assert mem[..n] == Take(Text(t).text, last - pos);
      }
    case Number(neg, n, zero, radix, width) =>
      end := EmitNumber(buf, pos, last, neg, n, zero, radix, width);
    case Fixed(neg, x, zero, width, frac) =>
      var whole, f := SplitStep(x, frac);
      end := EmitFixed(buf, pos, last, neg, whole, f, zero, width, frac);
    case Bad =>
      ok := false;
  }

  lemma BeforeBefore(s: string, t: string, r: Out)
    requires r.stop.Done? || r.stop.limit >= 0
    ensures Before(s, Before(t, r)) == Before(s + t, r)
  {
    assert s + (t + r.text) == s + t + r.text;
  }

  lemma BeforeNothing(r: Out)
    requires r.stop.Done? || r.stop.limit >= 0
    ensures Before("", r) == r
  {
    assert "" + r.text == r.text;
  }

  function Left(room: nat, text: string): (n: nat) { if |text| >= room then 0 else room - |text| }

  /** rest is what full has behind text, as far as the room goes. */
  ghost predicate Follows(full: Out, text: string, rest: Out, room: nat) {
    full.text == text + rest.text && (Clean(full, room) <==> Clean(rest, Left(room, text)))
  }

  lemma FollowsThen(full: Out, text: string, s: string, r: Out, room: nat)
    requires Follows(full, text, Before(s, r), room) && |text| < room && (r.stop.Undefined? ==> r.stop.limit >= -1)
    ensures Follows(full, text + s, r, room)
  {
    assert text + (s + r.text) == text + s + r.text;
  }

  /** What has been printed so far is all of the output, or all of it that there is room for. */
  ghost predicate Progress(full: Out, text: string, room: nat, fmt: string, i: nat, args: seq<Arg>, k: nat) {
    || Follows(full, text, Format(fmt, i, args, k), room)
    || (i < |fmt| && |text| >= room && Clean(full, room) && Take(full.text, room) == Take(text, room))
  }

  lemma Finish(full: Out, text: string, room: nat, fmt: string, i: nat, args: seq<Arg>, k: nat)
    requires Progress(full, text, room, fmt, i, args, k)
    requires i < |fmt| ==> At(fmt, i) == NUL || |text| >= room
    ensures i < |fmt| ==> Clean(full, room) && Take(full.text, room) == Take(text, room)
    ensures i >= |fmt| ==> !Clean(full, room)
  {
    if i < |fmt| && Follows(full, text, Format(fmt, i, args, k), room) {
      var rest := Format(fmt, i, args, k).text;
      assert |text| >= room ==> Take(text + rest, room) == Take(text, room);
      assert rest == "" ==> text + rest == text;
    }
  }

  /** One directive more. */
  lemma Converted(full: Out, text: string, room: nat, fmt: string, i: nat, args: seq<Arg>, k: nat)
    requires Progress(full, text, room, fmt, i, args, k) && |text| < room && At(fmt, i) == '%'
    ensures var p := Percent(fmt, i, args, k);
            if Clean(p.out, room - |text|) then Progress(full, text + p.out.text, room, fmt, p.next, args, p.k)
            else !Clean(full, room)
  {
    var p := Percent(fmt, i, args, k);
    if p.out.stop.Done? {
      FollowsThen(full, text, p.out.text, Format(fmt, p.next, args, p.k), room);
    } else {
      assert text + p.out.text + "" == text + p.out.text;
    }
  }

  /** The zero, width and flags of one directive. */
  method ScanDirective(fmt: string, i: nat, args: seq<Arg>, k: nat) returns (r: Scan)
    ensures r == Directive(fmt, i, args, k)
  {
    var zero := if At(fmt, i) == '0' then '0' else ' ';
    var width, j := ScanDigits(fmt, i);
    r := ScanFlags(fmt, j, Spec(zero, width, true, Decimal, 0, UNSET), args, k);
  }

  /** Nothing outside [pos, last) differs. */
  ghost predicate Within(before: string, after: string, pos: nat, last: nat) {
    |before| == |after| && forall i :: 0 <= i < |after| && !(pos <= i < last) ==> after[i] == before[i]
  }

  /** One directive, as far as there is room. */
  method EmitDirective(buf: array<char>, pos: nat, last: nat, fmt: string, i: nat, args: seq<Arg>, k: nat)
    returns (end: nat, ok: bool, j: nat, m: nat)
    requires pos < last <= buf.Length && At(fmt, i) == '%'
    modifies buf
    ensures pos <= end <= last && Within(old(buf[..]), buf[..], pos, last)
    ensures ok <==> Clean(Percent(fmt, i, args, k).out, last - pos)
    ensures ok ==> Printed(old(buf[..]), buf[..], pos, end, last, Percent(fmt, i, args, k).out.text)
    ensures ok ==> j == Percent(fmt, i, args, k).next && m == Percent(fmt, i, args, k).k
  {
    end, ok, j, m := pos, false, i, k;
    var d := ScanDirective(fmt, i + 1, args, k);
    if d.Scanned? && d.next < |fmt| {
      var c := At(fmt, d.next);
      end, ok := Emit(buf, pos, last, Convert(c, d.spec, args, d.k));
      j, m := d.next + 1, Next(c, d.k);
      if !ok {
        end := pos;
      }
    }
  }

  /** The '%' branch of the loop. */
  method PrintDirective(buf: array<char>, pos: nat, last: nat, fmt: string, i: nat, args: seq<Arg>, k: nat,
                        ghost full: Out, ghost text: string, ghost room: nat)
    returns (end: nat, ok: bool, j: nat, m: nat, ghost piece: string)
    requires pos < last <= buf.Length && At(fmt, i) == '%'
    requires Progress(full, text, room, fmt, i, args, k) && room == |text| + (last - pos)
    modifies buf
    ensures pos <= end <= last && Within(old(buf[..]), buf[..], pos, last)
    ensures !ok ==> !Clean(full, room)
    ensures ok ==> Progress(full, text + piece, room, fmt, j, args, m) && i < j <= |fmt|
    ensures ok ==> Printed(old(buf[..]), buf[..], pos, end, last, piece)
  {
    Converted(full, text, room, fmt, i, args, k);
    piece := Percent(fmt, i, args, k).out.text;
    end, ok, j, m := EmitDirective(buf, pos, last, fmt, i, args, k);
  }

  /** The plain branch of the loop. */
  method PrintPlain(buf: array<char>, pos: nat, last: nat, fmt: string, i: nat, ghost args: seq<Arg>, ghost k: nat,
                    ghost full: Out, ghost text: string, ghost room: nat)
    returns (end: nat)
    requires pos < last <= buf.Length && At(fmt, i) != NUL && At(fmt, i) != '%'
    requires Progress(full, text, room, fmt, i, args, k) && room == |text| + (last - pos)
    modifies buf
    ensures Printed(old(buf[..]), buf[..], pos, end, last, [At(fmt, i)])
    ensures Progress(full, text + [At(fmt, i)], room, fmt, i + 1, args, k)
  {
    FollowsThen(full, text, [At(fmt, i)], Format(fmt, i + 1, args, k), room);
    assert Take([At(fmt, i)], last - pos) == [At(fmt, i)];
    end := PutChar(buf, pos, At(fmt, i));
  }

  /** One turn of the loop. */
  method PrintPiece(buf: array<char>, pos: nat, last: nat, fmt: string, i: nat, args: seq<Arg>, k: nat,
                    ghost full: Out, ghost text: string, ghost room: nat)
    returns (end: nat, ok: bool, j: nat, m: nat, ghost piece: string)
    requires pos < last <= buf.Length && At(fmt, i) != NUL
    requires Progress(full, text, room, fmt, i, args, k) && room == |text| + (last - pos)
    modifies buf
    ensures pos <= end <= last && Within(old(buf[..]), buf[..], pos, last)
    ensures !ok ==> !Clean(full, room)
    ensures ok ==> Progress(full, text + piece, room, fmt, j, args, m) && i < j <= |fmt|
    ensures ok ==> Printed(old(buf[..]), buf[..], pos, end, last, piece)
  {
    if At(fmt, i) == '%' {
      end, ok, j, m, piece := PrintDirective(buf, pos, last, fmt, i, args, k, full, text, room);
    } else {
      end := PrintPlain(buf, pos, last, fmt, i, args, k, full, text, room);
      ok, j, m, piece := true, i + 1, k, [At(fmt, i)];
    }
  }

  /** mgx_vslprintf: exactly the first bytes of the unbounded output, and ok is false
      exactly when a step with undefined effect is reached. */
  method VslPrintf(buf: array<char>, pos: nat, last: nat, fmt: string, args: seq<Arg>) returns (end: nat, ok: bool)
    requires pos <= last <= buf.Length
    modifies buf
    ensures pos <= end <= last && Within(old(buf[..]), buf[..], pos, last)
    ensures ok <==> Clean(Format(fmt, 0, args, 0), last - pos)
    ensures ok ==> Printed(old(buf[..]), buf[..], pos, end, last, Format(fmt, 0, args, 0).text)
  {
    ghost var before, full, text, room := buf[..], Format(fmt, 0, args, 0), "", last - pos;
    var i: nat, k: nat := 0, 0;
    end, ok := pos, true;
    assert Take(text, room) == "";
    while At(fmt, i) != NUL && end < last
      invariant Printed(before, buf[..], pos, end, last, text)
      invariant Progress(full, text, room, fmt, i, args, k)
      decreases |fmt| - i
    {
      ghost var mid, was, piece := buf[..], end, "";
      end, ok, i, k, piece := PrintPiece(buf, end, last, fmt, i, args, k, full, text, room);
      if !ok {
        return;
      }
      PrintedThen(before, mid, buf[..], pos, was, end, last, text, piece);
      text := text + piece;
    }
    Finish(full, text, room, fmt, i, args, k);
    ok := i < |fmt|;
  }

  // ---------------------------------------------------------------- when formatting is defined

  /** The argument suits the conversion: a number; a C string with its NUL, or with '*' at
      least the given number of bytes; a double whose whole part is a 64-bit integer. */
  predicate Suits(c: char, sp: Spec, a: Arg) {
    if c == 's' then a.Str? && if sp.slen == UNSET then NUL in a.mem else sp.slen <= |a.mem|
    else if c == 'f' then a.Dbl? && -9223372036854775808.0 < a.x < 9223372036854775808.0
    else a.Num? || (c == 'p' && a.Null?)
  }

  /** The format ends inside the readable memory, and every directive finds an argument that suits it. */
  predicate WellTyped(fmt: string, i: nat, args: seq<Arg>, k: nat)
    decreases |fmt| - i
  {
    var c := At(fmt, i);
    if i >= |fmt| then false
    else if c == NUL then true
    else if c != '%' then WellTyped(fmt, i + 1, args, k)
    else
      var d := Directive(fmt, i + 1, args, k);
      && d.Scanned?
      && d.next < |fmt|
      && Supplied(At(fmt, d.next), d.spec, args, d.k)
      && WellTyped(fmt, d.next + 1, args, Next(At(fmt, d.next), d.k))
  }

  predicate Supplied(c: char, sp: Spec, args: seq<Arg>, k: nat) {
    TakesArg(c) ==> k < |args| && Suits(c, sp, args[k])
  }

  lemma FloorBound(x: real)
    ensures x.Floor >= TWO64 / 2 <==> x >= 9223372036854775808.0
  {
    assert TWO64 / 2 == 9223372036854775808;
  }

  lemma SuitsExact(c: char, sp: Spec, a: Arg)
    requires TakesArg(c)
    ensures Text(ConvertArg(c, sp, a)).stop.Done? <==> Suits(c, sp, a)
  {
    if a.Str? {
      NulFound(a.mem);
    }
    if a.Dbl? {
      FloorBound(Doubles.Magnitude(a.x));
    }
  }

  lemma PercentExact(fmt: string, i: nat, args: seq<Arg>, k: nat)
    requires At(fmt, i) == '%'
    ensures var d := Directive(fmt, i + 1, args, k);
            Percent(fmt, i, args, k).out.stop.Done? <==>
            d.Scanned? && d.next < |fmt| && Supplied(At(fmt, d.next), d.spec, args, d.k)
  {
    var d := Directive(fmt, i + 1, args, k);
    if d.Scanned? && TakesArg(At(fmt, d.next)) && d.k < |args| {
      SuitsExact(At(fmt, d.next), d.spec, args[d.k]);
    }
  }

  /** The whole format is printed without an undefined step exactly if it is well typed. */
  lemma {:induction false} DoneExactlyIfWellTyped(fmt: string, i: nat, args: seq<Arg>, k: nat)
    ensures Format(fmt, i, args, k).stop.Done? <==> WellTyped(fmt, i, args, k)
    decreases |fmt| - i
  {
    var c := At(fmt, i);
    if i < |fmt| && c != NUL && c != '%' {
      DoneExactlyIfWellTyped(fmt, i + 1, args, k);
    } else if c == '%' {
      PercentExact(fmt, i, args, k);
      var p := Percent(fmt, i, args, k);
      if p.out.stop.Done? {
        DoneExactlyIfWellTyped(fmt, p.next, args, p.k);
      }
    }
  }

  /** A call is safe in every room exactly if the format is well typed. */
  lemma SafeInEveryRoom(fmt: string, args: seq<Arg>)
    ensures (forall room: nat :: Clean(Format(fmt, 0, args, 0), room)) <==> WellTyped(fmt, 0, args, 0)
  {
    var full := Format(fmt, 0, args, 0);
    DoneExactlyIfWellTyped(fmt, 0, args, 0);
    if full.stop.Undefined? {
      assert !Clean(full, full.stop.limit + 1);
    }
  }

  /** Characters other than '%' are printed as they are. */
  lemma {:induction false} PlainRun(fmt: string, i: nat, j: nat, args: seq<Arg>, k: nat)
    requires i <= j < |fmt| && forall m :: i <= m < j ==> fmt[m] != NUL && fmt[m] != '%'
    ensures Format(fmt, i, args, k) == Before(fmt[i..j], Format(fmt, j, args, k))
    decreases j - i
  {
    if i < j {
      PlainRun(fmt, i + 1, j, args, k);
      BeforeBefore([fmt[i]], fmt[i + 1..j], Format(fmt, j, args, k));
      assert fmt[i..j] == [fmt[i]] + fmt[i + 1..j];
    } else {
      assert fmt[i..j] == "";
      BeforeNothing(Format(fmt, j, args, k));
    }
  }

  /** A '%' at the very end of a C string is such a step: the formatter prints the NUL and
      looks behind it, unless the room ends before. */
  lemma TrailingPercent(s: string, args: seq<Arg>, room: nat)
    requires forall m :: 0 <= m < |s| ==> s[m] != NUL && s[m] != '%'
    ensures Clean(Format(s + ['%', NUL], 0, args, 0), room) <==> room <= |s|
  {
    var fmt := s + ['%', NUL];
    PlainRun(fmt, 0, |s|, args, 0);
    assert fmt[0..|s|] == s;
    LonePercent(fmt, |s|, args);
  }

  /** A directive cut off by a NUL prints the NUL. */
  lemma LonePercent(fmt: string, i: nat, args: seq<Arg>)
    requires i + 1 < |fmt| && fmt[i] == '%' && fmt[i + 1] == NUL
    ensures Format(fmt, i, args, 0) == Before([NUL], Format(fmt, i + 2, args, 0))
  {
    var sp := Spec(' ', 0, true, Decimal, 0, UNSET);
    assert Digits64(fmt, i + 1, 0) == (0, i + 1);
    assert Directive(fmt, i + 1, args, 0) == Scanned(sp, i + 1, 0);
    assert Percent(fmt, i, args, 0) == Piece(Out([NUL], Done), i + 2, 0);
  }
}
