/**
 The number printer mgx_sprintf_num of app/mgx_printf.cpp: digits are produced from the
 low end into a scratch area, padded on the left, and copied as far as there is room.
 */
module Digits {

  const MGX_INT64_LEN: nat := 20
  const TWO64: nat := 0x1_0000_0000_0000_0000

  /** The three forms of the hexadecimal argument: 0, 1 and 2. */
  datatype Radix = Decimal | LowerHex | UpperHex

  function Quot(n: nat, r: Radix): (q: nat)
    ensures n > 0 ==> q < n
  {
    if r.Decimal? then n / 10 else n / 16
  }

  function Low(n: nat, r: Radix): (d: nat)
    ensures d < 16
  {
    if r.Decimal? then n % 10 else n % 16
  }

  function Scale(n: int, r: Radix): (m: int) { if r.Decimal? then 10 * n else 16 * n }

  function DigitChar(d: nat, r: Radix): (c: char)
    requires d < 16
    ensures DigitVal(c) == d
    ensures c == '0' <==> d == 0
  {
    (if r.UpperHex? then "0123456789ABCDEF" else "0123456789abcdef")[d]
  }

  function DigitVal(c: char): (d: int) {
    if '0' <= c <= '9' then c as int - '0' as int
    else if 'a' <= c <= 'f' then c as int - 'a' as int + 10
    else if 'A' <= c <= 'F' then c as int - 'A' as int + 10
    else -1
  }

  /** The digits of n, most significant first. */
  function Numeral(n: nat, r: Radix): (s: string)
    ensures |s| >= 1
    decreases n
  {
    Front(Quot(n, r), n, r) + [DigitChar(Low(n, r), r)]
  }

  /** The digits above the last one; q is what is left of n without it. */
  function Front(q: nat, n: nat, r: Radix): (s: string)
    requires q == Quot(n, r)
    decreases n, 0
  {
    if q == 0 then "" else Numeral(q, r)
  }

  /** Reading digits back. */
  function Value(s: string, r: Radix): (n: int)
    decreases |s|
  {
    if s == "" then 0 else Scale(Value(s[..|s| - 1], r), r) + DigitVal(s[|s| - 1])
  }

  lemma ValueSnoc(s: string, c: char, r: Radix)
    ensures Value(s + [c], r) == Scale(Value(s, r), r) + DigitVal(c)
  {
    assert (s + [c])[..|s|] == s;
  }

  lemma {:induction false} NumeralRoundTrip(n: nat, r: Radix)
    ensures Value(Numeral(n, r), r) == n
    decreases n
  {
    var q := Quot(n, r);
    ValueSnoc(Front(q, n, r), DigitChar(Low(n, r), r), r);
    if q > 0 {
      NumeralRoundTrip(q, r);
    }
  }

  /** The digits of the three forms: 0-9, then a-f for x and A-F for X. */
  predicate OfAlphabet(c: char, r: Radix) {
    '0' <= c <= '9' || (r.LowerHex? && 'a' <= c <= 'f') || (r.UpperHex? && 'A' <= c <= 'F')
  }

  predicate AllOf(s: string, r: Radix) { forall i :: 0 <= i < |s| ==> OfAlphabet(s[i], r) }

  lemma DigitAlphabet(d: nat, r: Radix)
    requires d < 16 && (r.Decimal? ==> d < 10)
    ensures OfAlphabet(DigitChar(d, r), r)
  {
    assert r.UpperHex? ==> DigitChar(d, r) in "0123456789ABCDEF";
    assert !r.UpperHex? ==> DigitChar(d, r) in "0123456789abcdef";
  }

  lemma {:induction false} NumeralAlphabet(n: nat, r: Radix)
    ensures AllOf(Numeral(n, r), r)
    decreases n
  {
    var q := Quot(n, r);
    DigitAlphabet(Low(n, r), r);
    if q > 0 {
      NumeralAlphabet(q, r);
    }
    assert AllOf(Front(q, n, r), r);
  }

  /** No superfluous zero, and no blank, in front. */
  lemma {:induction false} NumeralFirst(n: nat, r: Radix)
    ensures Numeral(n, r)[0] == '0' <==> n == 0
    ensures Numeral(n, r)[0] != ' '
    decreases n
  {
    if Quot(n, r) > 0 {
      NumeralFirst(Quot(n, r), r);
    }
  }

  function Pow(r: Radix, k: nat): (p: int)
    ensures p >= 1
    decreases k, r
  {
    if k == 0 then 1 else Scale(Pow(r, k - 1), r)
  }

  /** A number takes at most k digits exactly if it is below the k-th power of the base. */
  lemma {:induction false} NumeralLength(n: nat, r: Radix, k: nat)
    requires k >= 1
    ensures |Numeral(n, r)| <= k <==> n < Pow(r, k)
    decreases k
  {
    var q := Quot(n, r);
    if k == 1 {
      assert Pow(r, 1) == Scale(1, r) by { assert Pow(r, 0) == 1; }
    } else if q > 0 {
      NumeralLength(q, r, k - 1);
    } else {
      assert Pow(r, k) == Scale(Pow(r, k - 1), r) && Pow(r, k - 1) >= 1;
    }
  }

  lemma PowStep(r: Radix, k: nat, p: int)
    requires Pow(r, k) == p
    ensures Pow(r, k + 1) == Scale(p, r)
  {
  }

  lemma PowersOfTen(r: Radix)
    requires r.Decimal?
    ensures Pow(r, 19) == 10_000_000_000_000_000_000 && Pow(r, 20) == 100_000_000_000_000_000_000
  {
    PowStep(r, 0, 1);                       PowStep(r, 1, 10);
    PowStep(r, 2, 100);                     PowStep(r, 3, 1_000);
    PowStep(r, 4, 10_000);                  PowStep(r, 5, 100_000);
    PowStep(r, 6, 1_000_000);               PowStep(r, 7, 10_000_000);
    PowStep(r, 8, 100_000_000);             PowStep(r, 9, 1_000_000_000);
    PowStep(r, 10, 10_000_000_000);         PowStep(r, 11, 100_000_000_000);
    PowStep(r, 12, 1_000_000_000_000);      PowStep(r, 13, 10_000_000_000_000);
    PowStep(r, 14, 100_000_000_000_000);    PowStep(r, 15, 1_000_000_000_000_000);
    PowStep(r, 16, 10_000_000_000_000_000); PowStep(r, 17, 100_000_000_000_000_000);
    PowStep(r, 18, 1_000_000_000_000_000_000);
    PowStep(r, 19, 10_000_000_000_000_000_000);
  }

  lemma PowersOfSixteen(r: Radix)
    requires !r.Decimal?
    ensures Pow(r, 16) == TWO64
  {
    PowStep(r, 0, 1);                        PowStep(r, 1, 0x10);
    PowStep(r, 2, 0x100);                    PowStep(r, 3, 0x1000);
    PowStep(r, 4, 0x1_0000);                 PowStep(r, 5, 0x10_0000);
    PowStep(r, 6, 0x100_0000);               PowStep(r, 7, 0x1000_0000);
    PowStep(r, 8, 0x1_0000_0000);            PowStep(r, 9, 0x10_0000_0000);
    PowStep(r, 10, 0x100_0000_0000);         PowStep(r, 11, 0x1000_0000_0000);
    PowStep(r, 12, 0x1_0000_0000_0000);      PowStep(r, 13, 0x10_0000_0000_0000);
    PowStep(r, 14, 0x100_0000_0000_0000);    PowStep(r, 15, 0x1000_0000_0000_0000);
  }

  /** The scratch area of MGX_INT64_LEN bytes is enough for every 64-bit number in every
      form, and one byte less would not be. */
  lemma ScratchTight(n: nat, r: Radix)
    requires n < TWO64
    ensures |Numeral(n, r)| <= MGX_INT64_LEN
    ensures r.Decimal? ==> |Numeral(TWO64 - 1, r)| == MGX_INT64_LEN
  {
    if r.Decimal? {
      PowersOfTen(r);
      NumeralLength(n, r, 20);
      NumeralLength(TWO64 - 1, r, 20);
      NumeralLength(TWO64 - 1, r, 19);
    } else {
      PowersOfSixteen(r);
      NumeralLength(n, r, 16);
    }
  }

  function Repeat(c: char, n: nat): (s: string)
    ensures |s| == n
  {
    seq(n, _ => c)
  }

  function PadCount(len: nat, width: nat): (n: nat) { if width > len then width - len else 0 }

  /** A field of at least the given width. */
  function Field(d: string, zero: char, width: nat): (s: string) { Repeat(zero, PadCount(|d|, width)) + d }

  /** What mgx_sprintf_num prints when there is room. */
  function Padded(n: nat, zero: char, r: Radix, width: nat): (s: string) { Field(Numeral(n, r), zero, width) }

  /** s without its leading run of c. */
  function Skip(s: string, c: char): (r: string) {
    if s != "" && s[0] == c then Skip(s[1..], c) else s
  }

  lemma {:induction false} SkipRepeat(c: char, k: nat, s: string)
    ensures Skip(Repeat(c, k) + s, c) == Skip(s, c)
    decreases k
  {
    if k == 0 {
      assert Repeat(c, 0) + s == s;
    } else {
      SkipRepeat(c, k - 1, s);
      assert (Repeat(c, k) + s)[1..] == Repeat(c, k - 1) + s;
    }
  }

  /** Leading zeros do not change a value. */
  lemma {:induction false} SkipZeros(s: string, r: Radix)
    ensures Value(Skip(s, '0'), r) == Value(s, r)
    decreases |s|
  {
    if s != "" && s[0] == '0' {
      SkipZeros(s[1..], r);
      ZeroInFront(s[1..], r);
      assert s == "0" + s[1..];
    }
  }

  lemma {:induction false} ZeroInFront(s: string, r: Radix)
    ensures Value("0" + s, r) == Value(s, r)
    decreases |s|
  {
    if s == "" {
      ValueSnoc("", '0', r);
      assert "0" + s == "" + ['0'];
    } else {
      ZeroInFront(s[..|s| - 1], r);
      assert ("0" + s)[..|s|] == "0" + s[..|s| - 1];
    }
  }

  /** The printed field has the wanted width, or the width of the number if that is more,
      and reads back as the number. */
  lemma PaddedRoundTrip(n: nat, zero: char, r: Radix, width: nat)
    requires zero == '0' || zero == ' '
    ensures |Padded(n, zero, r, width)| == (if width > |Numeral(n, r)| then width else |Numeral(n, r)|)
    ensures Value(Skip(Padded(n, zero, r, width), zero), r) == n
  {
    var d := Numeral(n, r);
    NumeralRoundTrip(n, r);
    SkipRepeat(zero, PadCount(|d|, width), d);
    if zero == '0' {
      SkipZeros(d, r);
    } else {
      NumeralFirst(n, r);
      assert Skip(d, ' ') == d;
    }
  }

  // ---------------------------------------------------------------- writing into a buffer

  /** As much of s as fits into n bytes. */
  function Take(s: string, n: nat): (r: string)
    ensures |r| == if |s| <= n then |s| else n
  {
    if |s| <= n then s else s[..n]
  }

  /** after is before with text written at pos, and nothing else changed. */
  ghost predicate Wrote(before: string, after: string, pos: nat, text: string) {
    && pos + |text| <= |before| == |after|
    && forall i :: 0 <= i < |after| ==> after[i] == if pos <= i < pos + |text| then text[i - pos] else before[i]
  }

  lemma WroteThen(a: string, b: string, c: string, pos: nat, s: string, t: string)
    requires Wrote(a, b, pos, s) && Wrote(b, c, pos + |s|, t)
    ensures Wrote(a, c, pos, s + t)
  {
  }

  lemma TakeThen(s: string, t: string, n: nat)
    ensures Take(s, n) + Take(t, n - |Take(s, n)|) == Take(s + t, n)
  {
  }

  /** As much of text as fits below last is written at pos, and ends at end. */
  ghost predicate Printed(before: string, after: string, pos: nat, end: nat, last: nat, text: string) {
    && pos <= last
    && end == pos + |Take(text, last - pos)|
    && Wrote(before, after, pos, Take(text, last - pos))
  }

  /** Two texts printed one after the other are printed as one. */
  lemma PrintedThen(a: string, b: string, c: string, pos: nat, mid: nat, end: nat, last: nat, s: string, t: string)
    requires Printed(a, b, pos, mid, last, s) && Printed(b, c, mid, end, last, t)
    ensures Printed(a, c, pos, end, last, s + t)
  {
    var p, q := Take(s, last - pos), Take(t, last - mid);
    TakeThen(s, t, last - pos);
    WroteThen(a, b, c, pos, p, q);
    assert p + q == Take(s + t, last - pos);
  }

  /** *buf++ = c, for which the caller has room. */
  method PutChar(buf: array<char>, pos: nat, c: char) returns (end: nat)
    requires pos < buf.Length
    modifies buf
    ensures end == pos + 1 && Wrote(old(buf[..]), buf[..], pos, [c])
  {
    buf[pos] := c;
    end := pos + 1;
  }

  /** memcpy_end */
  method Copy(buf: array<char>, pos: nat, s: string) returns (end: nat)
    requires pos + |s| <= buf.Length
    modifies buf
    ensures end == pos + |s| && Wrote(old(buf[..]), buf[..], pos, s)
  {
    ghost var before := buf[..];
    end := pos;
    for i := 0 to |s|
      invariant end == pos + i && Wrote(before, buf[..], pos, s[..i])
    {
      ghost var mid := buf[..];
      end := PutChar(buf, end, s[i]);
      WroteThen(before, mid, buf[..], pos, s[..i], [s[i]]);
      assert s[..i + 1] == s[..i] + [s[i]];
    }
    assert s[..|s|] == s;
  }

  /** The do-while loops of mgx_sprintf_num: the numeral ends up right-aligned in the
      scratch area, which it never overruns. */
  method Render(n: nat, r: Radix) returns (temp: array<char>, p: nat)
    requires n < TWO64
    ensures fresh(temp) && temp.Length == MGX_INT64_LEN + 1 && p <= MGX_INT64_LEN
    ensures temp[p..MGX_INT64_LEN] == Numeral(n, r)
  {
    temp := new char[MGX_INT64_LEN + 1];
    p := MGX_INT64_LEN;
    ghost var whole := Numeral(n, r);
    ScratchTight(n, r);
    var rest: nat := n;
    var more := true;
    ghost var front, done := whole, "";
    while more
      invariant p == MGX_INT64_LEN - |done| && temp[p..MGX_INT64_LEN] == done
      invariant whole == front + done
      invariant more ==> front == Numeral(rest, r)
      invariant !more ==> front == ""
      decreases more, rest
    {
      ghost var next := Front(Quot(rest, r), rest, r);
      var c := DigitChar(Low(rest, r), r);
      Regroup(next, c, done);
      p := p - 1;
      temp[p] := c;
      assert temp[p..MGX_INT64_LEN] == [temp[p]] + temp[p + 1..MGX_INT64_LEN];
      front, done := next, [c] + done;
      rest := Quot(rest, r);
      more := rest != 0;
    }
  }

  lemma Regroup(a: string, c: char, b: string)
    ensures a + [c] + b == a + ([c] + b)
  {
  }

  lemma TakeRepeat(c: char, n: nat, room: nat, k: nat)
    requires k == if n <= room then n else room
    ensures Take(Repeat(c, n), room) == Repeat(c, k)
  {
  }

  lemma RepeatSnoc(c: char, n: nat)
    ensures Repeat(c, n + 1) == Repeat(c, n) + [c]
  {
  }

  /** The padding loop of mgx_sprintf_num. */
  method PadLeft(buf: array<char>, pos: nat, last: nat, zero: char, len: nat, width: nat) returns (end: nat)
    requires pos <= last <= buf.Length
    modifies buf
    ensures Printed(old(buf[..]), buf[..], pos, end, last, Repeat(zero, PadCount(len, width)))
  {
    ghost var before := buf[..];
    var n := len;
    end := pos;
    while n < width && end < last
      invariant n == len + (end - pos) && pos <= end <= last && end - pos <= PadCount(len, width)
      invariant Wrote(before, buf[..], pos, Repeat(zero, end - pos))
    {
      ghost var mid := buf[..];
      RepeatSnoc(zero, end - pos);
      ghost var k := end - pos;
      end := PutChar(buf, end, zero);
      WroteThen(before, mid, buf[..], pos, Repeat(zero, k), [zero]);
      n := n + 1;
    }
    TakeRepeat(zero, PadCount(len, width), last - pos, end - pos);
  }

  /** A field, as far as there is room. */
  method PutField(buf: array<char>, pos: nat, last: nat, d: string, zero: char, width: nat) returns (end: nat)
    requires pos <= last <= buf.Length
    modifies buf
    ensures Printed(old(buf[..]), buf[..], pos, end, last, Field(d, zero, width))
  {
    ghost var before := buf[..];
    end := PadLeft(buf, pos, last, zero, |d|, width);
    ghost var mid, padded := buf[..], end;
    var len := |d|;
    if end + len > last {
      len := last - end;
    }
    assert d[..len] == Take(d, last - end);
    end := Copy(buf, end, d[..len]);
    PrintedThen(before, mid, buf[..], pos, padded, end, last, Repeat(zero, PadCount(|d|, width)), d);
  }

  /** mgx_sprintf_num: exactly as much of the padded number as there is room for. */
  method SprintfNum(buf: array<char>, pos: nat, last: nat, n: nat, zero: char, r: Radix, width: nat) returns (end: nat)
    requires pos <= last <= buf.Length && n < TWO64
    modifies buf
    ensures Printed(old(buf[..]), buf[..], pos, end, last, Padded(n, zero, r, width))
  {
    var temp, p := Render(n, r);
    end := PutField(buf, pos, last, temp[p..MGX_INT64_LEN], zero, width);
  }
}
