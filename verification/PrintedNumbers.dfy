/**
 What the numbers that the formatter prints mean: the texts of the integer conversions and
 of "%f" read back as the numbers they stand for.
 */
module PrintedNumbers {
  import opened CStrings
  import opened Digits
  import opened FixedPoint
  import opened Printf
  import Doubles

  /** Reading an integer: a minus sign, padding, digits. */
  function ReadInt(s: string, pad: char, r: Radix): (n: int) {
    if s != "" && s[0] == '-' then -Value(Skip(s[1..], pad), r) else Value(Skip(s, pad), r)
  }

  lemma {:induction false} NoMinus(n: nat, r: Radix)
    ensures Numeral(n, r)[0] != '-'
    decreases n
  {
    if Quot(n, r) > 0 {
      NoMinus(Quot(n, r), r);
    } else {
      assert DigitVal('-') == -1;
    }
  }

  /** A signed field reads back as its number, and a negative one takes a place more than
      the width asks for. */
  lemma SignedReadsBack(n: int, zero: char, r: Radix, width: nat)
    requires zero == '0' || zero == ' '
    ensures var text := Minus(n < 0) + Padded(Abs(n), zero, r, width);
            ReadInt(text, zero, r) == n && |text| >= width + if n < 0 then 1 else 0
  {
    var p := Padded(Abs(n), zero, r, width);
    PaddedRoundTrip(Abs(n), zero, r, width);
    NoMinus(Abs(n), r);
    assert Minus(n < 0) + p == if n < 0 then "-" + p else p;
    assert ("-" + p)[1..] == p;
    assert p[0] != '-';
  }

  /** v is a value of the C type that the conversion takes its argument for; 'M' prints the
      largest unsigned value as -1. */
  predicate OfType(c: char, signed: bool, v: int) {
    match c
    case 'O' | 'T' => -0x8000_0000_0000_0000 <= v < 0x8000_0000_0000_0000
    case 'P' => -0x8000_0000 <= v < 0x8000_0000
    case 'M' => -1 <= v < 0xffff_ffff_ffff_ffff
    case 'i' | 'd' | 'D' => if signed then -0x8000_0000 <= v < 0x8000_0000 else 0 <= v <= 0xffff_ffff
    case 'z' | 'l' | 'L' =>
      if signed then -0x8000_0000_0000_0000 <= v < 0x8000_0000_0000_0000 else 0 <= v <= 0xffff_ffff_ffff_ffff
    case _ => false
  }

  lemma LoadedValue(c: char, signed: bool, v: int)
    requires OfType(c, signed, v)
    ensures Loaded(c, signed, v) == v
  {
  }

  /** An integer conversion prints its argument: the text reads back as it. */
  lemma IntegerReadsBack(c: char, sp: Spec, v: int)
    requires IsInteger(c) && (sp.zero == '0' || sp.zero == ' ') && OfType(c, sp.signed, v)
    ensures var out := Text(ConvertArg(c, sp, Num(v)));
            && out.stop.Done?
            && ReadInt(out.text, sp.zero, sp.radix) == v
            && |out.text| >= sp.width + if v < 0 then 1 else 0
  {
    LoadedValue(c, sp.signed, v);
    SignedReadsBack(v, sp.zero, sp.radix, sp.width);
    assert ConvertArg(c, sp, Num(v)) == Number(v < 0, Abs(v), sp.zero, sp.radix, sp.width);
  }

  predicate AllDigits(d: string) { forall i :: 0 <= i < |d| ==> IsDigit(d[i]) }

  lemma {:induction false} NumeralIsDigits(n: nat)
    ensures AllDigits(Numeral(n, Decimal))
    decreases n
  {
    var q, c := Quot(n, Decimal), DigitChar(Low(n, Decimal), Decimal);
    if q > 0 {
      NumeralIsDigits(q);
    }
    assert DigitVal(c) < 10;
    assert Numeral(n, Decimal) == Front(q, n, Decimal) + [c];
  }

  /** A number is at least what its leading digits say. */
  lemma {:induction false} PrefixValue(d: string, n: nat)
    requires n <= |d| && AllDigits(d)
    ensures 0 <= Value(d[..n], Decimal) <= Value(d, Decimal)
    decreases |d|
  {
    if n == |d| {
      assert d[..n] == d;
      if d != "" {
        PrefixValue(d[..|d| - 1], 0);
      }
    } else {
      PrefixValue(d[..|d| - 1], n);
      assert d[..|d| - 1][..n] == d[..n];
    }
  }

  lemma ShiftedExact(acc: nat, c: char)
    requires IsDigit(c) && acc * 10 + DigitVal(c) < TWO64
    ensures Shifted(acc, c) == 10 * acc + DigitVal(c)
  {
  }

  lemma PrefixStep(d: string, i: nat)
    requires i < |d| && AllDigits(d) && Value(d, Decimal) < TWO64
    ensures 0 <= Value(d[..i], Decimal) && Value(d[..i + 1], Decimal) == Shifted(Value(d[..i], Decimal), d[i])
  {
    PrefixValue(d, i);
    PrefixValue(d, i + 1);
    assert Value(d[..i + 1], Decimal) == 10 * Value(d[..i], Decimal) + DigitVal(d[i]) by {
      assert d[..i + 1] == d[..i] + [d[i]];
      ValueSnoc(d[..i], d[i], Decimal);
    }
    ShiftedExact(Value(d[..i], Decimal), d[i]);
  }

  /** Reading digits one by one from the left gives their value, if it fits a word. */
  lemma {:induction false} ScanRun(fmt: string, s: nat, d: string, i: nat)
    requires s + |d| <= |fmt| && (forall m :: 0 <= m < |d| ==> fmt[s + m] == d[m])
    requires AllDigits(d) && 0 <= Value(d, Decimal) < TWO64
    requires i <= |d| && 0 <= Value(d[..i], Decimal)
    ensures Digits64(fmt, s + i, Value(d[..i], Decimal)) == Digits64(fmt, s + |d|, Value(d, Decimal))
    decreases |d| - i
  {
    if i < |d| {
      PrefixStep(d, i);
      ScanRun(fmt, s, d, i + 1);
    } else {
      assert d[..i] == d;
    }
  }

  lemma WidthDigits(z: string, w: nat)
    requires z == "" || z == "0"
    ensures AllDigits(z + Numeral(w, Decimal)) && Value(z + Numeral(w, Decimal), Decimal) == w
  {
    NumeralIsDigits(w);
    NumeralRoundTrip(w, Decimal);
    ZeroInFront(Numeral(w, Decimal), Decimal);
    assert z == "" ==> z + Numeral(w, Decimal) == Numeral(w, Decimal);
  }

  /** The width that is written is the width that is read. */
  lemma WidthRoundTrip(fmt: string, s: nat, d: string)
    requires Stands(fmt, s, d) && AllDigits(d) && 0 <= Value(d, Decimal) < TWO64
    ensures Digits64(fmt, s, 0) == (Value(d, Decimal), s + |d|)
  {
    assert d[..0] == "" && Value("", Decimal) == 0;
    ScanRun(fmt, s, d, 0);
  }

  lemma ShiftedWraps(n: nat, c: char)
    requires IsDigit(c)
    ensures Shifted(n % TWO64, c) == (10 * n + DigitVal(c)) % TWO64
  {
    var q, r := n / TWO64, n % TWO64;
    WholeWords(n, q, r, DigitVal(c));
    DropWords(10 * q, 10 * r + DigitVal(c));
  }

  lemma WholeWords(n: nat, q: nat, r: nat, d: int)
    requires n == TWO64 * q + r
    ensures 10 * n + d == TWO64 * (10 * q) + (10 * r + d)
  {
  }

  lemma DropWords(k: nat, x: nat)
    ensures (TWO64 * k + x) % TWO64 == x % TWO64
  {
  }

  lemma {:induction false} ScanWraps(fmt: string, s: nat, d: string, i: nat)
    requires s + |d| <= |fmt| && (forall m :: 0 <= m < |d| ==> fmt[s + m] == d[m]) && AllDigits(d) && i <= |d|
    ensures 0 <= Value(d[..i], Decimal) && 0 <= Value(d, Decimal)
    ensures Digits64(fmt, s + i, Value(d[..i], Decimal) % TWO64) == Digits64(fmt, s + |d|, Value(d, Decimal) % TWO64)
    decreases |d| - i
  {
    PrefixValue(d, i);
    if i < |d| {
      ScanWraps(fmt, s, d, i + 1);
      assert d[..i + 1] == d[..i] + [d[i]];
      ValueSnoc(d[..i], d[i], Decimal);
      ShiftedWraps(Value(d[..i], Decimal), d[i]);
    } else {
      assert d[..i] == d;
    }
  }

  /** A width or number of places of any length is read modulo the size of a machine word. */
  lemma WidthWraps(fmt: string, s: nat, d: string)
    requires Stands(fmt, s, d) && AllDigits(d)
    ensures 0 <= Value(d, Decimal) && Digits64(fmt, s, 0) == (Value(d, Decimal) % TWO64, s + |d|)
  {
    assert d[..0] == "" && Value("", Decimal) == 0;
    ScanWraps(fmt, s, d, 0);
  }

  /** "%", perhaps a zero, a width, perhaps a flag, an integer conversion, and the NUL. */
  function IntegerFormat(z: string, w: nat, flag: string, c: char): (s: string) {
    "%" + (z + Numeral(w, Decimal)) + (flag + [c, NUL])
  }

  function FlagRadix(flag: string): (r: Radix) {
    if flag == "x" then LowerHex else if flag == "X" then UpperHex else Decimal
  }

  /** The digits d stand at place s of the format, and something else behind them. */
  ghost predicate Stands(fmt: string, s: nat, d: string) {
    && s + |d| < |fmt| && !IsDigit(fmt[s + |d|])
    && forall m :: 0 <= m < |d| ==> fmt[s + m] == d[m]
  }

  /** The format is the digits d between "%" and the flag and conversion. */
  ghost predicate Laid(fmt: string, d: string, flag: string, c: char) {
    && |fmt| == 1 + |d| + |flag| + 2 && |flag| <= 1 && d != ""
    && fmt[0] == '%' && fmt[|fmt| - 2] == c && fmt[|fmt| - 1] == NUL
    && Stands(fmt, 1, d)
    && (flag != "" ==> fmt[1 + |d|] == flag[0])
  }

  lemma IntegerDirective(fmt: string, d: string, flag: string, c: char, args: seq<Arg>)
    requires Laid(fmt, d, flag, c) && TakesArg(c) && (flag == "" || flag == "u" || flag == "x" || flag == "X")
    requires AllDigits(d) && 0 <= Value(d, Decimal) < TWO64
    ensures Directive(fmt, 1, args, 0)
         == Scanned(Spec(if d[0] == '0' then '0' else ' ', Value(d, Decimal), flag == "", FlagRadix(flag), 0, UNSET), |fmt| - 2, 0)
  {
    WidthRoundTrip(fmt, 1, d);
    assert fmt[1 + 0] == d[0];
    var sp := Spec(if d[0] == '0' then '0' else ' ', Value(d, Decimal), true, Decimal, 0, UNSET);
    assert Directive(fmt, 1, args, 0) == Flags(fmt, 1 + |d|, sp, args, 0);
    if flag != "" {
      OneFlag(fmt, 1 + |d|, sp, args, flag);
    }
  }

  lemma OneFlag(fmt: string, i: nat, sp: Spec, args: seq<Arg>, flag: string)
    requires i + 3 == |fmt| && TakesArg(fmt[i + 1]) && (flag == "u" || flag == "x" || flag == "X") && fmt[i] == flag[0]
    requires sp.radix == Decimal
    ensures Flags(fmt, i, sp, args, 0) == Scanned(sp.(signed := false, radix := FlagRadix(flag)), i + 1, 0)
  {
    var sp1 := sp.(signed := false, radix := FlagRadix(flag));
    assert Flags(fmt, i + 1, sp1, args, 0) == Scanned(sp1, i + 1, 0);
    assert flag == "u" ==> sp1 == sp.(signed := false);
  }

  lemma IntegerFormatLaid(z: string, w: nat, flag: string, c: char)
    requires (z == "" || z == "0") && (flag == "" || flag == "u" || flag == "x" || flag == "X") && !IsDigit(c)
    ensures Laid(IntegerFormat(z, w, flag, c), z + Numeral(w, Decimal), flag, c)
    ensures (z + Numeral(w, Decimal))[0] == '0' <==> z == "0" || w == 0
  {
    NumeralFirst(w, Decimal);
  }

  function ZeroFor(z: string, w: nat): (c: char) { if z == "0" || w == 0 then '0' else ' ' }

  /** For every width and every value of the type: the field is at least that wide, and
      reads back as the value. */
  lemma IntegerFormatReadsBack(z: string, w: nat, flag: string, c: char, v: int)
    requires IsInteger(c) && w < TWO64 && (z == "" || z == "0") && (flag == "" || flag == "u" || flag == "x" || flag == "X")
    requires OfType(c, flag == "", v)
    ensures var out := Format(IntegerFormat(z, w, flag, c), 0, [Num(v)], 0);
            && out.stop.Done?
            && ReadInt(out.text, ZeroFor(z, w), FlagRadix(flag)) == v
            && |out.text| >= w + if v < 0 then 1 else 0
  {
    var fmt, args, d := IntegerFormat(z, w, flag, c), [Num(v)], z + Numeral(w, Decimal);
    var sp := Spec(ZeroFor(z, w), w, flag == "", FlagRadix(flag), 0, UNSET);
    IntegerFormatLaid(z, w, flag, c);
    WidthDigits(z, w);
    IntegerDirective(fmt, d, flag, c, args);
    IntegerReadsBack(c, sp, v);
    LoneDirective(fmt, sp, c, Num(v));
  }

  /** What an integer conversion prints consists of a minus sign, padding and the digits of
      its form: a to f for "x", A to F for "X". */
  lemma IntegerAlphabet(c: char, sp: Spec, v: int, i: nat)
    requires IsInteger(c) && i < |Text(ConvertArg(c, sp, Num(v))).text|
    ensures var d := Text(ConvertArg(c, sp, Num(v))).text[i]; OfAlphabet(d, sp.radix) || d == sp.zero || (i == 0 && d == '-')
  {
    NumeralAlphabet(Abs(Loaded(c, sp.signed, v)), sp.radix);
  }

  lemma ConvertFirst(c: char, sp: Spec, a: Arg)
    requires TakesArg(c)
    ensures Convert(c, sp, [a], 0) == ConvertArg(c, sp, a) && Next(c, 0) == 1
  {
  }

  lemma PercentIs(fmt: string, sp: Spec, args: seq<Arg>)
    requires |fmt| >= 3 && fmt[0] == '%' && Directive(fmt, 1, args, 0) == Scanned(sp, |fmt| - 2, 0)
    ensures var c := fmt[|fmt| - 2];
            Percent(fmt, 0, args, 0) == Piece(Text(Convert(c, sp, args, 0)), |fmt| - 1, Next(c, 0))
  {
  }

  /** A format of one directive prints what that prints. */
  lemma LoneDirective(fmt: string, sp: Spec, c: char, a: Arg)
    requires |fmt| >= 3 && fmt[0] == '%' && fmt[|fmt| - 2] == c && fmt[|fmt| - 1] == NUL && TakesArg(c)
    requires Directive(fmt, 1, [a], 0) == Scanned(sp, |fmt| - 2, 0)
    requires Text(ConvertArg(c, sp, a)).stop.Done?
    ensures Format(fmt, 0, [a], 0) == Text(ConvertArg(c, sp, a))
  {
    ConvertFirst(c, sp, a);
    PercentIs(fmt, sp, [a]);
    LastDirective(fmt, [a]);
  }

  lemma LastDirective(fmt: string, args: seq<Arg>)
    requires At(fmt, 0) == '%' && fmt[|fmt| - 1] == NUL
    requires Percent(fmt, 0, args, 0).next == |fmt| - 1 && Percent(fmt, 0, args, 0).out.stop.Done?
    ensures Format(fmt, 0, args, 0) == Percent(fmt, 0, args, 0).out
  {
    var p := Percent(fmt, 0, args, 0);
    assert Format(fmt, |fmt| - 1, args, p.k) == Out("", Done);
    assert p.out.text + "" == p.out.text;
  }

  /** Reading digits behind others: the others move up one place for every digit. */
  lemma {:induction false} ValueConcat(s: string, t: string)
    ensures Value(s + t, Decimal) == TensInt(Value(s, Decimal), |t|) + Value(t, Decimal)
    decreases |t|
  {
    if t == "" {
      assert s + t == s;
    } else {
      var u, c := t[..|t| - 1], t[|t| - 1];
      ValueConcat(s, u);
      ValueSnoc(s + u, c, Decimal);
      assert s + t == s + u + [c];
    }
  }

  /** The digits of the whole part and of the fraction, read as one number. */
  lemma TailReadsBack(w: nat, f: nat, frac: nat)
    requires 1 <= frac && f < Pow(Decimal, frac)
    ensures |Padded(f, '0', Decimal, frac)| == frac
    ensures Value(Numeral(w, Decimal) + Padded(f, '0', Decimal, frac), Decimal) == TensInt(w, frac) + f
  {
    var tail := Padded(f, '0', Decimal, frac);
    NumeralRoundTrip(w, Decimal);
    NumeralLength(f, Decimal, frac);
    PaddedRoundTrip(f, '0', Decimal, frac);
    SkipZeros(tail, Decimal);
    ValueConcat(Numeral(w, Decimal), tail);
  }

  /** The same behind a padded whole part. */
  lemma PaddedReadsBack(w: nat, f: nat, zero: char, width: nat, frac: nat)
    requires 1 <= frac && f < Pow(Decimal, frac) && (zero == '0' || zero == ' ')
    ensures var s := Padded(w, zero, Decimal, width) + Padded(f, '0', Decimal, frac);
            Value(Skip(s, zero), Decimal) == TensInt(w, frac) + f && s != "" && s[0] != '-'
  {
    var d := Numeral(w, Decimal);
    var rest := d + Padded(f, '0', Decimal, frac);
    var pad := Repeat(zero, PadCount(|d|, width));
    TailReadsBack(w, f, frac);
    NoMinus(w, Decimal);
    assert pad + d + Padded(f, '0', Decimal, frac) == pad + rest;
    SkipRepeat(zero, PadCount(|d|, width), rest);
    if zero == '0' {
      SkipZeros(rest, Decimal);
    } else {
      NumeralFirst(w, Decimal);
      assert Skip(rest, ' ') == rest;
    }
  }

  /** s without its character before the last k. */
  function Unpoint(s: string, k: nat): (r: string)
    requires k < |s|
  {
    s[..|s| - 1 - k] + s[|s| - k..]
  }

  lemma PointBetween(a: string, b: string)
    ensures (a + ("." + b))[|a|] == '.' && Unpoint(a + ("." + b), |b|) == a + b
  {
  }

  /** s has its point before the last k digits, and the digits around it read as n. */
  predicate ReadsFixed(s: string, zero: char, k: nat, n: int) {
    k < |s| && s[|s| - 1 - k] == '.' && ReadInt(Unpoint(s, k), zero, Decimal) == n
  }

  function Negate(neg: bool, v: int): (n: int) { if neg then -v else v }

  lemma SignReadsBack(neg: bool, t: string, zero: char)
    requires t != "" && t[0] != '-'
    ensures ReadInt(Minus(neg) + t, zero, Decimal) == Negate(neg, Value(Skip(t, zero), Decimal))
  {
    assert ("-" + t)[1..] == t;
    assert "" + t == t;
  }

  lemma Join(a: string, b: string, c: string)
    ensures a + b + c == a + (b + c)
  {
  }

  /** The digits of a fixed-point text read back as the two numbers it was made of. */
  lemma FixedTextReadsBack(neg: bool, r: (nat, nat), zero: char, width: nat, frac: nat)
    requires 1 <= frac && r.1 < Pow(Decimal, frac) && (zero == '0' || zero == ' ')
    ensures ReadsFixed(FixedText(neg, r, zero, width, frac), zero, frac, Negate(neg, TensInt(r.0, frac) + r.1))
  {
    var whole, tail := Padded(r.0, zero, Decimal, width), Padded(r.1, '0', Decimal, frac);
    TailReadsBack(r.0, r.1, frac);
    PaddedReadsBack(r.0, r.1, zero, width, frac);
    SignReadsBack(neg, whole + tail, zero);
    Join(Minus(neg), whole, tail);
    PointedReads(Minus(neg) + whole, tail, zero, Negate(neg, TensInt(r.0, frac) + r.1));
  }

  lemma PointedReads(a: string, b: string, zero: char, n: int)
    requires ReadInt(a + b, zero, Decimal) == n
    ensures ReadsFixed(a + ("." + b), zero, |b|, n)
  {
    PointBetween(a, b);
  }

  /** The conversion prints the fixed-point text of its two numbers. */
  lemma FixedConversion(x: Doubles.Double, sp: Spec)
    requires -9223372036854775808.0 < x < 9223372036854775808.0
    ensures Text(ConvertArg('f', sp, Dbl(x)))
         == Out(FixedText(x < 0.0, Split(Doubles.Magnitude(x), sp.frac), sp.zero, sp.width, sp.frac), Done)
  {
    FloorBound(Doubles.Magnitude(x));
  }

  lemma OneReading(s: string, zero: char, k: nat, n: int, m: int)
    requires ReadsFixed(s, zero, k, n)
    ensures ReadsFixed(s, zero, k, m) <==> m == n
  {
  }

  /** From 1 to 19 places the digits are there as asked for, and they are the number rounded
      at its last place if and only if the double product rounds well. */
  lemma FixedTextIsRounded(y: real, neg: bool, zero: char, width: nat, frac: nat)
    requires y >= 0.0 && Doubles.IsDouble(y) && 1 <= frac <= 19 && (zero == '0' || zero == ' ')
    ensures Tens(Frac(y), frac) >= 0.0
    ensures ReadsFixed(FixedText(neg, Split(y, frac), zero, width, frac), zero, frac, Negate(neg, RoundHalfUp(Tens(y, frac))))
       <==> RoundsWell(Tens(Frac(y), frac))
  {
    var r := Split(y, frac);
    var n := TensInt(r.0, frac) + r.1;
    FractionWidth(y, frac);
    FixedTextReadsBack(neg, r, zero, width, frac);
    FixedExact(y, frac);
    OneReading(FixedText(neg, r, zero, width, frac), zero, frac, Negate(neg, n), Negate(neg, RoundHalfUp(Tens(y, frac))));
  }

  /** The number that should be printed, in units of the last place. */
  function Rounded(x: Doubles.Double, frac: nat): (n: int) { Negate(x < 0.0, RoundHalfUp(Tens(Doubles.Magnitude(x), frac))) }

  /** What a "%f" conversion prints of a double. */
  lemma FixedReadsBack(x: Doubles.Double, sp: Spec, out: Out)
    requires -9223372036854775808.0 < x < 9223372036854775808.0
    requires 1 <= sp.frac <= 19 && (sp.zero == '0' || sp.zero == ' ') && out == Text(ConvertArg('f', sp, Dbl(x)))
    ensures out.stop.Done? && Tens(Frac(Doubles.Magnitude(x)), sp.frac) >= 0.0
    ensures ReadsFixed(out.text, sp.zero, sp.frac, Rounded(x, sp.frac)) <==> RoundsWell(Tens(Frac(Doubles.Magnitude(x)), sp.frac))
  {
    FixedConversion(x, sp);
    FixedTextIsRounded(Doubles.Magnitude(x), x < 0.0, sp.zero, sp.width, sp.frac);
  }

  /** "%", perhaps a zero, a width, ".", the number of places, "f", and the NUL. */
  function FixedFormat(z: string, w: nat, frac: nat): (s: string) {
    "%" + (z + Numeral(w, Decimal)) + ("." + Numeral(frac, Decimal) + ['f', NUL])
  }

  ghost predicate FixedLaid(fmt: string, d: string, e: string) {
    && |fmt| == 1 + |d| + 1 + |e| + 2 && d != ""
    && fmt[0] == '%' && fmt[1 + |d|] == '.' && fmt[|fmt| - 2] == 'f' && fmt[|fmt| - 1] == NUL
    && Stands(fmt, 1, d) && Stands(fmt, 2 + |d|, e)
  }

  lemma StandsIn(a: string, d: string, b: string, fmt: string)
    requires b != "" && !IsDigit(b[0]) && fmt == a + d + b
    ensures Stands(fmt, |a|, d)
  {
    assert fmt[|a| + |d|] == b[0];
  }

  lemma FixedFormatLaid(z: string, w: nat, frac: nat)
    requires z == "" || z == "0"
    ensures FixedLaid(FixedFormat(z, w, frac), z + Numeral(w, Decimal), Numeral(frac, Decimal))
    ensures (z + Numeral(w, Decimal))[0] == '0' <==> ZeroFor(z, w) == '0'
  {
    NumeralFirst(w, Decimal);
    FixedLaidOut(FixedFormat(z, w, frac), z + Numeral(w, Decimal), Numeral(frac, Decimal));
  }

  lemma FixedLaidOut(fmt: string, d: string, e: string)
    requires d != "" && e != "" && fmt == "%" + d + ("." + e + ['f', NUL])
    ensures FixedLaid(fmt, d, e)
  {
    StandsIn("%", d, "." + e + ['f', NUL], fmt);
    assert fmt == ("%" + d + ".") + e + ['f', NUL];
    StandsIn("%" + d + ".", e, ['f', NUL], fmt);
  }

  lemma FixedDirective(fmt: string, d: string, e: string, args: seq<Arg>, sp: Spec)
    requires FixedLaid(fmt, d, e) && AllDigits(d) && AllDigits(e)
    requires sp == Spec(if d[0] == '0' then '0' else ' ', sp.width, true, Decimal, sp.frac, UNSET)
    requires Value(d, Decimal) == sp.width < TWO64 && Value(e, Decimal) == sp.frac < TWO64
    ensures Directive(fmt, 1, args, 0) == Scanned(sp, |fmt| - 2, 0)
  {
    WidthRoundTrip(fmt, 1, d);
    WidthRoundTrip(fmt, 2 + |d|, e);
    assert fmt[1 + 0] == d[0];
    assert Directive(fmt, 1, args, 0) == Flags(fmt, 1 + |d|, sp.(frac := 0), args, 0);
  }

  lemma NumeralDigits(n: nat)
    ensures AllDigits(Numeral(n, Decimal)) && Value(Numeral(n, Decimal), Decimal) == n
  {
    NumeralIsDigits(n);
    NumeralRoundTrip(n, Decimal);
  }

  lemma FixedFormatDirective(z: string, w: nat, frac: nat, args: seq<Arg>, fmt: string, sp: Spec)
    requires (z == "" || z == "0") && w < TWO64 && frac < TWO64 && fmt == FixedFormat(z, w, frac)
    requires sp == Spec(ZeroFor(z, w), w, true, Decimal, frac, UNSET)
    ensures |fmt| >= 3 && fmt[0] == '%' && fmt[|fmt| - 2] == 'f' && fmt[|fmt| - 1] == NUL
    ensures Directive(fmt, 1, args, 0) == Scanned(sp, |fmt| - 2, 0)
  {
    var d, e := z + Numeral(w, Decimal), Numeral(frac, Decimal);
    FixedFormatLaid(z, w, frac);
    WidthDigits(z, w);
    NumeralDigits(frac);
    FixedDirective(fmt, d, e, args, sp);
  }

  lemma FixedFormatPrints(z: string, w: nat, frac: nat, x: Doubles.Double, sp: Spec)
    requires (z == "" || z == "0") && w < TWO64 && frac < TWO64
    requires -9223372036854775808.0 < x < 9223372036854775808.0
    requires sp == Spec(ZeroFor(z, w), w, true, Decimal, frac, UNSET)
    ensures Format(FixedFormat(z, w, frac), 0, [Dbl(x)], 0) == Text(ConvertArg('f', sp, Dbl(x)))
  {
    FixedFormatDirective(z, w, frac, [Dbl(x)], FixedFormat(z, w, frac), sp);
    FixedConversion(x, sp);
    LoneDirective(FixedFormat(z, w, frac), sp, 'f', Dbl(x));
  }

  /** The whole format, for every width and every double that fits: what it prints reads back
      as the number rounded at its last place if and only if the double product rounds well. */
  lemma FixedFormatReadsBack(z: string, w: nat, frac: nat, x: Doubles.Double)
    requires (z == "" || z == "0") && w < TWO64 && 1 <= frac <= 19
    requires -9223372036854775808.0 < x < 9223372036854775808.0
    ensures Format(FixedFormat(z, w, frac), 0, [Dbl(x)], 0).stop.Done? && Tens(Frac(Doubles.Magnitude(x)), frac) >= 0.0
    ensures ReadsFixed(Format(FixedFormat(z, w, frac), 0, [Dbl(x)], 0).text, ZeroFor(z, w), frac, Rounded(x, frac))
       <==> RoundsWell(Tens(Frac(Doubles.Magnitude(x)), frac))
  {
    var sp := Spec(ZeroFor(z, w), w, true, Decimal, frac, UNSET);
    FixedFormatPrints(z, w, frac, x, sp);
    FixedReadsBack(x, sp, Format(FixedFormat(z, w, frac), 0, [Dbl(x)], 0));
  }

  // ---------------------------------------------------------------- "%f" without places

  /** Without places "%f" cuts the number off at its point: the text reads back as the whole
      part, and has a minus sign exactly if the number is negative. */
  lemma CutReadsBack(x: Doubles.Double, sp: Spec)
    requires -9223372036854775808.0 < x < 9223372036854775808.0 && sp.frac == 0 && (sp.zero == '0' || sp.zero == ' ')
    ensures var out, whole := Text(ConvertArg('f', sp, Dbl(x))), Doubles.Magnitude(x).Floor;
            && out.stop.Done? && out.text != "" && (out.text[0] == '-' <==> x < 0.0)
            && ReadInt(out.text, sp.zero, Decimal) == Negate(x < 0.0, whole)
            && |out.text| >= sp.width + if x < 0.0 then 1 else 0
  {
    var whole := Doubles.Magnitude(x).Floor;
    var p := Padded(whole, sp.zero, Decimal, sp.width);
    FixedConversion(x, sp);
    PaddedRoundTrip(whole, sp.zero, Decimal, sp.width);
    NoMinus(whole, Decimal);
    assert p[0] != '-';
    SignReadsBack(x < 0.0, p, sp.zero);
    assert Minus(x < 0.0) + p + "" == Minus(x < 0.0) + p;
  }

  /** The whole format: "%", perhaps a zero, a width, and "f". */
  lemma CutFormatReadsBack(z: string, w: nat, x: Doubles.Double)
    requires (z == "" || z == "0") && w < TWO64 && -9223372036854775808.0 < x < 9223372036854775808.0
    ensures var out := Format(IntegerFormat(z, w, "", 'f'), 0, [Dbl(x)], 0);
            && out.stop.Done? && out.text != "" && (out.text[0] == '-' <==> x < 0.0)
            && ReadInt(out.text, ZeroFor(z, w), Decimal) == Negate(x < 0.0, Doubles.Magnitude(x).Floor)
            && |out.text| >= w + if x < 0.0 then 1 else 0
  {
    var fmt, args, d := IntegerFormat(z, w, "", 'f'), [Dbl(x)], z + Numeral(w, Decimal);
    var sp := Spec(ZeroFor(z, w), w, true, Decimal, 0, UNSET);
    IntegerFormatLaid(z, w, "", 'f');
    WidthDigits(z, w);
    IntegerDirective(fmt, d, "", 'f', args);
    CutReadsBack(x, sp);
    LoneDirective(fmt, sp, 'f', Dbl(x));
  }
}
