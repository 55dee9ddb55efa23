/**
 What the directives without a number in them print, wherever they stand in a format:
 addresses, characters, strings of a given length, and the letters that take no argument
 (app/mgx_printf.cpp).
 */
module Conversions {
  import opened CStrings
  import opened Digits
  import opened Printf
  import opened PrintedNumbers
  import opened Log

  /** A '%' at i with the letter c behind it. */
  ghost predicate Directs(fmt: string, i: nat, c: char) { i + 1 < |fmt| && fmt[i] == '%' && fmt[i + 1] == c }

  /** One directive of two characters that prints text, and the rest of the format. */
  lemma TwoCharacters(fmt: string, i: nat, args: seq<Arg>, k: nat, n: nat, text: string)
    requires i + 1 < |fmt| && fmt[i] == '%' && Directive(fmt, i + 1, args, k) == Scanned(Plain(), i + 1, k)
    requires Text(Convert(fmt[i + 1], Plain(), args, k)) == Out(text, Done) && Next(fmt[i + 1], k) == n
    ensures Format(fmt, i, args, k) == Before(text, Format(fmt, i + 2, args, n))
  {
    assert Percent(fmt, i, args, k) == Piece(Out(text, Done), i + 2, n);
  }

  /** How an address looks: 16 digits of 0-9 and A-F that read as it. */
  ghost predicate IsAddress(t: string, addr: nat) {
    |t| == 16 && AllOf(t, UpperHex) && Value(t, UpperHex) == addr
  }

  lemma AddressText(addr: nat)
    requires addr < TWO64
    ensures IsAddress(Padded(addr, '0', UpperHex, 16), addr)
  {
    var t := Padded(addr, '0', UpperHex, 16);
    PowersOfSixteen(UpperHex);
    NumeralLength(addr, UpperHex, 16);
    PaddedRoundTrip(addr, '0', UpperHex, 16);
    SkipZeros(t, UpperHex);
    NumeralAlphabet(addr, UpperHex);
  }

  /** "%p" prints any address, the null pointer included, in that form. */
  lemma AddressPrints(fmt: string, i: nat, args: seq<Arg>, k: nat, addr: nat) returns (t: string)
    requires Directs(fmt, i, 'p') && addr < TWO64
    requires k < |args| && (args[k] == Num(addr) || (addr == 0 && args[k] == Null))
    ensures IsAddress(t, addr) && Format(fmt, i, args, k) == Before(t, Format(fmt, i + 2, args, k + 1))
  {
    t := Padded(addr, '0', UpperHex, 16);
    AddressText(addr);
    OneLetter(fmt, i + 1, args, k);
    assert "" + t == t;
    TwoCharacters(fmt, i, args, k, k + 1, t);
  }

  /** "%c" prints the byte, which is the argument's lowest. */
  lemma CharacterPrints(fmt: string, i: nat, args: seq<Arg>, k: nat, c: char, high: int)
    requires Directs(fmt, i, 'c') && c as int < 256 && k < |args| && args[k] == Num(256 * high + c as int)
    ensures Format(fmt, i, args, k) == Before([c], Format(fmt, i + 2, args, k + 1))
  {
    OneLetter(fmt, i + 1, args, k);
    TwoCharacters(fmt, i, args, k, k + 1, [c]);
  }

  /** The letters that neither take an argument nor belong to a directive's front. */
  predicate IsLetter(c: char) {
    !TakesArg(c) && !IsDigit(c) && c != 'u' && c != 'x' && c != 'X' && c != '.' && c != '*'
  }

  /** "%N" prints a newline, "%Z" a NUL, and "%" with any other such letter the letter. */
  lemma LetterPrints(fmt: string, i: nat, args: seq<Arg>, k: nat, c: char)
    requires Directs(fmt, i, c) && IsLetter(c)
    ensures var t := if c == 'N' then '\n' else if c == 'Z' then NUL else c;
            Format(fmt, i, args, k) == Before([t], Format(fmt, i + 2, args, k))
  {
    assert Digits64(fmt, i + 1, 0) == (0, i + 1);
    var t := if c == 'N' then '\n' else if c == 'Z' then NUL else c;
    TwoCharacters(fmt, i, args, k, k, [t]);
  }

  /** "%s" prints the string up to its NUL. */
  lemma StringPrints(fmt: string, i: nat, args: seq<Arg>, k: nat, s: string, behind: string)
    requires Directs(fmt, i, 's') && k < |args| && NUL !in s && args[k] == Str(s + [NUL] + behind)
    ensures Format(fmt, i, args, k) == Before(s, Format(fmt, i + 2, args, k + 1))
  {
    var mem := s + [NUL] + behind;
    FirstNul(mem, |s|);
    assert mem[..|s|] == s;
    OneLetter(fmt, i + 1, args, k);
    TwoCharacters(fmt, i, args, k, k + 1, s);
  }

  lemma FirstNul(mem: string, n: nat)
    requires n < |mem| && mem[n] == NUL && forall j :: 0 <= j < n ==> mem[j] != NUL
    ensures UpToNul(mem) == mem[..n]
  {
    var u := UpToNul(mem);
    assert forall j :: 0 <= j < |u| ==> mem[j] == u[j];
  }

  lemma StarDirective(fmt: string, i: nat, args: seq<Arg>, k: nat, n: nat)
    requires i + 1 < |fmt| && fmt[i] == '*' && fmt[i + 1] == 's' && k < |args| && args[k] == Num(n) && n < TWO64
    ensures Directive(fmt, i, args, k) == Scanned(Plain().(slen := n), i + 1, k + 1)
  {
    assert Digits64(fmt, i, 0) == (0, i);
    assert Flags(fmt, i + 1, Plain().(slen := n), args, k + 1) == Scanned(Plain().(slen := n), i + 1, k + 1);
  }

  /** "%*s" prints the first n bytes of its memory, NULs among them or not, if that many can
      be read; if fewer can, it is not printed to its end. */
  lemma MemoryPrints(fmt: string, i: nat, args: seq<Arg>, k: nat, n: nat, mem: string)
    requires i + 2 < |fmt| && fmt[i] == '%' && fmt[i + 1] == '*' && fmt[i + 2] == 's'
    requires k + 1 < |args| && args[k] == Num(n) && args[k + 1] == Str(mem) && n < UNSET
    ensures n <= |mem| ==> Format(fmt, i, args, k) == Before(mem[..n], Format(fmt, i + 3, args, k + 2))
    ensures n > |mem| ==> Format(fmt, i, args, k).stop.Undefined?
  {
    StarDirective(fmt, i + 1, args, k, n);
    var text := Text(Convert('s', Plain().(slen := n), args, k + 1));
    assert Percent(fmt, i, args, k) == Piece(text, i + 3, k + 2);
  }

  // ---------------------------------------------------------------- quoting

  /** Every '%' twice. */
  function Doubled(s: string): (r: string) {
    if s == "" then "" else (if s[0] == '%' then "%%" else [s[0]]) + Doubled(s[1..])
  }

  /** The format from i on is that text and a NUL. */
  ghost predicate EndsWith(fmt: string, i: nat, text: string) { i <= |fmt| && fmt[i..] == text + [NUL] }

  lemma EndsWithout(fmt: string, i: nat, head: string, text: string)
    requires EndsWith(fmt, i, head + text)
    ensures i + |head| < |fmt| && EndsWith(fmt, i + |head|, text)
    ensures forall j :: 0 <= j < |head| ==> fmt[i + j] == head[j]
  {
    assert forall j :: 0 <= j < |head| ==> fmt[i + j] == fmt[i..][j];
    assert fmt[i + |head|..] == fmt[i..][|head|..];
    assert (head + text + [NUL])[|head|..] == text + [NUL];
  }

  /** A text without NULs, with each '%' doubled, is printed as it is, whatever the arguments. */
  lemma {:induction false} QuotedPrints(fmt: string, i: nat, args: seq<Arg>, k: nat, s: string)
    requires EndsWith(fmt, i, Doubled(s)) && NUL !in s
    ensures Format(fmt, i, args, k) == Out(s, Done)
    decreases |s|
  {
    if s == "" {
      assert fmt[i..][0] == fmt[i];
    } else {
      var head := if s[0] == '%' then "%%" else [s[0]];
      EndsWithout(fmt, i, head, Doubled(s[1..]));
      QuotedPrints(fmt, i + |head|, args, k, s[1..]);
      assert s == [s[0]] + s[1..];
      assert fmt[i + 0] == s[0];
      if s[0] == '%' {
        assert fmt[i + 1] == '%';
        LetterPrints(fmt, i, args, k, '%');
      }
    }
  }

  /** So doubling makes any text safe to pass as a format. */
  lemma QuotingIsSafe(s: string)
    requires NUL !in s
    ensures Format(Doubled(s) + [NUL], 0, [], 0) == Out(s, Done)
  {
    QuotedPrints(Doubled(s) + [NUL], 0, [], 0, s);
  }
}
