/**
 What the CRC of section 8 of RFC 1952 is, without any register: the message, low bit of
 each byte first, is a polynomial over the field of two elements; it is shifted up by 32
 places, its first 32 coefficients are complemented, and the result is divided by the
 generator.  The CRC is the complement of the remainder, the coefficient of the highest
 power in the lowest bit.

 A polynomial is the sequence of its coefficients, highest power first.
 */
module CrcDivision {
  import opened Bytes
  import opened Crc32

  type Poly = seq<bool>

  function Zeros(n: nat): (p: Poly) { seq(n, _ => false) }

  function Add(a: Poly, b: Poly): (r: Poly)
    requires |a| == |b|
  {
    seq(|a|, i requires 0 <= i < |a| => a[i] != b[i])
  }

  /** Schoolbook multiplication. */
  function Mul(q: Poly, g: Poly): (r: Poly)
    requires |g| > 0
    ensures |r| == |q| + |g| - 1
  {
    if q == [] then Zeros(|g| - 1)
    else Add((if q[0] then g else Zeros(|g|)) + Zeros(|q| - 1), [false] + Mul(q[1..], g))
  }

  /** x^32 + x^26 + x^23 + x^22 + x^16 + x^12 + x^11 + x^10 + x^8 + x^7 + x^5 + x^4 + x^2 + x + 1 */
  predicate InGenerator(k: int) { k in {32, 26, 23, 22, 16, 12, 11, 10, 8, 7, 5, 4, 2, 1, 0} }

  function Generator(): (g: Poly)
    ensures |g| == 33
  {
    seq(33, i => InGenerator(32 - i))
  }

  /** s = q * g + r for some q, and r has fewer than 33 coefficients. */
  ghost predicate IsRemainder(s: Poly, r: Word) {
    exists q: Poly :: |q| + 32 == |s| && s == Add(Mul(q, Generator()), Zeros(|q|) + r)
  }

  /** bits * x^32 with w added to the first 32 coefficients. */
  function Preset(bits: seq<bool>, w: Word): (s: Poly)
    ensures |s| == |bits| + 32
  {
    Add(bits + Zeros(32), w + Zeros(|bits|))
  }

  /** The polynomial 0xEDB88320 of the source is the generator without its highest term. */
  lemma GeneratorIsPoly(g: Poly)
    requires g == Generator()
    ensures g[0] && g[1..] == POLY
  {
  }

  // ---------------------------------------------------------------- the register divides

  function Quotient(w: Word, bits: seq<bool>): (q: Poly)
    ensures |q| == |bits|
    decreases |bits|
  {
    if bits == [] then [] else [bits[0] != w[0]] + Quotient(FeedBit(w, bits[0]), bits[1..])
  }

  /** The first step of the long division. */
  lemma FeedBitAt(w: Word, b: bool, i: nat)
    requires i < 32
    ensures FeedBit(w, b)[i] == (((b != w[0]) && POLY[i]) != (i < 31 && w[i + 1]))
  {
    var c := Xor(w, Pad([b]));
    assert c[0] == (b != w[0]);
    assert i < 31 ==> c[i + 1] == w[i + 1];
  }

  lemma PresetStep(w: Word, bits: seq<bool>)
    requires bits != []
    ensures var a := bits[0] != w[0];
            var next := Preset(bits[1..], FeedBit(w, bits[0]));
            Preset(bits, w) == Add(Head(a, Generator(), |bits| - 1), [false] + next)
  {
    var a, b := bits[0] != w[0], bits[0];
    var next := Preset(bits[1..], FeedBit(w, b));
    var g := if a then Generator() else Zeros(33);
    GeneratorIsPoly(Generator());
    forall i | 0 <= i < |bits| + 32
      ensures Preset(bits, w)[i] == ((g + Zeros(|bits| - 1))[i] != ([false] + next)[i])
    {
      if 0 < i <= 32 {
        FeedBitAt(w, b, i - 1);
      }
    }
  }

  lemma AddAssoc(a: Poly, b: Poly, c: Poly)
    requires |a| == |b| == |c|
    ensures Add(a, Add(b, c)) == Add(Add(a, b), c)
  {
  }

  lemma ShiftAdd(m: Poly, n: nat, r: Word)
    requires |m| == n + 32
    ensures [false] + Add(m, Zeros(n) + r) == Add([false] + m, Zeros(n + 1) + r)
  {
  }

  function Head(a: bool, g: Poly, n: nat): (h: Poly) { (if a then g else Zeros(|g|)) + Zeros(n) }

  lemma MulCons(a: bool, q: Poly, g: Poly)
    requires |g| == 33
    ensures Mul([a] + q, g) == Add(Head(a, g, |q|), [false] + Mul(q, g))
  {
    assert ([a] + q)[1..] == q;
  }

  /** One more coefficient of the quotient in front. */
  lemma MulStep(a: bool, q: Poly, g: Poly, r: Word)
    requires |g| == 33
    ensures Add(Mul([a] + q, g), Zeros(|q| + 1) + r) == Add(Head(a, g, |q|), [false] + Add(Mul(q, g), Zeros(|q|) + r))
  {
    MulCons(a, q, g);
    ShiftAdd(Mul(q, g), |q|, r);
    AddAssoc(Head(a, g, |q|), [false] + Mul(q, g), Zeros(|q| + 1) + r);
  }

  /** Feeding the bits of a message is dividing by the generator. */
  lemma {:induction false} FeedDivides(w: Word, bits: seq<bool>)
    ensures Preset(bits, w) == Add(Mul(Quotient(w, bits), Generator()), Zeros(|bits|) + Feed(w, bits))
    decreases |bits|
  {
    if bits == [] {
      assert Zeros(0) + w == w;
    } else {
      var w1, rest := FeedBit(w, bits[0]), bits[1..];
      FeedDivides(w1, rest);
      PresetStep(w, bits);
      MulStep(bits[0] != w[0], Quotient(w1, rest), Generator(), Feed(w1, rest));
    }
  }

  lemma FeedIsRemainder(w: Word, bits: seq<bool>)
    ensures IsRemainder(Preset(bits, w), Feed(w, bits))
  {
    FeedDivides(w, bits);
  }

  // ---------------------------------------------------------------- there is one remainder

  lemma MulFirst(q: Poly, g: Poly, r: Word)
    requires q != [] && |g| == 33 && g[0]
    ensures var s := Add(Mul(q, g), Zeros(|q|) + r);
            && s[0] == q[0]
            && s == Add(Head(q[0], g, |q| - 1), [false] + Add(Mul(q[1..], g), Zeros(|q| - 1) + r))
  {
    MulStep(q[0], q[1..], g, r);
    assert q == [q[0]] + q[1..];
  }

  lemma AddCancels(h: Poly, a: Poly, b: Poly)
    requires |h| == |a| + 1 == |b| + 1 && Add(h, [false] + a) == Add(h, [false] + b)
    ensures a == b
  {
    forall i | 0 <= i < |a| ensures a[i] == b[i] {
      assert Add(h, [false] + a)[i + 1] == Add(h, [false] + b)[i + 1];
    }
  }

  /** Quotient and remainder are determined by the polynomial. */
  lemma {:induction false} DivisionUnique(p: Poly, r: Word, q: Poly, t: Word, g: Poly)
    requires |p| == |q| && |g| == 33 && g[0]
    requires Add(Mul(p, g), Zeros(|p|) + r) == Add(Mul(q, g), Zeros(|q|) + t)
    ensures p == q && r == t
    decreases |p|
  {
    if p == [] {
      NoQuotient(g, r);
      NoQuotient(g, t);
    } else {
      MulFirst(p, g, r);
      MulFirst(q, g, t);
      var a := Add(Mul(p[1..], g), Zeros(|p| - 1) + r);
      var b := Add(Mul(q[1..], g), Zeros(|q| - 1) + t);
      AddCancels(Head(p[0], g, |p| - 1), a, b);
      DivisionUnique(p[1..], r, q[1..], t, g);
    }
  }

  lemma NoQuotient(g: Poly, r: Word)
    requires |g| == 33
    ensures Add(Mul([], g), Zeros(0) + r) == r
  {
  }

  lemma RemainderUnique(s: Poly, r: Word, t: Word)
    requires IsRemainder(s, r) && IsRemainder(s, t)
    ensures r == t
  {
    var p: Poly :| |p| + 32 == |s| && s == Add(Mul(p, Generator()), Zeros(|p|) + r);
    var q: Poly :| |q| + 32 == |s| && s == Add(Mul(q, Generator()), Zeros(|q|) + t);
    GeneratorIsPoly(Generator());
    DivisionUnique(p, r, q, t, Generator());
  }

  // ---------------------------------------------------------------- the CRC of the RFC

  /** From any start value, get_crc32 computes the remainder, and nothing else is one. */
  lemma RegisterIsRemainder(c: Word, buf: seq<byte>, r: Word)
    ensures IsRemainder(Preset(Bits(buf), c), r) <==> r == Register(c, buf)
  {
    FeedIsRemainder(c, Bits(buf));
    if IsRemainder(Preset(Bits(buf), c), r) {
      RemainderUnique(Preset(Bits(buf), c), r, Register(c, buf));
    }
  }

  /** crc is the CRC of buf in the sense of section 8 of RFC 1952. */
  ghost predicate IsRfc1952Crc(buf: seq<byte>, crc: Word) {
    IsRemainder(Preset(Bits(buf), INIT), Complement(crc))
  }

  /** The result from the default start value is the complement of the CRC of the RFC. */
  lemma Rfc1952Complement(buf: seq<byte>, crc: Word)
    ensures IsRfc1952Crc(buf, crc) <==> Register(INIT, buf) == Complement(crc)
  {
    RegisterIsRemainder(INIT, buf, Complement(crc));
  }
}
