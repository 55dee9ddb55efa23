/**
 The CRC-32 of misc/mgx_crc32.cpp: the reflected polynomial 0xEDB88320 of section 8
 of RFC 1952, processed through a 256-entry table.  The register is returned as it
 stands, without the final complement of the RFC.

 A 32-bit word is modelled by its bits, least significant first.  The reference is a
 one-bit shift register fed with the bits of the message in the same order.  The table
 code is proved to compute that register, and the register is proved to tell apart any
 two messages that differ only inside a window of 32 consecutive bits.
 */
module Crc32 {
  import opened Bytes

  type Word = w: seq<bool> | |w| == 32 witness seq(32, _ => false)

  function Fill(b: bool): (w: Word) { seq(32, _ => b) }

  const ZERO: Word := Fill(false)
  const INIT: Word := Fill(true)
  /** 0xEDB88320, low nibble first. */
  const POLY: Word := [
    false, false, false, false,  // 0
    false, true, false, false,  // 2
    true, true, false, false,  // 3
    false, false, false, true,  // 8
    false, false, false, true,  // 8
    true, true, false, true,  // B
    true, false, true, true,  // D
    false, true, true, true  // E
  ]

  function Xor(a: Word, b: Word): (r: Word)
    ensures forall i :: 0 <= i < 32 ==> r[i] == (a[i] != b[i])
  {
    seq(32, i requires 0 <= i < 32 => a[i] != b[i])
  }

  function Complement(a: Word): (r: Word) { seq(32, i requires 0 <= i < 32 => !a[i]) }

  function Shr(a: Word, k: nat): (r: Word)
    requires k <= 32
  {
    a[k..] + seq(k, _ => false)
  }

  /** At most 32 bits as a word whose high bits are clear. */
  function Pad(u: seq<bool>): (r: Word)
    requires |u| <= 32
  {
    u + seq(32 - |u|, _ => false)
  }

  // ---------------------------------------------------------------- the bit register

  function BitStep(c: Word): (r: Word) {
    if c[0] then Xor(POLY, Shr(c, 1)) else Shr(c, 1)
  }

  /** n steps of the register with nothing fed in. */
  function StepN(c: Word, n: nat): (r: Word)
    decreases n, c
  {
    if n == 0 then c else StepN(BitStep(c), n - 1)
  }

  /** One message bit is mixed into the low end and the register steps. */
  function FeedBit(c: Word, b: bool): (r: Word) { BitStep(Xor(c, Pad([b]))) }

  function Feed(c: Word, bits: seq<bool>): (r: Word)
    decreases |bits|
  {
    if bits == [] then c else Feed(FeedBit(c, bits[0]), bits[1..])
  }

  /** The CRC register after a whole message, by the bit-serial definition. */
  function Register(c: Word, buf: seq<byte>): (r: Word) { Feed(c, Bits(buf)) }

  // ---------------------------------------------------------------- algebra of the register

  /** The number a word stands for, read from bit i up. */
  function ValueFrom(w: Word, i: nat): (n: nat)
    requires i <= 32
    decreases 32 - i, w
  {
    if i == 32 then 0 else (if w[i] then 1 else 0) + 2 * ValueFrom(w, i + 1)
  }

  /** The four bits of w from i up are those of a hexadecimal digit. */
  predicate Nibble(w: Word, i: nat, digit: nat)
    requires i <= 28
  {
    digit == (if w[i] then 1 else 0) + (if w[i + 1] then 2 else 0) + (if w[i + 2] then 4 else 0) + (if w[i + 3] then 8 else 0)
  }

  /** One hexadecimal digit, and the value above it. */
  lemma ValueDigit(w: Word, i: nat, digit: nat, above: nat)
    requires i <= 28 && ValueFrom(w, i + 4) == above && Nibble(w, i, digit)
    ensures ValueFrom(w, i) == digit + 16 * above
  {
    assert ValueFrom(w, i + 3) == (if w[i + 3] then 1 else 0) + 2 * above;
    assert ValueFrom(w, i + 2) == (if w[i + 2] then 1 else 0) + 2 * ValueFrom(w, i + 3);
    assert ValueFrom(w, i + 1) == (if w[i + 1] then 1 else 0) + 2 * ValueFrom(w, i + 2);
  }

  lemma PolyHigh(w: Word)
    requires w == POLY
    ensures Nibble(w, 28, 0xE) && Nibble(w, 24, 0xD) && Nibble(w, 20, 0xB) && Nibble(w, 16, 8)
  {
  }

  lemma PolyLow(w: Word)
    requires w == POLY
    ensures Nibble(w, 12, 8) && Nibble(w, 8, 3) && Nibble(w, 4, 2) && Nibble(w, 0, 0)
  {
  }

  lemma ValueHigh(w: Word)
    requires Nibble(w, 28, 0xE) && Nibble(w, 24, 0xD) && Nibble(w, 20, 0xB) && Nibble(w, 16, 8)
    ensures ValueFrom(w, 16) == 0xEDB8
  {
    ValueDigit(w, 28, 0xE, 0);
    ValueDigit(w, 24, 0xD, 0xE);
    ValueDigit(w, 20, 0xB, 0xED);
    ValueDigit(w, 16, 8, 0xEDB);
  }

  lemma ValueLow(w: Word)
    requires Nibble(w, 12, 8) && Nibble(w, 8, 3) && Nibble(w, 4, 2) && Nibble(w, 0, 0) && ValueFrom(w, 16) == 0xEDB8
    ensures ValueFrom(w, 0) == 0xEDB8_8320
  {
    ValueDigit(w, 12, 8, 0xEDB8);
    ValueDigit(w, 8, 3, 0xE_DB88);
    ValueDigit(w, 4, 2, 0xED_B883);
    ValueDigit(w, 0, 0, 0xEDB_8832);
  }

  /** The bit pattern above is the number of the source. */
  lemma PolyValue(w: Word)
    requires w == POLY
    ensures ValueFrom(w, 0) == 0xEDB8_8320
  {
    PolyHigh(w);
    PolyLow(w);
    ValueHigh(w);
    ValueLow(w);
  }

  /** The step is linear over exclusive-or. */
  lemma BitStepLinear(a: Word, b: Word)
    ensures BitStep(Xor(a, b)) == Xor(BitStep(a), BitStep(b))
  {
  }

  /** The top bit of the polynomial is set, so a step can be undone. */
  lemma BitStepInjective(a: Word, b: Word)
    requires BitStep(a) == BitStep(b)
    ensures a == b
  {
    assert a[0] == BitStep(a)[31] && b[0] == BitStep(b)[31];
    var mask: Word := if a[0] then POLY else ZERO;
    assert BitStep(a) == Xor(Shr(a, 1), mask) && BitStep(b) == Xor(Shr(b, 1), mask);
    XorInjective(Shr(a, 1), Shr(b, 1), mask);
    assert a == [a[0]] + Shr(a, 1)[..31] && b == [b[0]] + Shr(b, 1)[..31];
  }

  lemma XorInjective(a: Word, b: Word, w: Word)
    requires Xor(a, w) == Xor(b, w)
    ensures a == b
  {
    assert forall i :: 0 <= i < 32 ==> a[i] == (Xor(a, w)[i] != w[i]) && b[i] == (Xor(b, w)[i] != w[i]);
  }

  lemma {:induction false} StepNLinear(a: Word, b: Word, n: nat)
    ensures StepN(Xor(a, b), n) == Xor(StepN(a, n), StepN(b, n))
    decreases n
  {
    if n > 0 {
      BitStepLinear(a, b);
      StepNLinear(BitStep(a), BitStep(b), n - 1);
    }
  }

  lemma {:induction false} StepNInjective(a: Word, b: Word, n: nat)
    requires StepN(a, n) == StepN(b, n)
    ensures a == b
    decreases n
  {
    if n > 0 {
      StepNInjective(BitStep(a), BitStep(b), n - 1);
      BitStepInjective(a, b);
    }
  }

  lemma {:induction false} FeedInjective(a: Word, b: Word, bits: seq<bool>)
    requires Feed(a, bits) == Feed(b, bits)
    ensures a == b
    decreases |bits|
  {
    if bits != [] {
      FeedInjective(FeedBit(a, bits[0]), FeedBit(b, bits[0]), bits[1..]);
      BitStepInjective(Xor(a, Pad([bits[0]])), Xor(b, Pad([bits[0]])));
      XorInjective(a, b, Pad([bits[0]]));
    }
  }

  lemma {:induction false} FeedAppend(c: Word, u: seq<bool>, v: seq<bool>)
    ensures Feed(c, u + v) == Feed(Feed(c, u), v)
    decreases |u|
  {
    if u == [] {
      assert u + v == v;
    } else {
      FeedAppend(FeedBit(c, u[0]), u[1..], v);
      assert (u + v)[1..] == u[1..] + v;
    }
  }

  /** The register can be continued: its value after a is the start value for b. */
  lemma RegisterAppend(c: Word, a: seq<byte>, b: seq<byte>)
    ensures Register(c, a + b) == Register(Register(c, a), b)
  {
    BitsAppend(a, b);
    FeedAppend(c, Bits(a), Bits(b));
  }

  // ---------------------------------------------------------------- bit-serial = word-at-once

  /** Feeding up to 32 bits one by one is mixing them in at once and stepping. */
  lemma {:induction false} FeedAtOnce(c: Word, u: seq<bool>)
    requires |u| <= 32
    ensures Feed(c, u) == StepN(Xor(c, Pad(u)), |u|)
    decreases |u|
  {
    if u == [] {
      assert Xor(c, Pad(u)) == c;
    } else {
      MixLowBit(c, u);
      FeedAtOnce(FeedBit(c, u[0]), u[1..]);
    }
  }

  lemma MixLowBit(c: Word, u: seq<bool>)
    requires 0 < |u| <= 32
    ensures BitStep(Xor(c, Pad(u))) == Xor(FeedBit(c, u[0]), Pad(u[1..]))
  {
    var high: Word := [false] + Pad(u)[1..];
    assert Xor(c, Pad(u)) == Xor(Xor(c, Pad([u[0]])), high);
    BitStepLinear(Xor(c, Pad([u[0]])), high);
    assert BitStep(high) == Pad(u[1..]);
  }

  /** With n clear low bits, n steps only shift. */
  lemma {:induction false} StepNShifts(c: Word, n: nat)
    requires n <= 32 && forall i :: 0 <= i < n ==> !c[i]
    ensures StepN(c, n) == Shr(c, n)
    decreases n
  {
    if n > 0 {
      StepNShifts(Shr(c, 1), n - 1);
      assert Shr(Shr(c, 1), n - 1) == Shr(c, n);
    } else {
      assert Shr(c, 0) == c;
    }
  }

  /** The table identity: only the low byte needs the eight steps. */
  lemma TableStep(x: Word)
    ensures StepN(x, 8) == Xor(StepN(Pad(x[..8]), 8), Shr(x, 8))
  {
    var high: Word := seq(8, _ => false) + x[8..];
    assert x == Xor(Pad(x[..8]), high);
    StepNLinear(Pad(x[..8]), high, 8);
    StepNShifts(high, 8);
    assert Shr(high, 8) == Shr(x, 8);
  }

  lemma RegisterSnoc(c: Word, buf: seq<byte>, b: byte)
    ensures Register(c, buf + [b]) == StepN(Xor(Register(c, buf), Pad(ByteBits(b))), 8)
  {
    assert (buf + [b])[..|buf|] == buf;
    FeedAppend(c, Bits(buf), ByteBits(b));
    FeedAtOnce(Register(c, buf), ByteBits(b));
  }

  // ---------------------------------------------------------------- the table code

  class Crc {
    const table: array<Word>

    ghost predicate Valid()
      reads this, table
    {
      table.Length == 256 && forall i :: 0 <= i < 256 ==> table[i] == StepN(Pad(NatBits(i, 8)), 8)
    }

    /** init_crc32_table */
    constructor ()
      ensures Valid() && fresh(table)
    {
      table := new Word[256];
      new;
      for i := 0 to 256
        invariant forall k :: 0 <= k < i ==> table[k] == StepN(Pad(NatBits(k, 8)), 8)
      {
        var c: Word := Pad(NatBits(i, 8));
        for j := 0 to 8
          invariant StepN(c, 8 - j) == StepN(Pad(NatBits(i, 8)), 8)
        {
          if c[0] {
            c := Xor(POLY, Shr(c, 1));
          } else {
            c := Shr(c, 1);
          }
        }
        table[i] := c;
      }
    }

    /** get_crc32: the table loop computes the bit-serial register, for every start value. */
    method GetCrc32(buf: seq<byte>, crc: Word := INIT) returns (r: Word)
      requires Valid()
      ensures r == Register(crc, buf)
    {
      r := crc;
      for i := 0 to |buf|
        invariant r == Register(crc, buf[..i])
      {
        ghost var before := r;
        var x := Xor(r, Pad(ByteBits(buf[i])));
        TableStep(x);
        assert Shr(x, 8) == Shr(before, 8);
        RegisterSnoc(crc, buf[..i], buf[i]);
        assert buf[..i + 1] == buf[..i] + [buf[i]];
        r := Xor(table[BitsByte(x[..8]) as int], Shr(r, 8));
      }
      assert buf[..|buf|] == buf;
    }
  }

  // ---------------------------------------------------------------- error detection

  /** Over a window of at most 32 bits the register is injective in the window: two
      windows that lead to the same register from the same start are the same. */
  lemma WindowInjective(c: Word, u: seq<bool>, v: seq<bool>)
    requires |u| == |v| <= 32
    requires Feed(c, u) == Feed(c, v)
    ensures u == v
  {
    FeedAtOnce(c, u);
    FeedAtOnce(c, v);
    StepNInjective(Xor(c, Pad(u)), Xor(c, Pad(v)), |u|);
    assert Xor(c, Pad(u)) == Xor(Pad(u), c) && Xor(c, Pad(v)) == Xor(Pad(v), c);
    XorInjective(Pad(u), Pad(v), c);
    assert u == Pad(u)[..|u|] && v == Pad(v)[..|v|];
  }

  /** a and b agree outside the 32 bits that start at bit k. */
  ghost predicate DifferWithin(a: seq<byte>, b: seq<byte>, k: nat) {
    && |a| == |b|
    && forall i :: 0 <= i < 8 * |a| && !(k <= i < k + 32) ==> Bits(a)[i] == Bits(b)[i]
  }

  /** Burst detection: two different messages of equal length that differ only inside
      some 32 consecutive bits have different CRCs, from every start value. */
  lemma BurstDetected(c: Word, a: seq<byte>, b: seq<byte>, k: nat)
    requires a != b && DifferWithin(a, b, k)
    ensures Register(c, a) != Register(c, b)
  {
    var A, B := Bits(a), Bits(b);
    var lo := if k < |A| then k else |A|;
    var hi := if k + 32 < |A| then k + 32 else |A|;
    assert A == A[..lo] + A[lo..hi] + A[hi..] && B == B[..lo] + B[lo..hi] + B[hi..];
    assert A[..lo] == B[..lo] && A[hi..] == B[hi..];
    FeedAppend(c, A[..lo] + A[lo..hi], A[hi..]);
    FeedAppend(c, B[..lo] + B[lo..hi], B[hi..]);
    FeedAppend(c, A[..lo], A[lo..hi]);
    FeedAppend(c, B[..lo], B[lo..hi]);
    if Register(c, a) == Register(c, b) {
      var r := Feed(c, A[..lo]);
      FeedInjective(Feed(r, A[lo..hi]), Feed(r, B[lo..hi]), A[hi..]);
      WindowInjective(r, A[lo..hi], B[lo..hi]);
      BitsInjective(a, b);
    }
  }

  /** The byte form: messages that differ only within four consecutive bytes. */
  lemma FourBytesDetected(c: Word, pre: seq<byte>, u: seq<byte>, v: seq<byte>, post: seq<byte>)
    requires |u| == |v| <= 4 && u != v
    ensures Register(c, pre + u + post) != Register(c, pre + v + post)
  {
    var a, b := pre + u + post, pre + v + post;
    assert a[|pre|..|pre| + |u|] == u && b[|pre|..|pre| + |v|] == v;
    BitsAppend(pre + u, post);
    BitsAppend(pre, u);
    BitsAppend(pre + v, post);
    BitsAppend(pre, v);
    BurstDetected(c, a, b, 8 * |pre|);
  }

  // ---------------------------------------------------------------- residue

  /** The four bytes of a word as a little-endian machine stores it. */
  function LittleEndian32(w: Word): (s: seq<byte>)
    ensures |s| == 4
    ensures Bits(s) == w
  {
    var a, b, c, d := BitsByte(w[..8]), BitsByte(w[8..16]), BitsByte(w[16..24]), BitsByte(w[24..]);
    BitsOfFour(a, b, c, d);
    FourParts(w);
    [a, b, c, d]
  }

  lemma FourParts(w: Word)
    ensures w[..8] + w[8..16] + w[16..24] + w[24..] == w
  {
  }

  lemma BitsOfFour(a: byte, b: byte, c: byte, d: byte)
    ensures Bits([a, b, c, d]) == ByteBits(a) + ByteBits(b) + ByteBits(c) + ByteBits(d)
  {
    assert [a, b, c, d][..3] == [a, b, c] && [a, b, c][..2] == [a, b] && [a, b][..1] == [a] && [a][..0] == [];
    assert Bits([a]) == ByteBits(a);
    assert Bits([a, b]) == ByteBits(a) + ByteBits(b);
    assert Bits([a, b, c]) == ByteBits(a) + ByteBits(b) + ByteBits(c);
  }

  lemma {:induction false} StepNZero(n: nat)
    ensures StepN(ZERO, n) == ZERO
  {
    if n > 0 {
      assert BitStep(ZERO) == ZERO;
      StepNZero(n - 1);
    }
  }

  /** A message followed by its own CRC, stored little-endian, leaves the register at 0. */
  lemma Residue(c: Word, buf: seq<byte>)
    ensures Register(c, buf + LittleEndian32(Register(c, buf))) == ZERO
  {
    var r := Register(c, buf);
    RegisterAppend(c, buf, LittleEndian32(r));
    FeedAtOnce(r, r);
    assert Pad(r) == r && Xor(r, r) == ZERO;
    StepNZero(32);
  }
}
