/**
 Bytes, and bit strings written least significant bit first.
 */
module Bytes {

  newtype byte = x: int | 0 <= x < 256

  /** The k low bits of n. */
  function NatBits(n: nat, k: nat): (bits: seq<bool>)
    ensures |bits| == k
    decreases k, n
  {
    if k == 0 then [] else [n % 2 == 1] + NatBits(n / 2, k - 1)
  }

  function NatVal(bits: seq<bool>): (n: nat) {
    if bits == [] then 0 else (if bits[0] then 1 else 0) + 2 * NatVal(bits[1..])
  }

  function TwoTo(k: nat): (p: nat)
    ensures p >= 1
  {
    if k == 0 then 1 else 2 * TwoTo(k - 1)
  }

  /** k bits hold exactly the numbers below 2^k. */
  lemma {:induction false} NatBitsRoundTrip(n: nat, k: nat)
    requires n < TwoTo(k)
    ensures NatVal(NatBits(n, k)) == n
    decreases k
  {
    if k > 0 {
      NatBitsRoundTrip(n / 2, k - 1);
      assert NatBits(n, k)[1..] == NatBits(n / 2, k - 1);
    }
  }

  lemma {:induction false} NatValRoundTrip(bits: seq<bool>)
    ensures NatVal(bits) < TwoTo(|bits|)
    ensures NatBits(NatVal(bits), |bits|) == bits
  {
    if bits != [] {
      NatValRoundTrip(bits[1..]);
    }
  }

  function ByteBits(b: byte): (bits: seq<bool>)
    ensures |bits| == 8
  {
    NatBits(b as nat, 8)
  }

  /** The byte with the given eight bits. */
  function BitsByte(bits: seq<bool>): (b: byte)
    requires |bits| == 8
    ensures ByteBits(b) == bits
  {
    assert NatVal(bits) < 256 && NatBits(NatVal(bits), 8) == bits by {
      NatValRoundTrip(bits);
      assert TwoTo(8) == 256;
    }
    NatVal(bits) as byte
  }

  lemma ByteBitsInjective(a: byte, b: byte)
    requires ByteBits(a) == ByteBits(b)
    ensures a == b
  {
    assert TwoTo(8) == 256;
    NatBitsRoundTrip(a as nat, 8);
    NatBitsRoundTrip(b as nat, 8);
  }

  /** A byte string as a bit string, the bytes in order and each low bit first. */
  function Bits(buf: seq<byte>): (bits: seq<bool>)
    ensures |bits| == 8 * |buf|
  {
    if buf == [] then [] else Bits(buf[..|buf| - 1]) + ByteBits(buf[|buf| - 1])
  }

  lemma BitsSnoc(s: seq<byte>, front: seq<byte>, last: byte)
    requires s == front + [last]
    ensures Bits(s) == Bits(front) + ByteBits(last)
  {
    assert s[..|s| - 1] == front;
  }

  lemma Regroup(a: seq<bool>, b: seq<bool>, c: seq<bool>)
    ensures a + b + c == a + (b + c)
  {
  }

  lemma {:induction false} BitsAppend(a: seq<byte>, b: seq<byte>)
    ensures Bits(a + b) == Bits(a) + Bits(b)
    decreases |b|
  {
    if b == [] {
      assert a + b == a;
    } else {
      var front, last := b[..|b| - 1], b[|b| - 1];
      BitsAppend(a, front);
      BitsSnoc(a + b, a + front, last);
      BitsSnoc(b, front, last);
      Regroup(Bits(a), Bits(front), ByteBits(last));
    }
  }

  lemma {:induction false} BitsInjective(a: seq<byte>, b: seq<byte>)
    requires |a| == |b| && Bits(a) == Bits(b)
    ensures a == b
  {
    if a != [] {
      var n := |a| - 1;
      assert Bits(a)[..8 * n] == Bits(a[..n]) && Bits(b)[..8 * n] == Bits(b[..n]);
      BitsInjective(a[..n], b[..n]);
      assert Bits(a)[8 * n..] == ByteBits(a[n]) && Bits(b)[8 * n..] == ByteBits(b[n]);
      ByteBitsInjective(a[n], b[n]);
      assert a == a[..n] + [a[n]] && b == b[..n] + [b[n]];
    }
  }

  // ---------------------------------------------------------------- 16-bit little-endian fields

  /** An unsigned short as a little-endian machine stores it. */
  function LittleEndian16(n: nat): (s: seq<byte>)
    requires n < 0x1_0000
    ensures |s| == 2
    ensures Nat16(s) == n
  {
    [(n % 256) as byte, (n / 256) as byte]
  }

  function Nat16(s: seq<byte>): (n: nat)
    requires |s| == 2
    ensures n < 0x1_0000
  {
    s[0] as nat + 256 * s[1] as nat
  }
}
