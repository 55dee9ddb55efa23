/**
 The arithmetic of "%f" in app/mgx_printf.cpp: the whole part is taken off, the fraction is
 scaled by a power of ten in a machine word, one half is added and the result truncated, all
 in doubles.  FixedExact says for which numbers and precisions this rounds correctly.
 */
module FixedPoint {
  import Bytes
  import opened Digits
  import opened Doubles

  // ---------------------------------------------------------------- adding a half in doubles

  function RoundHalfUp(y: real): (n: int) { (y + 0.5).Floor }

  /** (uint64_t)(y + 0.5) where y is the rounded product: two roundings. */
  function AddHalf(y: real): (n: int)
    requires y >= 0.0
  {
    RoundNonNegative(y);
    Round(Round(y) + 0.5).Floor
  }

  const TWO52: real := 4503599627370496.0
  const TWO53: real := 9007199254740992.0

  lemma Powers()
    ensures Pow2(0) == 1.0 && Pow2(-1) == 0.5 && Pow2(52) == TWO52 && Pow2(53) == TWO53
    ensures Pow2(11) == 2048.0 && Pow2(64) == TWO64 as real
  {
    assert Pow2(4) == 16.0;
    PowerAdd(4, 4, 16);
    PowerAdd(8, 8, 256);
    PowerAdd(16, 16, 65536);
    PowerAdd(32, 16, 65536);
    PowerAdd(48, 4, 16);
    PowerAdd(48, 16, 65536);
    ShiftStep(1.0, 52);
    PowerAdd(7, 4, 16);
    assert Pow2(7) == 128.0;
  }

  lemma PowerAdd(a: nat, b: nat, n: nat)
    requires Pow2(b) == n as real
    ensures Pow2(a + b) == n as real * Pow2(a)
  {
    ShiftShift(1.0, b, a);
    ShiftTimes(n as real, a);
  }

  // ---------------------------------------------------------------- below 2^52

  /** Half numbers are multiples of the last place here. */
  lemma HalfMultiple(n: int, z: real)
    requires 0.0 < z < TWO52
    ensures Multiple(n as real / 2.0, UlpExp(z)) && UlpExp(z) <= -1
  {
    Powers();
    UlpBelow(z, 52);
    assert Shift(n as real / 2.0, 1) == n as real;
    Finer(n as real / 2.0, -1, UlpExp(z));
  }

  lemma FirstRounding(y: real, t: int)
    requires 0.0 <= y < TWO52 && t == RoundHalfUp(y)
    ensures t as real - 0.5 <= Round(y) <= t as real + 0.5
  {
    RoundNonNegative(y);
    if y > 0.0 {
      HalfMultiple(2 * t + 1, y);
      assert (2 * t + 1) as real / 2.0 == t as real + 0.5;
      RoundAtMost(y, t as real + 0.5);
      if t >= 1 {
        HalfMultiple(2 * t - 1, y);
        assert (2 * t - 1) as real / 2.0 == t as real - 0.5;
        RoundAtLeast(y, t as real - 0.5);
      }
    }
  }

  /** The double before one half. */
  function BeforeHalf(): (p: real) { 0.5 - Pow2(-54) }

  lemma FloorIs(r: real, t: int)
    requires t as real <= r < t as real + 1.0
    ensures r.Floor == t
  {
  }

  /** Adding a half to a number of at least a half does not round up to a whole number. */
  lemma SecondRoundingLarge(p: real, t: int)
    requires 0.5 <= p < TWO52 && IsDouble(p) && t as real <= p + 0.5 < t as real + 1.0
    ensures Round(p + 0.5) < t as real + 1.0
  {
    var q := p + 0.5;
    Powers();
    HalfMultiple(1, p);
    UlpMonotone(p, q);
    if UlpExp(q) == UlpExp(p) {
      MultipleSum(p, 0.5, UlpExp(p));
      RoundExact(q);
    } else {
      var k := Binade(p);
      BinadeAbove(p, -1);
      Crossing(p, q, t, k);
    }
  }

  lemma Crossing(p: real, q: real, t: int, k: int)
    requires 0.5 <= p < TWO52 && q == p + 0.5 && k == Binade(p) >= -1 && UlpExp(q) > UlpExp(p)
    requires t as real <= q < t as real + 1.0
    ensures Round(q) < t as real + 1.0
  {
    Powers();
    assert Binade(q) > k;
    Pow2Monotone(k + 1, Binade(q));
    PowerMultiple(k + 1, 0);
    var n := Pow2(k + 1).Floor;
    assert n as real <= q < n as real + 0.5;
    WholeBetween(n, t);
    WholeBetween(t, n);
    RoundNear(q);
    BinadeBelow(q, 53);
    Pow2Monotone(UlpExp(q), 0);
  }

  /** Below a half it does so only for the double before one half. */
  lemma SecondRoundingSmall(p: real)
    requires 0.0 <= p < 0.5 && IsDouble(p)
    ensures p == BeforeHalf() ==> Round(p + 0.5) == 1.0
    ensures p != BeforeHalf() ==> Round(p + 0.5) < 1.0
  {
    var q := p + 0.5;
    Powers();
    BinadeUnique(q, -1);
    assert UlpExp(q) == -53;
    ShiftStep(1.0, -54);
    if p == BeforeHalf() {
      TieUp(q);
    } else {
      if p > BeforeHalf() {
        BeforeHalfIsLess();
        Quarter(p);
        assert Shift(0.5, 1) == 1.0;
        Finer(0.5, -1, -54);
        Gap(p, 0.5, -54);
      }
      RoundNear(q);
    }
  }

  lemma Quarter(p: real)
    requires 0.0 < p && BeforeHalf() < p < 0.5 && IsDouble(p)
    ensures Multiple(p, -54)
  {
    Powers();
    ShiftStep(1.0, -2);
    Pow2Monotone(-54, -2);
    BinadeUnique(p, -2);
  }

  lemma TieUp(q: real)
    requires q == 1.0 - Pow2(-54) && q > 0.0 && UlpExp(q) == -53
    ensures Round(q) == 1.0
  {
    Powers();
    ShiftSum(q, Pow2(-54), 53);
    ShiftShift(1.0, -54, 53);
    var n := NearestEven(Shift(q, 53));
    assert Shift(q, 53) == TWO53 - 0.5;
    assert n == 9007199254740992 || n == 9007199254740991;
    ShiftBack(1.0, 53);
  }

  lemma SecondRounding(p: real, t: int)
    requires 0.0 <= p < TWO52 && IsDouble(p) && t as real - 0.5 <= p <= t as real + 0.5
    ensures Round(p + 0.5).Floor == if p == t as real + 0.5 || p == BeforeHalf() then t + 1 else t
  {
    var q := p + 0.5;
    Powers();
    assert t >= 0;
    if p == t as real + 0.5 {
      assert q == (t + 1) as real;
      WholeIsDouble(t + 1);
      RoundExact(q);
    } else {
      UlpBelow(q, 53);
      WholeMultiple(t, UlpExp(q));
      RoundAtLeast(q, t as real);
      if p >= 0.5 {
        SecondRoundingLarge(p, t);
        BeforeHalfIsLess();
        FloorIs(Round(q), t);
      } else {
        SecondRoundingSmall(p);
        assert t == 0;
        if p != BeforeHalf() {
          FloorIs(Round(q), 0);
        }
      }
    }
  }

  lemma BeforeHalfIsLess()
    ensures 0.25 <= BeforeHalf() < 0.5
  {
    Pow2Positive(-54);
    Powers();
    ShiftStep(1.0, -2);
    Pow2Monotone(-54, -2);
  }

  /** Below 2^52 the result is right or one too large, and the latter exactly if the product
      rounds to the next half, or to the double before one half. */
  lemma SmallRounds(y: real)
    requires 0.0 <= y < TWO52
    ensures var t := RoundHalfUp(y);
            AddHalf(y) == if Round(y) == t as real + 0.5 || Round(y) == BeforeHalf() then t + 1 else t
  {
    var t, p := RoundHalfUp(y), Round(y);
    RoundNonNegative(y);
    RoundIsDouble(y);
    FirstRounding(y, t);
    if p < TWO52 {
      SecondRounding(p, t);
    } else {
      SmallTop(y, t);
    }
  }

  lemma SmallTop(y: real, t: int)
    requires 0.0 <= y < TWO52 && Round(y) >= TWO52 && t as real - 0.5 <= Round(y) <= t as real + 0.5
    ensures Round(y) == t as real && Round(Round(y) + 0.5) == t as real && Round(y) != BeforeHalf()
  {
    Powers();
    WholeMultiple(4503599627370496, 0);
    UlpBelow(y, 52);
    Finer(TWO52, 0, UlpExp(y));
    RoundAtMost(y, TWO52);
    WholeBetween(t, 4503599627370496);
    WholeBetween(4503599627370496, t);
    MiddleTie(4503599627370496);
    BeforeHalfIsLess();
  }

  // ---------------------------------------------------------------- from 2^52 on

  function EvenOf(n: int): (m: int) { if n % 2 == 0 then n else n + 1 }

  /** Between 2^52 and 2^53 adding a half is a tie. */
  lemma MiddleTie(n: int)
    requires 4503599627370496 <= n < 9007199254740992
    ensures Round(n as real + 0.5) == EvenOf(n) as real
  {
    var q := n as real + 0.5;
    Powers();
    BinadeUnique(q, 52);
    assert UlpExp(q) == 0 && Shift(q, 0) == q;
    var m := NearestEven(q);
    assert m == n || m == n + 1;
  }

  lemma TopIsDouble()
    ensures IsDouble(TWO53) && UlpExp(TWO53) == 1
  {
    Powers();
    ShiftStep(1.0, 53);
    BinadeUnique(TWO53, 53);
    PowerMultiple(53, 1);
  }

  lemma MiddleRounds(y: real)
    requires TWO52 <= y < TWO53
    ensures AddHalf(y) == RoundHalfUp(y) <==> RoundHalfUp(y) % 2 == 0
  {
    Powers();
    BinadeUnique(y, 52);
    assert UlpExp(y) == 0 && Shift(y, 0) == y;
    var p, t := NearestEven(y), RoundHalfUp(y);
    assert Round(y) == p as real;
    assert 4503599627370496 <= p <= 9007199254740992;
    assert t == p || t == p + 1;
    if p < 9007199254740992 {
      MiddleTie(p);
    } else {
      TopIsDouble();
      LargeHalf(TWO53, 1);
      assert t == p;
    }
  }

  /** From 2^53 on adding a half to a double changes nothing. */
  lemma LargeHalf(p: real, e: int)
    requires p >= TWO53 && IsDouble(p) && e == UlpExp(p)
    ensures e >= 1 && Round(p + 0.5) == p && IsWhole(p)
  {
    Powers();
    var k, q := Binade(p), p + 0.5;
    BinadeAbove(p, 53);
    assert e == k - 52;
    PowerMultiple(k + 1, e);
    Gap(p, Pow2(k + 1), e);
    Pow2Monotone(1, e);
    assert Pow2(1) == 2.0;
    BinadeUnique(q, k);
    RoundAtLeast(q, p);
    RoundNear(q);
    RoundMultiple(q);
    if Round(q) > p {
      Gap(p, Round(q), e);
    }
    Finer(p, e, 0);
    assert Shift(p, 0) == p;
  }

  lemma LargeRounds(y: real)
    requires TWO53 <= y < Pow2(64)
    ensures AddHalf(y) == RoundHalfUp(y) <==> Multiple(RoundHalfUp(y) as real, UlpExp(y))
  {
    Powers();
    var e, p, t := UlpExp(y), Round(y), RoundHalfUp(y);
    BinadeAbove(y, 53);
    BinadeBelow(y, 64);
    PowerMultiple(53, e);
    RoundAtLeast(y, TWO53);
    RoundIsDouble(y);
    LargeHalf(p, UlpExp(p));
    assert AddHalf(y) == p.Floor && p == p.Floor as real;
    RoundMultiple(y);
    if Multiple(t as real, e) {
      NearestMultiple(y, t, e);
    }
  }

  lemma NearestMultiple(y: real, t: int, e: int)
    requires y > 0.0 && e == UlpExp(y) >= 1 && Multiple(t as real, e) && Multiple(Round(y), e)
    requires t as real - 0.5 <= y < t as real + 0.5
    ensures Round(y) == t as real
  {
    RoundNear(y);
    Pow2Monotone(1, e);
    assert Pow2(1) == 2.0;
    if Round(y) > t as real {
      Gap(t as real, Round(y), e);
    } else if Round(y) < t as real {
      Gap(Round(y), t as real, e);
    }
  }

  /** Rounding y to a whole number in the way of the code is correct.  Below 2^52: the
      double next to y is not the half above it, nor the double before one half.  Up to
      2^53: the right result is even.  From there on: the right result is a double. */
  ghost predicate RoundsWell(y: real)
    requires y >= 0.0
  {
    var t := RoundHalfUp(y);
    if y < TWO52 then Round(y) != t as real + 0.5 && Round(y) != BeforeHalf()
    else if y < TWO53 then t % 2 == 0
    else Multiple(t as real, UlpExp(y))
  }

  lemma AddHalfExact(y: real)
    requires 0.0 <= y < Pow2(64)
    ensures AddHalf(y) == RoundHalfUp(y) <==> RoundsWell(y)
  {
    if y < TWO52 {
      SmallRounds(y);
    } else if y < TWO53 {
      MiddleRounds(y);
    } else {
      LargeRounds(y);
    }
  }

  // ---------------------------------------------------------------- the two printed numbers

  /** scale: a power of ten in a machine word. */
  function Scale64(n: nat): (s: nat)
    ensures s < TWO64
    decreases n, 0
  {
    if n == 0 then 1 else Scale64(n - 1) * 10 % TWO64
  }

  function Frac(x: real): (d: real)
    ensures 0.0 <= d < 1.0
  {
    x - x.Floor as real
  }

  /** f - (double)ui64 */
  function Difference(x: real): (d: real)
    requires x >= 0.0 && IsDouble(x)
    ensures d == Frac(x) && IsDouble(d)
  {
    FractionIsDouble(x);
    RoundExact(x.Floor as real);
    RoundExact(Frac(x));
    Round(x - Round(x.Floor as real))
  }

  function Times(d: real, s: real): (y: real)
    requires d >= 0.0 && s >= 0.0
    ensures y >= 0.0
  {
    ProductNonNegative(d, s);
    d * s
  }

  lemma ProductNonNegative(a: real, b: real)
    requires a >= 0.0 && b >= 0.0
    ensures a * b >= 0.0
  {
  }

  lemma ProductOrdered(a: real, b: real, c: real)
    requires a >= 0.0 && b <= c
    ensures a * b <= a * c
  {
    ProductNonNegative(a, c - b);
    assert a * (c - b) == a * c - a * b;
  }

  lemma ScaleRounded(s: nat)
    requires s < TWO64
    ensures 0.0 <= Round(s as real) <= Pow2(64)
  {
    Powers();
    RoundNonNegative(s as real);
    if s > 0 {
      UlpBelow(s as real, 64);
      PowerMultiple(64, 11);
      Finer(Pow2(64), 11, UlpExp(s as real));
      RoundAtMost(s as real, Pow2(64));
    }
  }

  lemma ShiftBound(d: real)
    requires 0.0 <= d < 1.0 && IsDouble(d)
    ensures Shift(d, 64) <= Pow2(64) - Pow2(11)
  {
    BelowOne(d);
    ShiftOrdered(d, 1.0 - Pow2(-53), 64);
    ShiftSum(1.0 - Pow2(-53), Pow2(-53), 64);
    ShiftShift(1.0, -53, 64);
  }

  /** The product stays far enough below 2^64. */
  lemma TimesBound(d: real, s: real)
    requires 0.0 <= d < 1.0 && IsDouble(d) && 0.0 <= s <= Pow2(64)
    ensures Times(d, s) <= Pow2(64) - Pow2(11)
  {
    ShiftBound(d);
    Bounded(d, s, Pow2(64), Shift(d, 64));
  }

  lemma Bounded(d: real, s: real, p: real, sh: real)
    requires d >= 0.0 && s <= p == Pow2(64) && sh == Shift(d, 64)
    ensures d * s <= sh
  {
    assert d * s <= d * p by { ProductOrdered(d, s, p); }
    assert sh == d * p by { ShiftTimes(d, 64); }
  }

  lemma RoundedBound(y: real, g: real)
    requires g == Pow2(64) - Pow2(11) && 0.0 <= y <= g
    ensures 0.0 <= Round(y) <= g
  {
    RoundNonNegative(y);
    if y > 0.0 {
      Pow2Positive(11);
      PowerMultiple(64, 11);
      PowerMultiple(11, 11);
      MultipleDifference(Pow2(64), Pow2(11), 11);
      UlpBelow(y, 64);
      Finer(g, 11, UlpExp(y));
      RoundAtMost(y, g);
    }
  }

  lemma AddHalfFits(y: real)
    requires 0.0 <= y <= Pow2(64) - Pow2(11)
    ensures 0 <= AddHalf(y) < TWO64
  {
    Powers();
    RoundedBound(y, Pow2(64) - Pow2(11));
    var q := Round(y) + 0.5;
    RoundNonNegative(q);
    UlpBelow(q, 64);
    RoundNear(q);
    Pow2Monotone(UlpExp(q), 11);
    FloorBelow(Round(q), TWO64);
  }

  lemma FloorBelow(r: real, n: nat)
    requires 0.0 <= r < n as real
    ensures 0 <= r.Floor < n
  {
  }

  /** The fraction in units of 1 / s, as the code computes it. */
  function Fraction(x: real, s: nat): (f: nat)
    requires x >= 0.0 && IsDouble(x) && s < TWO64
    ensures f < TWO64
  {
    ScaleRounded(s);
    var d, t := Difference(x), Round(s as real);
    TimesBound(d, t);
    AddHalfFits(Times(d, t));
    AddHalf(Times(d, t))
  }

  /** The two numbers "%f" prints, with the carry of the fraction into the whole part. */
  function Split(x: real, frac: nat): (r: (nat, nat))
    requires x >= 0.0 && IsDouble(x)
    ensures r.0 <= x.Floor + 1 && r.1 < TWO64
  {
    if frac == 0 then (x.Floor, 0)
    else
      var f := Fraction(x, Scale64(frac));
      if f == Scale64(frac) then (x.Floor + 1, 0) else (x.Floor, f)
  }

  /** x with its point moved n places to the right. */
  function Tens(x: real, n: nat): (y: real)
    decreases n, x
  {
    if n == 0 then x else 10.0 * Tens(x, n - 1)
  }

  function TensInt(w: int, n: nat): (v: int)
    decreases n, w
  {
    if n == 0 then w else 10 * TensInt(w, n - 1)
  }

  /** The two printed numbers, read without the point, are x rounded at its last place,
      halves up. */
  predicate Correct(x: real, frac: nat)
    requires x >= 0.0 && IsDouble(x)
  {
    TensInt(Split(x, frac).0, frac) + Split(x, frac).1 == RoundHalfUp(Tens(x, frac))
  }

  lemma {:induction false} TensSum(x: real, y: real, n: nat)
    ensures Tens(x + y, n) == Tens(x, n) + Tens(y, n)
    decreases n
  {
    if n > 0 {
      TensSum(x, y, n - 1);
    }
  }

  lemma {:induction false} TensIntSum(v: int, w: int, n: nat)
    ensures TensInt(v + w, n) == TensInt(v, n) + TensInt(w, n)
    decreases n
  {
    if n > 0 {
      TensIntSum(v, w, n - 1);
    }
  }

  lemma {:induction false} TensWhole(w: int, n: nat)
    ensures Tens(w as real, n) == TensInt(w, n) as real
    decreases n
  {
    if n > 0 {
      TensWhole(w, n - 1);
      assert 10.0 * TensInt(w, n - 1) as real == (10 * TensInt(w, n - 1)) as real;
    }
  }

  lemma {:induction false} TensPow(w: int, n: nat)
    ensures TensInt(1, n) == Pow(Decimal, n) && TensInt(w, n) == w * Pow(Decimal, n)
    decreases n
  {
    if n > 0 {
      TensPow(w, n - 1);
      TenFold(w, Pow(Decimal, n - 1));
    }
  }

  lemma TenFold(w: int, p: int)
    ensures 10 * (w * p) == w * (10 * p)
  {
  }

  lemma {:induction false} TensOrdered(x: real, y: real, n: nat)
    requires x <= y
    ensures Tens(x, n) <= Tens(y, n) && (x < y ==> Tens(x, n) < Tens(y, n))
    decreases n
  {
    if n > 0 {
      TensOrdered(x, y, n - 1);
    }
  }

  lemma {:induction false} TensTimes(x: real, n: nat)
    ensures Tens(x, n) == x * Pow(Decimal, n) as real
    decreases n
  {
    if n > 0 {
      TensTimes(x, n - 1);
      TenFoldReal(x, Pow(Decimal, n - 1));
    }
  }

  lemma TenFoldReal(x: real, p: int)
    ensures 10.0 * (x * p as real) == x * (10 * p) as real
  {
    assert (10 * p) as real == 10.0 * p as real;
    assert x * (10.0 * p as real) == 10.0 * (x * p as real);
  }

  lemma FracTens(d: real, n: nat)
    requires 0.0 <= d < 1.0
    ensures 0.0 <= Tens(d, n) < Pow(Decimal, n) as real
  {
    TensWhole(0, n);
    TensWhole(1, n);
    TensPow(0, n);
    TensOrdered(0.0, d, n);
    TensOrdered(d, 1.0, n);
  }

  lemma FloorShift(y: real, n: int)
    ensures (y + n as real).Floor == y.Floor + n
  {
  }

  /** Rounding x is rounding its fraction. */
  lemma Decompose(x: real, n: nat)
    requires x >= 0.0
    ensures RoundHalfUp(Tens(x, n)) == TensInt(x.Floor, n) + RoundHalfUp(Tens(Frac(x), n))
  {
    var w := x.Floor;
    TensSum(w as real, Frac(x), n);
    assert w as real + Frac(x) == x;
    TensWhole(w, n);
    FloorShift(Tens(Frac(x), n) + 0.5, TensInt(w, n));
  }

  // ---------------------------------------------------------------- powers of ten

  function Five(n: nat): (p: nat)
    ensures p >= 1
    decreases n, 0
  {
    if n == 0 then 1 else 5 * Five(n - 1)
  }

  lemma FiveStep(n: nat, p: nat)
    requires Five(n) == p
    ensures Five(n + 1) == 5 * p
  {
  }

  lemma {:induction false} FiveMonotone(m: nat, n: nat)
    requires m <= n
    ensures Five(m) <= Five(n)
    decreases n
  {
    if m < n {
      FiveMonotone(m, n - 1);
    }
  }

  lemma FiveNineteen()
    ensures Five(19) == 19073486328125
  {
    FiveStep(0, 1);          FiveStep(1, 5);           FiveStep(2, 25);          FiveStep(3, 125);
    FiveStep(4, 625);        FiveStep(5, 3125);        FiveStep(6, 15625);       FiveStep(7, 78125);
    FiveStep(8, 390625);     FiveStep(9, 1953125);     FiveStep(10, 9765625);    FiveStep(11, 48828125);
    FiveStep(12, 244140625); FiveStep(13, 1220703125); FiveStep(14, 6103515625); FiveStep(15, 30517578125);
    FiveStep(16, 152587890625); FiveStep(17, 762939453125); FiveStep(18, 3814697265625);
  }

  lemma {:induction false} TenIsTwoFive(n: nat)
    ensures Shift(Five(n) as real, n) == Pow(Decimal, n) as real
    decreases n
  {
    if n > 0 {
      TenIsTwoFive(n - 1);
      var f := Five(n - 1) as real;
      ShiftFive(f, n - 1);
      ShiftStep(5.0 * f, n - 1);
      assert Five(n) as real == 5.0 * f;
    }
  }

  lemma ShiftFive(f: real, k: int)
    ensures Shift(5.0 * f, k) == 5.0 * Shift(f, k)
  {
    ShiftDouble(f, k);
    ShiftDouble(2.0 * f, k);
    ShiftSum(2.0 * (2.0 * f), f, k);
    assert 2.0 * (2.0 * f) + f == 5.0 * f;
  }

  /** The scale is exact up to 10^19. */
  lemma TenIsDouble(n: nat)
    requires n <= 19
    ensures IsDouble(Pow(Decimal, n) as real)
  {
    var t := Pow(Decimal, n) as real;
    TenIsTwoFive(n);
    ShiftBack(Five(n) as real, n);
    FiveMonotone(n, 19);
    FiveNineteen();
    Powers();
    ShiftBelow(Five(n) as real, Pow2(53), n);
    ShiftShift(1.0, 53, n);
    UlpBelow(t, n + 53);
    Finer(t, n, UlpExp(t));
  }

  lemma ShiftBelow(x: real, y: real, k: int)
    requires x < y
    ensures Shift(x, k) < Shift(y, k)
  {
    ShiftOrdered(x, y, k);
    ShiftBack(x, k);
    ShiftBack(y, k);
  }

  lemma {:induction false} PowMonotone(m: nat, n: nat)
    requires m <= n
    ensures Pow(Decimal, m) <= Pow(Decimal, n)
    decreases n
  {
    if m < n {
      PowMonotone(m, n - 1);
    }
  }

  lemma {:induction false} ScalePower(n: nat)
    requires Pow(Decimal, n) < TWO64
    ensures Scale64(n) == Pow(Decimal, n)
    decreases n
  {
    if n > 0 {
      ScalePower(n - 1);
    }
  }

  lemma ScaleIsPower(n: nat)
    requires n <= 19
    ensures Scale64(n) == Pow(Decimal, n) < TWO64
  {
    PowersOfTen(Decimal);
    PowMonotone(n, 19);
    ScalePower(n);
  }

  // ---------------------------------------------------------------- up to nineteen places

  lemma SplitIs(x: real, frac: nat, f: nat, s: nat)
    requires x >= 0.0 && IsDouble(x) && frac > 0 && s == Scale64(frac) && f == Fraction(x, s)
    ensures Split(x, frac) == if f == s then (x.Floor + 1, 0) else (x.Floor, f)
  {
  }

  /** The two printed numbers, read without the point, whether the scale is right or not. */
  lemma SplitSum(x: real, frac: nat)
    requires x >= 0.0 && IsDouble(x) && frac > 0
    ensures var f := Fraction(x, Scale64(frac));
            TensInt(Split(x, frac).0, frac) + Split(x, frac).1
            == TensInt(x.Floor, frac) + if f == Scale64(frac) then Pow(Decimal, frac) else f
  {
    SplitIs(x, frac, Fraction(x, Scale64(frac)), Scale64(frac));
    OneMore(x.Floor, frac);
  }

  lemma OneMore(w: int, frac: nat)
    ensures TensInt(w + 1, frac) == TensInt(w, frac) + Pow(Decimal, frac)
  {
    TensIntSum(w, 1, frac);
    TensPow(1, frac);
  }

  /** With the right scale a carry changes nothing. */
  lemma CarryIsExact(x: real, frac: nat)
    requires x >= 0.0 && IsDouble(x) && frac > 0 && Scale64(frac) == Pow(Decimal, frac)
    ensures TensInt(Split(x, frac).0, frac) + Split(x, frac).1 == TensInt(x.Floor, frac) + Fraction(x, Scale64(frac))
  {
    SplitSum(x, frac);
  }

  lemma ScaleExact(frac: nat)
    requires frac <= 19
    ensures Scale64(frac) == Pow(Decimal, frac) < TWO64
    ensures Round(Scale64(frac) as real) == Pow(Decimal, frac) as real
  {
    ScaleIsPower(frac);
    TenIsDouble(frac);
    RoundExact(Pow(Decimal, frac) as real);
  }

  lemma TimesIs(d: real, t: real, frac: nat)
    requires d >= 0.0 && t >= 0.0 && t == Pow(Decimal, frac) as real
    ensures Times(d, t) == Tens(d, frac)
  {
    TensTimes(d, frac);
  }

  lemma FractionFrom(x: real, s: nat, d: real, t: real)
    requires x >= 0.0 && IsDouble(x) && s < TWO64 && d == Frac(x) && t == Round(s as real) && t >= 0.0
    ensures Fraction(x, s) == AddHalf(Times(d, t))
  {
  }

  /** Up to 19 places the scale is right, so the product is rounded once. */
  lemma FractionIs(x: real, frac: nat)
    requires x >= 0.0 && IsDouble(x) && 1 <= frac <= 19
    ensures 0.0 <= Tens(Frac(x), frac) < Pow(Decimal, frac) as real
    ensures Scale64(frac) == Pow(Decimal, frac) < TWO64 && Fraction(x, Scale64(frac)) == AddHalf(Tens(Frac(x), frac))
  {
    ScaleExact(frac);
    FracTens(Frac(x), frac);
    var t := Round(Scale64(frac) as real);
    FractionFrom(x, Scale64(frac), Frac(x), t);
    TimesIs(Frac(x), t, frac);
  }

  lemma UpToNineteen(x: real, frac: nat)
    requires x >= 0.0 && IsDouble(x) && 1 <= frac <= 19 && Tens(Frac(x), frac) >= 0.0
    ensures Correct(x, frac) <==> RoundsWell(Tens(Frac(x), frac))
  {
    FractionIs(x, frac);
    CarryIsExact(x, frac);
    Decompose(x, frac);
    Powers();
    AddHalfExact(Tens(Frac(x), frac));
  }

  // ---------------------------------------------------------------- more places

  /** With a scale at most a fifth of the right one, nothing but zero comes out right. */
  lemma CoarseAddHalf(y: real, z: real)
    requires 0.0 <= y && 5.0 * y <= z
    ensures z < 0.5 ==> AddHalf(y) == 0
    ensures z >= 0.5 ==> AddHalf(y) < RoundHalfUp(z)
  {
    RoundCoarse(y);
    var q := Round(y) + 0.5;
    RoundCoarse(q);
    var r := Round(q);
    assert r <= 0.26 * z + 0.6;
    if z < 0.5 {
      FloorIs(r, 0);
    } else {
      assert r < RoundHalfUp(z) as real;
    }
  }

  lemma FifthOfScale(frac: nat, s: real)
    requires frac >= 20 && 0.0 <= s <= Pow2(64)
    ensures 5.0 * s <= Pow(Decimal, frac) as real
  {
    Powers();
    PowersOfTen(Decimal);
    PowMonotone(20, frac);
  }

  lemma TimesFive(d: real, s: real, t: real)
    requires d >= 0.0 && s >= 0.0 && 5.0 * s <= t
    ensures 5.0 * Times(d, s) <= d * t
  {
    ProductOrdered(d, 5.0 * s, t);
    assert d * (5.0 * s) == 5.0 * (d * s);
  }

  lemma SmallPower()
    ensures Pow2(-53) * TWO53 == 1.0
  {
    Powers();
    ShiftShift(1.0, -53, 53);
    ShiftTimes(Pow2(-53), 53);
  }

  lemma {:induction false} TensGrow(u: real, m: nat, n: nat)
    requires u >= 0.0 && m <= n
    ensures 0.0 <= Tens(u, m) <= Tens(u, n)
    decreases n
  {
    if m < n {
      TensGrow(u, m, n - 1);
    } else if n > 0 {
      TensGrow(u, m - 1, n - 1);
    }
  }

  lemma TensOfUlp(u: real, n: nat)
    requires u * TWO53 == 1.0 && n >= 20
    ensures Tens(u, n) >= 1.0
  {
    PowersOfTen(Decimal);
    TensTimes(u, 20);
    assert Tens(u, 20) == u * 100_000_000_000_000_000_000.0;
    TensGrow(u, 20, n);
  }

  /** A fraction of x never rounds up to the whole scale here. */
  lemma NeverWhole(d: real, frac: nat)
    requires 0.0 <= d < 1.0 && IsDouble(d) && frac >= 20
    ensures RoundHalfUp(Tens(d, frac)) < Pow(Decimal, frac)
  {
    var u := Pow2(-53);
    BelowOne(d);
    SmallPower();
    TensOfUlp(u, frac);
    TensOrdered(d, 1.0 - u, frac);
    TensSum(1.0 - u, u, frac);
    TensWhole(1, frac);
    TensPow(1, frac);
    FracTens(d, frac);
    FloorBelow(Tens(d, frac) + 0.5, Pow(Decimal, frac));
  }

  lemma TooSmallProduct(d: real, t: real, frac: nat)
    requires 0.0 <= d < 1.0 && 0.0 <= t <= Pow2(64) && frac >= 20
    ensures 5.0 * Times(d, t) <= Tens(d, frac)
  {
    FifthOfScale(frac, t);
    TimesFive(d, t, Pow(Decimal, frac) as real);
    TensTimes(d, frac);
  }

  lemma TooSmall(x: real, frac: nat)
    requires x >= 0.0 && IsDouble(x) && frac >= 20
    ensures var f, z := Fraction(x, Scale64(frac)), Tens(Frac(x), frac);
            (z < 0.5 ==> f == 0 == RoundHalfUp(z)) && (z >= 0.5 ==> f < RoundHalfUp(z))
  {
    var d, t := Frac(x), Round(Scale64(frac) as real);
    ScaleRounded(Scale64(frac));
    TooSmallProduct(d, t, frac);
    FractionFrom(x, Scale64(frac), d, t);
    FracTens(d, frac);
    CoarseAddHalf(Times(d, t), Tens(d, frac));
  }

  lemma BeyondNineteen(x: real, frac: nat)
    requires x >= 0.0 && IsDouble(x) && frac >= 20
    ensures Correct(x, frac) <==> Scale64(frac) != 0 && Tens(Frac(x), frac) < 0.5
  {
    var f, z := Fraction(x, Scale64(frac)), Tens(Frac(x), frac);
    TooSmall(x, frac);
    FractionIsDouble(x);
    NeverWhole(Frac(x), frac);
    Decompose(x, frac);
    SplitSum(x, frac);
    WhichCase(f, Scale64(frac), RoundHalfUp(z), Pow(Decimal, frac), z < 0.5);
  }

  lemma WhichCase(f: int, s: int, t: int, p: int, small: bool)
    requires (small ==> f == 0 == t) && (!small ==> f < t) && t < p
    ensures (if f == s then p else f) == t <==> s != 0 && small
  {
  }

  lemma ModTimes(a: nat, b: nat, q: nat)
    requires q == a * 10 / TWO64
    ensures a * 10 % TWO64 * b == a * 10 * b - q * b * TWO64
  {
    var r := a * 10 % TWO64;
    assert r == a * 10 - q * TWO64;
    assert r * b == (a * 10 - q * TWO64) * b;
  }

  /** Ten to the n has exactly n factors of two: s * 2^(63-n) is an odd multiple of 2^63. */
  lemma {:induction false} ScaleFactors(n: nat) returns (k: nat)
    requires n <= 63
    ensures Scale64(n) * Bytes.TwoTo(63 - n) == (2 * k + 1) * Bytes.TwoTo(63)
    decreases n
  {
    if n == 0 {
      k := 0;
    } else {
      var j := ScaleFactors(n - 1);
      Two64();
      k := NextFactors(Scale64(n - 1), Scale64(n), Bytes.TwoTo(63 - n), j, Bytes.TwoTo(63));
    }
  }

  lemma NextFactors(a: nat, s: nat, b: nat, j: nat, h: nat) returns (k: nat)
    requires a * (2 * b) == (2 * j + 1) * h && TWO64 == 2 * h && h > 0 && s == a * 10 % TWO64
    ensures s * b == (2 * k + 1) * h
  {
    var q := a * 10 / TWO64;
    ModTimes(a, b, q);
    k := Odd(a, b, j, q, h);
  }

  lemma FactorNonNegative(m: int, h: nat)
    requires h > 0 && m * h >= 0
    ensures m >= 0
  {
  }

  /** 10 a b - q b 2^64 = 5 (2 j + 1) 2^63 - 2 q b 2^63 is again odd. */
  lemma Odd(a: nat, b: nat, j: nat, q: nat, h: nat) returns (k: nat)
    requires a * (2 * b) == (2 * j + 1) * h && TWO64 == 2 * h && h > 0 && a * 10 * b - q * b * TWO64 >= 0
    ensures a * 10 * b - q * b * TWO64 == (2 * k + 1) * h
  {
    var m := 10 * j + 5 - 2 * (q * b);
    assert a * 10 * b == 5 * (a * (2 * b)) == (10 * j + 5) * h;
    assert q * b * TWO64 == 2 * (q * b) * h;
    assert a * 10 * b - q * b * TWO64 == m * h;
    FactorNonNegative(m, h);
    k := (m - 1) / 2;
    assert m == 2 * k + 1;
  }

  lemma TwoStep(n: nat, p: nat)
    requires Bytes.TwoTo(n) == p
    ensures Bytes.TwoTo(n + 8) == 256 * p
  {
    assert Bytes.TwoTo(n + 1) == 2 * p;
    assert Bytes.TwoTo(n + 2) == 4 * p;
    assert Bytes.TwoTo(n + 3) == 8 * p;
    assert Bytes.TwoTo(n + 4) == 16 * p;
    assert Bytes.TwoTo(n + 5) == 32 * p;
    assert Bytes.TwoTo(n + 6) == 64 * p;
    assert Bytes.TwoTo(n + 7) == 128 * p;
  }

  lemma Two64()
    ensures Bytes.TwoTo(63) == 0x8000_0000_0000_0000 && TWO64 == 2 * Bytes.TwoTo(63)
  {
    TwoStep(0, 1);
    TwoStep(8, 0x100);
    TwoStep(16, 0x1_0000);
    TwoStep(24, 0x100_0000);
    TwoStep(32, 0x1_0000_0000);
    TwoStep(40, 0x100_0000_0000);
    TwoStep(48, 0x1_0000_0000_0000);
    TwoStep(56, 0x100_0000_0000_0000);
    assert Bytes.TwoTo(64) == 2 * Bytes.TwoTo(63);
  }

  lemma OddBelow(a: nat, k: nat, h: nat)
    requires a * 1 == (2 * k + 1) * h && h == 0x8000_0000_0000_0000 && a < TWO64
    ensures a == h
  {
  }

  lemma LastScale(n: nat)
    requires n == 63
    ensures Scale64(n) == 0x8000_0000_0000_0000
  {
    var k := ScaleFactors(n);
    Two64();
    assert Bytes.TwoTo(63 - n) == 1;
    OddBelow(Scale64(n), k, Bytes.TwoTo(63));
  }

  lemma OddNonZero(a: nat, b: nat, k: nat, h: nat)
    requires a * b == (2 * k + 1) * h && h > 0
    ensures a != 0
  {
    assert (2 * k + 1) * h >= h;
  }

  lemma ScaleNonZero(n: nat)
    requires n <= 63
    ensures Scale64(n) != 0
  {
    var k := ScaleFactors(n);
    OddNonZero(Scale64(n), Bytes.TwoTo(63 - n), k, Bytes.TwoTo(63));
  }

  lemma NextScale(n: nat, a: nat)
    requires Scale64(n) == a && (a == 0 || a == 0x8000_0000_0000_0000)
    ensures Scale64(n + 1) == 0
  {
  }

  /** The scale vanishes exactly from 64 places on. */
  lemma {:induction false} ScaleVanishes(n: nat)
    ensures Scale64(n) == 0 <==> n >= 64
    decreases n
  {
    if n <= 63 {
      ScaleNonZero(n);
    } else {
      if n == 64 {
        LastScale(n - 1);
      } else {
        ScaleVanishes(n - 1);
      }
      NextScale(n - 1, Scale64(n - 1));
    }
  }

  // ---------------------------------------------------------------- the whole answer

  /** For which numbers and precisions "%f" prints the number rounded at its last place,
      halves up.  Without a precision it truncates; up to 19 places the rounding of the
      double product decides; beyond, the scale is wrong, and from 64 on it is 0. */
  lemma FixedExact(x: real, frac: nat)
    requires x >= 0.0 && IsDouble(x)
    ensures Tens(Frac(x), frac) >= 0.0
    ensures Correct(x, frac) <==>
            if frac == 0 then Frac(x) < 0.5
            else if frac <= 19 then RoundsWell(Tens(Frac(x), frac))
            else frac < 64 && Tens(Frac(x), frac) < 0.5
  {
    FracTens(Frac(x), frac);
    if frac == 0 {
      Decompose(x, 0);
    } else if frac <= 19 {
      UpToNineteen(x, frac);
    } else {
      BeyondNineteen(x, frac);
      ScaleVanishes(frac);
    }
  }

  /** Where it is wrong up to 19 places and the scaled fraction is below 2^52, it is one unit
      of the last place too large. */
  lemma OneTooLarge(x: real, frac: nat)
    requires x >= 0.0 && IsDouble(x) && 1 <= frac <= 19 && 0.0 <= Tens(Frac(x), frac) < TWO52 && !Correct(x, frac)
    ensures TensInt(Split(x, frac).0, frac) + Split(x, frac).1 == RoundHalfUp(Tens(x, frac)) + 1
  {
    FractionIs(x, frac);
    CarryIsExact(x, frac);
    Decompose(x, frac);
    SmallRounds(Tens(Frac(x), frac));
  }

  lemma NearOneAndAHalf(y: real, h: real, k: int)
    requires y == 54043195528445950.0 / 36028797018963968.0 && h == 1.5 && k == 52
    ensures Round(y) == h && RoundHalfUp(y) == 1
  {
    Powers();
    assert Pow2(1) == 2.0;
    BinadeUnique(y, 0);
    ShiftTimes(y, k);
    assert Shift(y, k) == 6755399441055743.75;
    assert NearestEven(Shift(y, k)) == 6755399441055744;
    ShiftTimes(h, k);
    ShiftBack(h, k);
    FloorIs(y + 0.5, 1);
  }

  lemma FifteenIsDouble(x: real, k: int)
    requires x == 5404319552844595.0 / 36028797018963968.0 && k == 55
    ensures IsDouble(x)
  {
    Powers();
    ShiftStep(1.0, -3);
    ShiftStep(1.0, -2);
    BinadeUnique(x, -3);
    ShiftStep(1.0, 53);
    ShiftStep(1.0, 54);
    ShiftTimes(x, k);
    assert Shift(x, k) == 5404319552844595.0;
  }

  /** The double next to 0.15 is below it, but prints as 0.2 with one place. */
  lemma PointFifteen(x: real)
    requires x == 5404319552844595.0 / 36028797018963968.0
    ensures IsDouble(x) && x < 0.15 && Split(x, 1) == (0, 2) && !Correct(x, 1)
  {
    FifteenIsDouble(x, 55);
    assert x.Floor == 0 && Frac(x) == x;
    assert Tens(x, 1) == 10.0 * x by { assert Tens(x, 0) == x; }
    NearOneAndAHalf(10.0 * x, 1.5, 52);
    SmallRounds(10.0 * x);
    FractionIs(x, 1);
    assert Pow(Decimal, 1) == 10 by { assert Pow(Decimal, 0) == 1; }
    FixedExact(x, 1);
  }

  // ---------------------------------------------------------------- the fraction has its width

  /** Up to 19 places the fraction takes no more digits than asked for. */
  lemma FractionWidth(x: real, frac: nat)
    requires x >= 0.0 && IsDouble(x) && 1 <= frac <= 19
    ensures Split(x, frac).1 < Pow(Decimal, frac)
  {
    FractionIs(x, frac);
    TenIsDouble(frac);
    TenOrMore(frac);
    HalfAtMost(Tens(Frac(x), frac), Pow(Decimal, frac));
  }

  lemma TenOrMore(frac: nat)
    requires 1 <= frac <= 19
    ensures Pow(Decimal, frac) as real < TWO52 || Pow(Decimal, frac) as real > TWO53 + 1.0
  {
    TenFifteen(Decimal);
    if frac <= 15 {
      PowMonotone(frac, 15);
    } else {
      PowMonotone(16, frac);
    }
  }

  lemma TenFifteen(r: Radix)
    requires r.Decimal?
    ensures Pow(r, 15) == 1_000_000_000_000_000 && Pow(r, 16) == 10_000_000_000_000_000
  {
    PowersOfTen(r);
    assert Pow(r, 19) == 10 * Pow(r, 18) && Pow(r, 18) == 10 * Pow(r, 17);
    assert Pow(r, 17) == 10 * Pow(r, 16) && Pow(r, 16) == 10 * Pow(r, 15);
  }

  lemma HalfAtMost(y: real, s: nat)
    requires 0.0 <= y < s as real && IsDouble(s as real)
    requires s as real < TWO52 || s as real > TWO53 + 1.0
    ensures AddHalf(y) <= s
  {
    var t := s as real;
    RoundNonNegative(y);
    RoundIsDouble(y);
    if y > 0.0 {
      UlpMonotone(y, t);
      Finer(t, UlpExp(t), UlpExp(y));
      RoundAtMost(y, t);
    }
    HalfMore(Round(y), s);
  }

  lemma HalfMore(p: real, s: nat)
    requires 0.0 <= p <= s as real && IsDouble(p) && IsDouble(s as real)
    requires s as real < TWO52 || s as real > TWO53 + 1.0
    ensures Round(p + 0.5).Floor <= s
  {
    var q, t := p + 0.5, s as real;
    if t < TWO52 {
      RoundUpTo(q, s);
    } else if q <= t {
      UlpMonotone(q, t);
      Finer(t, UlpExp(t), UlpExp(q));
      RoundAtMost(q, t);
    } else {
      LargeHalf(p, UlpExp(p));
    }
  }

  lemma RoundUpTo(q: real, s: nat)
    requires 0.0 < q <= s as real + 0.5 && s as real < TWO52
    ensures Round(q) < s as real + 1.0
  {
    assert s < 4503599627370496;
    HalfMultiple(2 * s + 1, q);
    assert (2 * s + 1) as real / 2.0 == s as real + 0.5;
    RoundAtMost(q, s as real + 0.5);
  }
}
