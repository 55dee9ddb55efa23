/**
 Double arithmetic, as far as the formatter needs it: a nonnegative real number is rounded
 to the nearest double, ties to even.  Overflow does not occur here.
 */
module Doubles {

  /** x * 2^k */
  function Shift(x: real, k: int): (y: real)
    decreases if k < 0 then -k else k, x
  {
    if k == 0 then x else if k > 0 then 2.0 * Shift(x, k - 1) else Shift(x, k + 1) / 2.0
  }

  function Pow2(k: int): (r: real) { Shift(1.0, k) }

  lemma ShiftStep(x: real, k: int)
    ensures Shift(x, k + 1) == 2.0 * Shift(x, k)
  {
  }

  lemma {:induction false} ShiftDouble(x: real, k: int)
    ensures Shift(2.0 * x, k) == 2.0 * Shift(x, k)
    decreases if k < 0 then -k else k
  {
    if k > 0 {
      ShiftDouble(x, k - 1);
    } else if k < 0 {
      ShiftDouble(x, k + 1);
    }
  }

  lemma {:induction false} ShiftShift(x: real, a: int, b: int)
    ensures Shift(Shift(x, a), b) == Shift(x, a + b)
    decreases if b < 0 then -b else b
  {
    if b > 0 {
      ShiftShift(x, a, b - 1);
      ShiftStep(x, a + b - 1);
    } else if b < 0 {
      ShiftShift(x, a, b + 1);
      ShiftStep(x, a + b);
    }
  }

  lemma {:induction false} ShiftTimes(x: real, k: int)
    ensures Shift(x, k) == x * Pow2(k)
    decreases if k < 0 then -k else k
  {
    if k > 0 {
      ShiftTimes(x, k - 1);
    } else if k < 0 {
      ShiftTimes(x, k + 1);
    }
  }

  lemma ShiftBack(x: real, k: int)
    ensures Shift(Shift(x, k), -k) == x
  {
    ShiftShift(x, k, -k);
  }

  lemma {:induction false} ShiftSum(x: real, y: real, k: int)
    ensures Shift(x + y, k) == Shift(x, k) + Shift(y, k)
    decreases if k < 0 then -k else k
  {
    if k > 0 {
      ShiftSum(x, y, k - 1);
    } else if k < 0 {
      ShiftSum(x, y, k + 1);
    }
  }

  lemma {:induction false} ShiftOrdered(x: real, y: real, k: int)
    requires x <= y
    ensures Shift(x, k) <= Shift(y, k)
    decreases if k < 0 then -k else k
  {
    if k > 0 {
      ShiftOrdered(x, y, k - 1);
    } else if k < 0 {
      ShiftOrdered(x, y, k + 1);
    }
  }

  lemma {:induction false} ShiftZero(k: int)
    ensures Shift(0.0, k) == 0.0
    decreases if k < 0 then -k else k
  {
    if k > 0 {
      ShiftZero(k - 1);
    } else if k < 0 {
      ShiftZero(k + 1);
    }
  }

  lemma {:induction false} Pow2Positive(k: int)
    ensures Pow2(k) > 0.0
    decreases if k < 0 then -k else k
  {
    if k > 0 {
      Pow2Positive(k - 1);
    } else if k < 0 {
      Pow2Positive(k + 1);
    }
  }

  lemma {:induction false} Pow2Monotone(a: int, b: int)
    requires a <= b
    ensures Pow2(a) <= Pow2(b)
    decreases b - a
  {
    if a < b {
      ShiftStep(1.0, b - 1);
      Pow2Positive(b - 1);
      Pow2Monotone(a, b - 1);
    }
  }

  // ---------------------------------------------------------------- multiples of powers of two

  predicate IsWhole(q: real) { q == q.Floor as real }

  /** x is a multiple of 2^e. */
  predicate Multiple(x: real, e: int) { IsWhole(Shift(x, -e)) }

  lemma WholeGap(m: int, n: int)
    requires m as real < n as real
    ensures m as real + 1.0 <= n as real
  {
    assert m + 1 <= n;
    assert (m + 1) as real <= n as real;
  }

  lemma WholeBetween(m: int, n: int)
    requires m as real < n as real + 1.0
    ensures m <= n
  {
  }

  lemma DoubleWhole(q: real)
    requires IsWhole(q)
    ensures IsWhole(2.0 * q)
  {
    assert 2.0 * q == (2 * q.Floor) as real;
  }

  /** A multiple of a power of two is one of every smaller power. */
  lemma {:induction false} Finer(x: real, a: int, b: int)
    requires b <= a && Multiple(x, a)
    ensures Multiple(x, b)
    decreases a - b
  {
    if b < a {
      ShiftStep(x, -a);
      DoubleWhole(Shift(x, -a));
      Finer(x, a - 1, b);
    }
  }

  lemma PowerMultiple(a: int, b: int)
    requires b <= a
    ensures Multiple(Pow2(a), b)
  {
    ShiftBack(1.0, a);
    Finer(Pow2(a), a, b);
  }

  lemma WholeMultiple(n: int, e: int)
    requires e <= 0
    ensures Multiple(n as real, e)
  {
    Finer(n as real, 0, e);
  }

  lemma WholeSum(q: real, n: int)
    requires q == n as real
    ensures IsWhole(q)
  {
  }

  lemma MultipleSum(x: real, y: real, e: int)
    requires Multiple(x, e) && Multiple(y, e)
    ensures Multiple(x + y, e)
  {
    var m, n := Shift(x, -e).Floor, Shift(y, -e).Floor;
    ShiftSum(x, y, -e);
    WholeSum(Shift(x + y, -e), m + n);
  }

  lemma MultipleDifference(x: real, y: real, e: int)
    requires Multiple(x, e) && Multiple(y, e)
    ensures Multiple(x - y, e)
  {
    var m, n := Shift(x, -e).Floor, Shift(y, -e).Floor;
    ShiftSum(x - y, y, -e);
    assert x - y + y == x;
    WholeSum(Shift(x - y, -e), m - n);
  }

  /** Between neighbouring multiples there is a gap. */
  lemma Gap(x: real, y: real, e: int)
    requires Multiple(x, e) && Multiple(y, e) && x < y
    ensures x + Pow2(e) <= y
  {
    var a, b := Shift(x, -e), Shift(y, -e);
    ShiftOrdered(x, y, -e);
    ShiftBack(x, -e);
    ShiftBack(y, -e);
    assert a < b;
    WholeGap(a.Floor, b.Floor);
    ShiftOrdered(a + 1.0, b, e);
    ShiftSum(a, 1.0, e);
  }

  // ---------------------------------------------------------------- the size of a number

  /** The k with 2^k <= x < 2^(k+1). */
  function Binade(x: real): (k: int)
    requires x > 0.0
    ensures Pow2(k) <= x < Pow2(k + 1)
    decreases x < 1.0, if x < 1.0 then (1.0 / x).Floor else x.Floor
  {
    if x < 1.0 then
      assert (1.0 / (2.0 * x)) == (1.0 / x) / 2.0 && 1.0 / x > 1.0;
      var k := Binade(2.0 * x);
      ShiftStep(1.0, k - 1);
      ShiftStep(1.0, k);
      k - 1
    else if x < 2.0 then
      assert Pow2(0) == 1.0 && Pow2(1) == 2.0;
      0
    else
      var k := Binade(x / 2.0);
      ShiftStep(1.0, k);
      ShiftStep(1.0, k + 1);
      k + 1
  }

  lemma BinadeUnique(x: real, k: int)
    requires x > 0.0 && Pow2(k) <= x < Pow2(k + 1)
    ensures Binade(x) == k
  {
    if Binade(x) < k {
      Pow2Monotone(Binade(x) + 1, k);
    } else if Binade(x) > k {
      Pow2Monotone(k + 1, Binade(x));
    }
  }

  lemma BinadeBelow(x: real, k: int)
    requires 0.0 < x < Pow2(k)
    ensures Binade(x) < k
  {
    if Binade(x) >= k {
      Pow2Monotone(k, Binade(x));
    }
  }

  lemma BinadeAbove(x: real, k: int)
    requires 0.0 < x && Pow2(k) <= x
    ensures Binade(x) >= k
  {
    if Binade(x) < k {
      Pow2Monotone(Binade(x) + 1, k);
    }
  }

  /** The exponent of the last place of doubles as large as x. */
  function UlpExp(x: real): (e: int)
    requires x > 0.0
  {
    if Binade(x) < -1022 then -1074 else Binade(x) - 52
  }

  lemma UlpMonotone(x: real, y: real)
    requires 0.0 < x <= y
    ensures UlpExp(x) <= UlpExp(y)
  {
    if Binade(x) > Binade(y) {
      Pow2Monotone(Binade(y) + 1, Binade(x));
    }
  }

  lemma UlpBelow(x: real, k: int)
    requires 0.0 < x < Pow2(k) && k >= -1021
    ensures UlpExp(x) <= k - 53
  {
    BinadeBelow(x, k);
  }

  // ---------------------------------------------------------------- rounding

  function NearestEven(q: real): (n: int)
    ensures n as real - 0.5 <= q <= n as real + 0.5
    ensures IsWhole(q) ==> n as real == q
    ensures q == n as real - 0.5 || q == n as real + 0.5 ==> n % 2 == 0
  {
    var f := q.Floor;
    var d := q - f as real;
    if d < 0.5 then f else if d > 0.5 then f + 1 else if f % 2 == 0 then f else f + 1
  }

  /** The nearest double. */
  function Round(x: real): (y: real)
    requires x >= 0.0
  {
    if x == 0.0 then 0.0 else Shift(NearestEven(Shift(x, -UlpExp(x))) as real, UlpExp(x))
  }

  predicate IsDouble(x: real)
    requires x >= 0.0
  {
    x == 0.0 || Multiple(x, UlpExp(x))
  }

  function Magnitude(x: real): (y: real)
    ensures y >= 0.0
  {
    if x < 0.0 then -x else x
  }

  /** A finite double, as the number it stands for. */
  type Double = x: real | IsDouble(Magnitude(x)) witness 0.0

  lemma RoundExact(x: real)
    requires x >= 0.0 && IsDouble(x)
    ensures Round(x) == x
  {
    if x > 0.0 {
      ShiftBack(x, -UlpExp(x));
    }
  }

  /** Rounding does not cross a multiple of the last place. */
  lemma RoundAtLeast(x: real, g: real)
    requires 0.0 <= g <= x && x > 0.0 && Multiple(g, UlpExp(x))
    ensures Round(x) >= g
  {
    var e := UlpExp(x);
    var q, n := Shift(x, -e), NearestEven(Shift(x, -e));
    var m := Shift(g, -e).Floor;
    ShiftOrdered(g, x, -e);
    ShiftBack(g, -e);
    WholeBetween(m, n);
    ShiftOrdered(m as real, n as real, e);
  }

  lemma RoundAtMost(x: real, g: real)
    requires 0.0 < x <= g && Multiple(g, UlpExp(x))
    ensures Round(x) <= g
  {
    var e := UlpExp(x);
    var q, n := Shift(x, -e), NearestEven(Shift(x, -e));
    var m := Shift(g, -e).Floor;
    ShiftOrdered(x, g, -e);
    ShiftBack(g, -e);
    WholeBetween(n, m);
    ShiftOrdered(n as real, m as real, e);
  }

  lemma RoundNonNegative(x: real)
    requires x >= 0.0
    ensures Round(x) >= 0.0
  {
    if x > 0.0 {
      ShiftZero(-UlpExp(x));
      RoundAtLeast(x, 0.0);
    }
  }

  /** Rounding goes at most half a last place up or down. */
  lemma RoundNear(x: real)
    requires x > 0.0
    ensures x - Pow2(UlpExp(x)) / 2.0 <= Round(x) <= x + Pow2(UlpExp(x)) / 2.0
  {
    var e := UlpExp(x);
    var q, n := Shift(x, -e), NearestEven(Shift(x, -e));
    ShiftBack(x, -e);
    ShiftOrdered(n as real, q + 0.5, e);
    ShiftSum(q, 0.5, e);
    ShiftDouble(0.5, e);
    ShiftOrdered(q, n as real + 0.5, e);
    ShiftSum(n as real, 0.5, e);
  }

  /** What rounding gives is a multiple of the last place of what was rounded. */
  lemma RoundMultiple(x: real)
    requires x > 0.0
    ensures Multiple(Round(x), UlpExp(x))
  {
    var e := UlpExp(x);
    ShiftBack(NearestEven(Shift(x, -e)) as real, e);
  }

  /** What rounding gives is a double. */
  lemma RoundIsDouble(x: real)
    requires x >= 0.0 && Round(x) >= 0.0
    ensures IsDouble(Round(x))
  {
    if x > 0.0 {
      RoundMultiple(x);
      if Binade(x) >= -1022 {
        RoundIsNormal(x);
      } else {
        var y := Round(x);
        Pow2Monotone(Binade(x) + 1, -1022);
        PowerMultiple(-1022, -1074);
        RoundAtMost(x, Pow2(-1022));
        if y > 0.0 {
          ShiftStep(1.0, -1022);
          BinadeBelow(y, -1021);
        }
      }
    }
  }

  lemma RoundIsNormal(x: real)
    requires x > 0.0 && Binade(x) >= -1022 && Round(x) >= 0.0 && Multiple(Round(x), UlpExp(x))
    ensures IsDouble(Round(x))
  {
    var b, y := Binade(x), Round(x);
    var e := b - 52;
    if y > 0.0 {
      PowerMultiple(b + 1, e);
      RoundAtMost(x, Pow2(b + 1));
      if y < Pow2(b + 1) {
        UlpBelow(y, b + 1);
        Finer(y, e, UlpExp(y));
      } else {
        ShiftStep(1.0, b + 1);
        Pow2Positive(b + 1);
        BinadeUnique(y, b + 1);
        PowerMultiple(b + 1, b - 51);
      }
    }
  }

  // ---------------------------------------------------------------- whole and fractional part

  /** A whole number that is small enough is a double. */
  lemma WholeIsDouble(n: nat)
    requires n as real < Pow2(53)
    ensures IsDouble(n as real)
  {
    if n > 0 {
      UlpBelow(n as real, 53);
      WholeMultiple(n, UlpExp(n as real));
    }
  }

  /** Taking the whole part off is exact. */
  lemma FractionIsDouble(x: real)
    requires x >= 0.0 && IsDouble(x)
    ensures IsDouble(x.Floor as real) && IsDouble(x - x.Floor as real)
  {
    var w, d := x.Floor as real, x - x.Floor as real;
    if x > 0.0 {
      var e := UlpExp(x);
      if e >= 0 {
        Finer(x, e, 0);
        assert w == x && d == 0.0;
      } else {
        WholeMultiple(x.Floor, e);
        if w > 0.0 {
          UlpMonotone(w, x);
          Finer(w, e, UlpExp(w));
        }
        if d > 0.0 {
          MultipleDifference(x, w, e);
          UlpMonotone(d, x);
          Finer(d, e, UlpExp(d));
        }
      }
    }
  }

  /** There is a gap below one. */
  lemma BelowOne(d: real)
    requires 0.0 <= d < 1.0 && IsDouble(d)
    ensures d <= 1.0 - Pow2(-53)
  {
    assert Pow2(0) == 1.0 && Pow2(-1) == 0.5;
    Pow2Monotone(-53, -1);
    if d >= 0.5 {
      BinadeUnique(d, -1);
      WholeMultiple(1, -53);
      Gap(d, 1.0, -53);
    }
  }

  /** A generous bound on how far up rounding goes. */
  lemma RoundCoarse(x: real)
    requires x >= 0.0
    ensures 0.0 <= Round(x) <= x + x / 8.0 + 1.0 / 64.0
  {
    RoundNonNegative(x);
    if x > 0.0 {
      RoundNear(x);
      if Binade(x) >= -1022 {
        Pow2Monotone(UlpExp(x), Binade(x) - 2);
        ShiftStep(1.0, Binade(x) - 2);
        ShiftStep(1.0, Binade(x) - 1);
      } else {
        Pow2Monotone(-1074, -5);
        assert Pow2(-5) == 1.0 / 32.0;
      }
    }
  }
}
