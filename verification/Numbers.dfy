/**
 DOUBLE patterns as the numbers they denote: their rank orders them by size, and an INT is
 converted to the nearest of them, to the even one of two that are equally near.
 */
module Numbers {
  import opened Values

  /** Units of 2^-1074 that make up the magnitude with these bits; infinity counts as 2^1024. */
  function Units(m: nat): nat {
    if m < TWO_52 then m else (TWO_52 + m % TWO_52) * Pow2(m / TWO_52 - 1)
  }

  /** The number a pattern denotes, in units of 2^-1074. */
  function Number(d: Double): int {
    var size: int := Units(if d < TWO_63 then d else d - TWO_63);
    if d < TWO_63 then size else -size
  }

  /** 1.0 in these units. */
  function One(): (one: nat)
    ensures one > 0
  {
    Pow2Positive(1074);
    Pow2(1074)
  }

  lemma {:induction false} Pow2Positive(k: nat)
    ensures Pow2(k) > 0
  {
    if k > 0 {
      Pow2Positive(k - 1);
    }
  }

  lemma {:induction false} Pow2Adds(a: nat, b: nat)
    ensures Pow2(a + b) == Pow2(a) * Pow2(b)
  {
    if b > 0 {
      Pow2Adds(a, b - 1);
      assert Pow2(a + b) == 2 * Pow2(a + b - 1);
    }
  }

  /******* Rank order is numeric order *******/

  lemma UnitsStep(m: nat)
    ensures Units(m) < Units(m + 1)
  {
    var e, f := m / TWO_52, m % TWO_52;
    if m + 1 < TWO_52 {
    } else if m < TWO_52 {
      assert m + 1 == TWO_52 && Pow2(0) == 1;
    } else {
      Pow2Positive(e - 1);
      var p := Pow2(e - 1);
      if f + 1 < TWO_52 {
        assert (m + 1) / TWO_52 == e && (m + 1) % TWO_52 == f + 1;
        assert (TWO_52 + f + 1) * p == (TWO_52 + f) * p + p;
      } else {
        assert (m + 1) / TWO_52 == e + 1 && (m + 1) % TWO_52 == 0;
        assert Pow2(e) == 2 * p;
        assert TWO_52 * (2 * p) == (TWO_52 + f) * p + p;
      }
    }
  }

  lemma {:induction false} UnitsIncrease(a: nat, b: nat)
    requires a < b
    ensures Units(a) < Units(b)
    decreases b - a
  {
    hide Units;
    UnitsStep(b - 1);
    if a < b - 1 {
      UnitsIncrease(a, b - 1);
    }
  }

  lemma RankIsNumeric(a: Double, b: Double)
    ensures Rank(a) < Rank(b) <==> Number(a) < Number(b)
  {
    var x, y := Abs(Rank(a)), Abs(Rank(b));
    assert Units(0) == 0;
    if x > 0 {
      UnitsIncrease(0, x);
    }
    if y > 0 {
      UnitsIncrease(0, y);
    }
    if x < y {
      UnitsIncrease(x, y);
    } else if y < x {
      UnitsIncrease(y, x);
    }
  }

  /******* The conversion of an INT rounds to the nearest DOUBLE *******/

  /** x lies between the midpoints to the two neighbours, on one of them only if the magnitude is even. */
  ghost predicate Nearest(b: int, x: int) {
    && b > 0
    && Units(b - 1) + Units(b) <= 2 * x <= Units(b) + Units(b + 1)
    && (b % 2 == 1 ==> Units(b - 1) + Units(b) < 2 * x < Units(b) + Units(b + 1))
  }

  lemma SplitExponent(e: nat, f: nat)
    requires f < TWO_52
    ensures (e * TWO_52 + f) / TWO_52 == e && (e * TWO_52 + f) % TWO_52 == f
  {
  }

  lemma UnitsOf(e: nat, f: nat)
    requires e > 0 && f < TWO_52
    ensures Units(e * TWO_52 + f) == (TWO_52 + f) * Pow2(e - 1)
  {
    hide Pow2;
    SplitExponent(e, f);
  }

  /** Adding to the exponent multiplies by a power of two. */
  lemma UnitsShift(b: nat, k: nat)
    requires b >= TWO_52
    ensures Units(k * TWO_52 + b) == Pow2(k) * Units(b)
  {
    hide Units, Pow2;
    var e, f := b / TWO_52, b % TWO_52;
    assert k * TWO_52 + b == (k + e) * TWO_52 + f;
    UnitsOf(e, f);
    UnitsOf(k + e, f);
    Pow2Adds(k, e - 1);
    Swap(TWO_52 + f, Pow2(k), Pow2(e - 1));
  }

  lemma Swap(a: int, b: int, c: int)
    ensures a * (b * c) == b * (a * c)
  {
  }

  /** The magnitudes with a 53-bit mantissa n, before the exponent is adjusted. */
  lemma UnitsOfMantissa(n: nat)
    requires TWO_52 <= n <= TWO_53
    ensures Units(1074 * TWO_52 + n) == n * One()
  {
    var b := 1074 * TWO_52 + n;
    if n < TWO_53 {
      assert b / TWO_52 == 1075 && b % TWO_52 == n - TWO_52;
    } else {
      assert b / TWO_52 == 1076 && b % TWO_52 == 0;
      assert Pow2(1075) == 2 * Pow2(1074);
      assert TWO_52 * (2 * One()) == TWO_53 * One();
    }
  }

  /** What is left of x after k bits have been dropped: m and the bits below it, of which guard and sticky are kept. */
  ghost predicate Dropped(x: nat, k: nat, m: nat, guard: bool, sticky: bool) {
    var unit, low := Pow2(k), x - m * Pow2(k);
    && 0 <= low < unit
    && (guard <==> 2 * low >= unit)
    && (sticky <==> low != 0 && 2 * low != unit)
  }

  lemma DropOneMore(x: nat, k: nat, m: nat, guard: bool, sticky: bool)
    requires Dropped(x, k, m, guard, sticky)
    ensures Dropped(x, k + 1, m / 2, m % 2 == 1, guard || sticky)
  {
    var unit, half, bit := Pow2(k), m / 2, m % 2;
    HalfOf(half, bit, unit);
    assert m * unit == (2 * half + bit) * unit;
    assert bit * unit == if bit == 1 then unit else 0;
  }

  lemma HalfOf(half: int, bit: int, unit: int)
    ensures (2 * half + bit) * unit == half * (2 * unit) + bit * unit
  {
  }

  /** With the 53 leading bits n of the result known, the neighbours are n - 1 and n + 1, or nearer. */
  lemma NeighbourUnits(k: nat, n: nat)
    requires TWO_52 <= n <= TWO_53
    ensures var b, q := k * TWO_52 + 1074 * TWO_52 + n, Pow2(k) * One();
      && q > 0 && Units(b) == n * q
      && (if n > TWO_52 then Units(b - 1) == n * q - q else Units(b - 1) < n * q)
      && (if n < TWO_53 then Units(b + 1) == n * q + q else Units(b + 1) > n * q)
  {
    hide Units, Pow2, One;
    MantissaUnits(k, n);
    var b := k * TWO_52 + 1074 * TWO_52 + n;
    Pow2Positive(k);
    if n > TWO_52 {
      MantissaUnits(k, n - 1);
    } else {
      UnitsStep(b - 1);
    }
    if n < TWO_53 {
      MantissaUnits(k, n + 1);
    } else {
      UnitsStep(b);
    }
  }

  lemma MantissaUnits(k: nat, n: nat)
    requires TWO_52 <= n <= TWO_53
    ensures Units(k * TWO_52 + 1074 * TWO_52 + n) == n * (Pow2(k) * One())
  {
    hide Units, Pow2, One;
    UnitsOfMantissa(n);
    UnitsShift(1074 * TWO_52 + n, k);
    Swap(n, Pow2(k), One());
  }

  /** Rounding m down or up to n: x is m units and a rest. */
  lemma RoundedIsNearest(k: nat, m: nat, guard: bool, sticky: bool, x: nat)
    requires TWO_52 <= m < TWO_53 && Dropped(x, k, m, guard, sticky)
    ensures Nearest(k * TWO_52 + MagnitudeBits(m, guard, sticky), x * One())
  {
    hide Units, Pow2, One, MagnitudeBits;
    Rounded(m, guard, sticky);
    var n := if guard && (sticky || m % 2 == 1) then m + 1 else m;
    NeighbourUnits(k, n);
    var low, unit := x - m * Pow2(k), Pow2(k);
    Scale(x, m, unit, low, One());
    Compares(low, unit, One());
    Midpoints(k * TWO_52 + 1074 * TWO_52 + n, n, m, unit * One(), low * One(), x * One());
  }

  lemma Midpoints(b: nat, n: int, m: int, q: int, rest: int, x: int)
    requires q > 0 && b > 0 && n % 2 == b % 2 && x == m * q + rest && 0 <= rest < q
    requires Units(b) == n * q && Units(b - 1) < n * q < Units(b + 1)
    requires if n == m then 2 * rest <= q && Units(b + 1) == n * q + q else n == m + 1 && 2 * rest >= q && Units(b - 1) == n * q - q
    requires 2 * rest == q ==> n % 2 == 0
    ensures Nearest(b, x)
  {
    hide Units;
    assert (m + 1) * q == m * q + q;
  }

  lemma Scale(x: int, m: int, unit: int, low: int, one: int)
    requires x == m * unit + low
    ensures x * one == m * (unit * one) + low * one
  {
  }

  lemma Compares(low: nat, unit: nat, one: nat)
    requires low < unit && one > 0
    ensures 0 <= low * one < unit * one
    ensures 2 * low < unit ==> 2 * (low * one) < unit * one
    ensures 2 * low == unit ==> 2 * (low * one) == unit * one
    ensures 2 * low > unit ==> 2 * (low * one) > unit * one
  {
    assert (2 * low) * one == 2 * (low * one);
    if 2 * low < unit {
      assert (2 * low) * one < unit * one;
    } else if 2 * low > unit {
      assert (2 * low) * one > unit * one;
    }
  }

  lemma {:induction false} DroppedIsNearest(k: nat, m: nat, guard: bool, sticky: bool, x: nat)
    requires TWO_52 <= m && Dropped(x, k, m, guard, sticky)
    ensures Nearest(k * TWO_52 + MagnitudeBits(m, guard, sticky), x * One())
    decreases m
  {
    hide Units, Pow2, One, MagnitudeBits, Nearest, Dropped;
    if m < TWO_53 {
      RoundedIsNearest(k, m, guard, sticky, x);
    } else {
      OneBitDown(m, guard, sticky);
      DropOneMore(x, k, m, guard, sticky);
      DroppedIsNearest(k + 1, m / 2, m % 2 == 1, guard || sticky, x);
    }
  }

  /** Below 2^53 nothing is rounded. */
  lemma {:induction false} SmallIsExact(m: nat)
    requires 0 < m < TWO_53
    ensures MagnitudeBits(m, false, false) > 0 && Units(MagnitudeBits(m, false, false)) == m * One()
    decreases TWO_53 - m
  {
    hide Units, One, Pow2, MagnitudeBits;
    if m < TWO_52 {
      SmallIsExact(2 * m);
      OneBitUp(m);
      var b := MagnitudeBits(m, false, false);
      UnitsShift(b, 1);
      assert Pow2(1) == 2 by { Two(); }
      assert (2 * m) * One() == 2 * (m * One());
    } else {
      Rounded(m, false, false);
      UnitsOfMantissa(m);
    }
  }

  lemma Two()
    ensures Pow2(1) == 2
  {
  }

  lemma OneBitUp(m: nat)
    requires 0 < m < TWO_52
    ensures MagnitudeBits(2 * m, false, false) == TWO_52 + MagnitudeBits(m, false, false) && MagnitudeBits(m, false, false) >= TWO_52
  {
    Pow2Values();
    assert m * Pow2(52) >= TWO_52;
    MagnitudeBitsPositive(m, 52);
  }

  /** In magnitude: rounded to the nearest, and not at all up to 2^53. */
  lemma MagnitudeIsNearest(m: nat)
    requires 0 < m
    ensures Nearest(MagnitudeBits(m, false, false), m * One())
    ensures m <= TWO_53 ==> Units(MagnitudeBits(m, false, false)) == m * One()
  {
    hide Units, One, Pow2, MagnitudeBits;
    if m >= TWO_52 {
      NothingDropped(m);
      DroppedIsNearest(0, m, false, false, m);
    } else {
      SmallIsExact(m);
      OneBitUp(m);
      var b := MagnitudeBits(m, false, false);
      UnitsStep(b - 1);
      UnitsStep(b);
    }
    if m == TWO_53 {
      OneBitDown(m, false, false);
      Rounded(TWO_52, false, false);
      UnitsOfMantissa(TWO_53);
    } else if m < TWO_53 {
      SmallIsExact(m);
    }
  }

  lemma NothingDropped(m: nat)
    ensures Dropped(m, 0, m, false, false)
  {
  }

  lemma NearestOfMagnitudes(b: nat, x: nat, c: nat)
    requires Nearest(b, x)
    ensures Abs(Units(b) - x) <= Abs(Units(c) - x)
    ensures Abs(Units(b) - x) == Abs(Units(c) - x) ==> c == b || b % 2 == 0
    ensures Abs(Units(b) - x) <= x
  {
    hide Units;
    if b + 1 < c {
      UnitsIncrease(b + 1, c);
    } else if c < b - 1 {
      UnitsIncrease(c, b - 1);
    }
    if 1 < b {
      UnitsIncrease(0, b - 1);
    }
    UnitsStep(b - 1);
    UnitsStep(b);
    UnitsOfZero();
  }

  lemma UnitsOfZero()
    ensures Units(0) == 0
  {
  }

  lemma MagnitudeOfZero()
    ensures MagnitudeBits(0, false, false) == 0
  {
  }

  lemma NumberOfNegated(d: Double)
    ensures Number(Negate(d)) == -Number(d) && Negate(Negate(d)) == d && Abs(Rank(Negate(d))) == Abs(Rank(d))
  {
  }

  /** Against a pattern of either sign. */
  lemma PositiveToNearest(b: nat, x: nat, d: Double)
    requires Nearest(b, x)
    ensures Abs(Units(b) - x) <= Abs(Number(d) - x)
    ensures Abs(Units(b) - x) == Abs(Number(d) - x) ==> Number(d) == Units(b) || b % 2 == 0
  {
    hide Units;
    NearestOfMagnitudes(b, x, if d < TWO_63 then d else d - TWO_63);
    NearestOfMagnitudes(b, x, 0);
    UnitsOfZero();
  }

  lemma NumberOfInt(i: int64)
    ensures var b := MagnitudeBits(Abs(i), false, false);
      && b >= 0 && Abs(Number(IntToDouble(i))) == Units(b) && (i < 0 ==> Number(IntToDouble(i)) <= 0) && (i >= 0 ==> Number(IntToDouble(i)) >= 0)
      && (IntToDouble(i) % 2 == 0 <==> b % 2 == 0)
  {
    hide Units, MagnitudeBits;
    MagnitudeInRange(Abs(i));
  }

  lemma Signed(i: int, one: int)
    ensures i * one == if i < 0 then -(Abs(i) * one) else Abs(i) * one
  {
  }

  /** No DOUBLE is nearer to an INT than the one it is converted to, and only an even pattern is chosen over one as near. */
  lemma ConvertsToNearest(i: int64, d: Double)
    ensures Abs(Number(IntToDouble(i)) - i * One()) <= Abs(Number(d) - i * One())
    ensures Abs(Number(IntToDouble(i)) - i * One()) == Abs(Number(d) - i * One()) ==> Number(d) == Number(IntToDouble(i)) || IntToDouble(i) % 2 == 0
    ensures Abs(i) <= TWO_53 ==> Number(IntToDouble(i)) == i * One()
  {
    hide Units, Number, One, IntToDouble, MagnitudeBits, Nearest, Pow2, Negate;
    var m := Abs(i);
    NumberOfInt(i);
    Signed(i, One());
    if m == 0 {
      UnitsOfZero();
      MagnitudeOfZero();
    } else {
      MagnitudeIsNearest(m);
      NumberOfNegated(d);
      PositiveToNearest(MagnitudeBits(m, false, false), m * One(), if i < 0 then Negate(d) else d);
    }
  }

  /** So conversion never puts two INT values in the wrong order. */
  lemma ConversionIsMonotone(i: int64, j: int64)
    requires i <= j
    ensures Number(IntToDouble(i)) <= Number(IntToDouble(j))
  {
    hide Number, IntToDouble, One;
    ConvertsToNearest(i, IntToDouble(j));
    ConvertsToNearest(j, IntToDouble(i));
    InOrder(i, j, One());
  }

  lemma InOrder(i: int, j: int, one: nat)
    requires i <= j && one > 0
    ensures i * one <= j * one && (i < j ==> i * one < j * one)
  {
  }
}
