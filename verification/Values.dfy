/**
 Typed SQL values: the order, equality and hash that storage, constraints and
 queries all rely on.

 A DOUBLE is its 64-bit IEEE 754 pattern, so NaN, the infinities and both zeros
 are values of the model. Comparison and the conversion from a 64-bit integer
 are exact; the four arithmetic operations are a parameter (FloatUnit).
 */
module Values {

  datatype Option<+T> = None | Some(value: T)

  datatype Result<+T, +E> = Ok(value: T) | Err(error: E)

  const TWO_32: int := 0x1_0000_0000
  const TWO_52: int := 0x10_0000_0000_0000
  const TWO_53: int := 0x20_0000_0000_0000
  const TWO_54: int := 0x40_0000_0000_0000
  const TWO_63: int := 0x8000_0000_0000_0000
  const TWO_64: int := 0x1_0000_0000_0000_0000

  type byte = b: int | 0 <= b < 256
  type Bytes = seq<byte>
  type int64 = i: int | -TWO_63 <= i < TWO_63
  type Double = d: int | 0 <= d < TWO_64

  datatype FieldType = FtInt | FtDouble | FtBool | FtText

  /** A value with its kind. A null carries the kind of the column it came from. */
  datatype Value =
    | Null(nullKind: FieldType)
    | Int(i: int64)
    | Dbl(d: Double)
    | Bool(b: bool)
    | Text(s: Bytes)
  {
    function Kind(): FieldType {
      match this
      case Null(k) => k
      case Int(_) => FtInt
      case Dbl(_) => FtDouble
      case Bool(_) => FtBool
      case Text(_) => FtText
    }

    predicate Numeric() {
      Int? || Dbl?
    }
  }

  /** Two's-complement wrap-around of an exact integer result. */
  function Wrap64(x: int): (r: int64)
    ensures (r - x) % TWO_64 == 0
  {
    (x + TWO_63) % TWO_64 - TWO_63
  }

  /******* IEEE 754 patterns *******/

  /** The largest magnitude that is not NaN. */
  const INFINITY: int := 0x7FF0_0000_0000_0000

  predicate IsNaN(d: Double) {
    d % TWO_63 > INFINITY
  }

  /** Sign-magnitude reading of a pattern: it orders all non-NaN doubles, and both zeros have rank 0. */
  function Rank(d: Double): int {
    if d < TWO_63 then d else TWO_63 - d
  }

  predicate DoubleLess(a: Double, b: Double) {
    !IsNaN(a) && !IsNaN(b) && Rank(a) < Rank(b)
  }

  predicate DoubleEqual(a: Double, b: Double) {
    !IsNaN(a) && !IsNaN(b) && Rank(a) == Rank(b)
  }

  function Negate(d: Double): Double {
    if d < TWO_63 then d + TWO_63 else d - TWO_63
  }

  function Pow2(n: nat): nat {
    if n == 0 then 1 else 2 * Pow2(n - 1)
  }

  /**
   Magnitude bits of the double nearest to m, ties to even. While m has more than 53
   bits its last bit moves into the guard and the older guard into sticky; while it
   has fewer it is doubled and the exponent drops by one.
   */
  function MagnitudeBits(m: nat, guard: bool, sticky: bool): int
    decreases if m < TWO_53 then TWO_53 - m else m
  {
    if m == 0 then 0
    else if m < TWO_52 then MagnitudeBits(2 * m, false, false) - TWO_52
    else if m < TWO_53 then 1074 * TWO_52 + m + (if guard && (sticky || m % 2 == 1) then 1 else 0)
    else TWO_52 + MagnitudeBits(m / 2, m % 2 == 1, guard || sticky)
  }

  lemma {:induction false} MagnitudeBitsBelow(m: nat, guard: bool, sticky: bool, k: nat)
    requires m < TWO_53 * Pow2(k)
    ensures MagnitudeBits(m, guard, sticky) <= (1076 + k) * TWO_52
    decreases if m < TWO_53 then TWO_53 - m else m
  {
    if m == 0 {
    } else if m < TWO_52 {
      MagnitudeBitsBelow(2 * m, false, false, k);
    } else if m >= TWO_53 {
      MagnitudeBitsBelow(m / 2, m % 2 == 1, guard || sticky, k - 1);
    }
  }

  lemma {:induction false} MagnitudeBitsAbove(m: nat, guard: bool, sticky: bool)
    requires m >= TWO_53
    ensures MagnitudeBits(m, guard, sticky) >= 1076 * TWO_52
  {
    if m / 2 >= TWO_53 {
      MagnitudeBitsAbove(m / 2, m % 2 == 1, guard || sticky);
    }
  }

  /** Below 2^53 the conversion is strictly monotone, hence injective. */
  lemma {:induction false} MagnitudeBitsExact(a: nat, b: nat)
    requires 0 < a < b < TWO_53
    ensures MagnitudeBits(a, false, false) < MagnitudeBits(b, false, false)
    decreases TWO_53 - b
  {
    if b < TWO_52 {
      MagnitudeBitsExact(2 * a, 2 * b);
    } else if a < TWO_52 {
      MagnitudeBitsTop(2 * a);
    }
  }

  lemma {:induction false} MagnitudeBitsTop(m: nat)
    requires m < TWO_53
    ensures MagnitudeBits(m, false, false) < 1076 * TWO_52
    decreases TWO_53 - m
  {
    if 0 < m < TWO_52 {
      MagnitudeBitsTop(2 * m);
    }
  }

  lemma {:induction false} MagnitudeBitsPositive(m: nat, k: nat)
    requires 0 < m < TWO_53 && m * Pow2(k) >= TWO_52
    ensures MagnitudeBits(m, false, false) >= (1075 - k) * TWO_52
    decreases k
  {
    if m < TWO_52 {
      assert k > 0;
      assert (2 * m) * Pow2(k - 1) == m * Pow2(k);
      MagnitudeBitsPositive(2 * m, k - 1);
    }
  }

  lemma Pow2Values()
    ensures Pow2(52) == TWO_52 && Pow2(10) == 1024
  {
    assert Pow2(13) == 0x2000;
    assert Pow2(26) == 0x400_0000;
    assert Pow2(39) == 0x80_0000_0000;
  }

  /** The double nearest to an integer, as C's (double) cast gives it. */
  function IntToDouble(i: int64): (d: Double)
    ensures !IsNaN(d)
  {
    var m: int := i;
    MagnitudeInRange(Abs(m));
    if m < 0 then TWO_63 + MagnitudeBits(-m, false, false) else MagnitudeBits(m, false, false)
  }

  function Abs(x: int): nat {
    if x < 0 then -x else x
  }

  lemma RankOfInt(i: int64)
    ensures i >= 0 ==> Rank(IntToDouble(i)) == MagnitudeBits(Abs(i), false, false)
    ensures i < 0 ==> Rank(IntToDouble(i)) == -MagnitudeBits(Abs(i), false, false)
    ensures MagnitudeBits(Abs(i), false, false) >= 0
    ensures i != 0 <==> MagnitudeBits(Abs(i), false, false) > 0
  {
    MagnitudeInRange(Abs(i));
  }

  lemma MagnitudeInRange(m: nat)
    requires m <= TWO_63
    ensures 0 <= MagnitudeBits(m, false, false) <= INFINITY
    ensures m > 0 ==> MagnitudeBits(m, false, false) > 0
  {
    Pow2Values();
    assert Pow2(11) == 2048;
    MagnitudeBitsBelow(m, false, false, 11);
    if m >= TWO_53 {
      MagnitudeBitsAbove(m, false, false);
    } else if m > 0 {
      assert m * Pow2(52) >= TWO_52;
      MagnitudeBitsPositive(m, 52);
    }
  }

  lemma SmallMagnitudesConvertInjectively(a: nat, b: nat)
    requires a < TWO_53
    ensures MagnitudeBits(a, false, false) == MagnitudeBits(b, false, false) && a > 0 && b > 0 ==> a == b
  {
    hide MagnitudeBits;
    if a > 0 && b > 0 {
      if b >= TWO_53 {
        MagnitudeBitsAbove(b, false, false);
        MagnitudeBitsTop(a);
      } else if a < b {
        MagnitudeBitsExact(a, b);
      } else if b < a {
        MagnitudeBitsExact(b, a);
      }
    }
  }

  lemma OneBitDown(m: nat, guard: bool, sticky: bool)
    requires m >= TWO_53
    ensures MagnitudeBits(m, guard, sticky) == TWO_52 + MagnitudeBits(m / 2, m % 2 == 1, guard || sticky)
  {
  }

  lemma Rounded(m: nat, guard: bool, sticky: bool)
    requires TWO_52 <= m < TWO_53
    ensures MagnitudeBits(m, guard, sticky) == 1074 * TWO_52 + m + (if guard && (sticky || m % 2 == 1) then 1 else 0)
  {
  }

  /** From 2^53 to 2^54 doubles are even integers, with ties to the multiple of four. */
  lemma MagnitudeBitsEven(m: nat)
    requires TWO_53 <= m < TWO_54
    ensures MagnitudeBits(m, false, false) == 1075 * TWO_52 + m / 2 + (if m % 4 == 3 then 1 else 0)
  {
    hide MagnitudeBits;
    var h := m / 2;
    assert m % 4 == 2 * (h % 2) + m % 2;
    OneBitDown(m, false, false);
    Rounded(h, m % 2 == 1, false);
  }

  lemma MagnitudeBitsFrom54(m: nat)
    requires m >= TWO_54
    ensures MagnitudeBits(m, false, false) >= 1077 * TWO_52
  {
    hide MagnitudeBits;
    OneBitDown(m, false, false);
    MagnitudeBitsAbove(m / 2, m % 2 == 1, false);
  }

  /** The magnitudes that share their double with no other integer. */
  predicate ExactMagnitude(m: nat) {
    m < TWO_53 || (m < TWO_54 && m % 4 == 2)
  }

  lemma OddHalves(a: nat, b: nat)
    requires a % 4 == 2 && a / 2 == b / 2 + (if b % 4 == 3 then 1 else 0)
    ensures a == b
  {
    var j, k, r := a / 4, b / 4, b % 4;
    assert a == 4 * j + 2 && a / 2 == 2 * j + 1;
    assert b == 4 * k + r && b / 2 == 2 * k + r / 2;
  }

  lemma ExactMagnitudesConvertInjectively(a: nat, b: nat)
    requires ExactMagnitude(a) && a > 0 && b > 0 && MagnitudeBits(a, false, false) == MagnitudeBits(b, false, false)
    ensures a == b
  {
    hide MagnitudeBits;
    if a < TWO_53 {
      SmallMagnitudesConvertInjectively(a, b);
    } else {
      MagnitudeBitsEven(a);
      if b >= TWO_54 {
        MagnitudeBitsFrom54(b);
      } else if b >= TWO_53 {
        MagnitudeBitsEven(b);
        OddHalves(a, b);
      } else {
        MagnitudeBitsTop(b);
      }
    }
  }

  /** Once a set bit has been dropped, a deeper tie is no tie: a low 01, 10 or 11 rounds alike. */
  lemma DroppedBitsRoundAlike(q: nat)
    requires q >= TWO_53
    ensures MagnitudeBits(q, false, true) == MagnitudeBits(q, true, false) == MagnitudeBits(q, true, true)
  {
    hide MagnitudeBits;
    OneBitDown(q, false, true);
    OneBitDown(q, true, false);
    OneBitDown(q, true, true);
  }

  /** A multiple of four rounds like the integer above it or like the one below it. */
  lemma {:induction false} MultipleOfFourRoundsLikeNeighbour(q: nat)
    requires q >= TWO_53
    ensures MagnitudeBits(q, false, false) == MagnitudeBits(q, false, true) || MagnitudeBits(q, false, false) == MagnitudeBits(q - 1, true, true)
    decreases q
  {
    hide MagnitudeBits;
    var h := q / 2;
    OneBitDown(q, false, false);
    OneBitDown(q, false, true);
    if q % 2 == 1 {
      assert (q - 1) / 2 == h && (q - 1) % 2 == 0;
      OneBitDown(q - 1, true, true);
      if h >= TWO_53 {
        DroppedBitsRoundAlike(h);
      } else {
        Rounded(h, true, false);
        Rounded(h, true, true);
        Rounded(h, false, true);
      }
    } else if h >= TWO_53 {
      assert (q - 1) / 2 == h - 1 && (q - 1) % 2 == 1;
      OneBitDown(q - 1, true, true);
      MultipleOfFourRoundsLikeNeighbour(h);
    } else {
      Rounded(h, false, false);
      Rounded(h, false, true);
    }
  }

  lemma TwoBitsDown(m: nat, q: nat, r: nat)
    requires m == 4 * q + r && r < 4 && q >= TWO_52
    ensures MagnitudeBits(m, false, false) == 2 * TWO_52 + MagnitudeBits(q, r >= 2, r % 2 == 1)
  {
    var h := m / 2;
    assert h == 2 * q + r / 2 && m % 2 == r % 2 && h / 2 == q && (h % 2 == 1 <==> r >= 2);
    assert MagnitudeBits(m, false, false) == TWO_52 + MagnitudeBits(h, m % 2 == 1, false);
    assert MagnitudeBits(h, m % 2 == 1, false) == TWO_52 + MagnitudeBits(q, h % 2 == 1, m % 2 == 1);
  }

  /** The largest magnitude: 2^63 and 2^63 - 1 have the same double. */
  lemma TopMagnitudesShare()
    ensures MagnitudeBits(TWO_63, false, false) == MagnitudeBits(TWO_63 - 1, false, false)
  {
    hide MagnitudeBits;
    PowerRounds(9);
    Pow2Values();
    assert Pow2(9) == 512 && TWO_54 * 512 == TWO_63;
  }

  lemma {:induction false} PowerRounds(k: nat)
    ensures var m := TWO_54 * Pow2(k);
      && m >= TWO_54 && MagnitudeBits(m, false, false) == (1077 + k) * TWO_52
      && MagnitudeBits(m - 1, false, false) == MagnitudeBits(m - 1, true, true) == (1077 + k) * TWO_52
  {
    hide MagnitudeBits;
    var m := TWO_54 * Pow2(k);
    if k == 0 {
      OneBitDown(TWO_54, false, false);
      OneBitDown(TWO_53, false, false);
      Rounded(TWO_52, false, false);
      OneBitDown(TWO_54 - 1, true, true);
      Rounded(TWO_53 - 1, true, true);
      OneBitDown(TWO_54 - 1, false, false);
      Rounded(TWO_53 - 1, true, false);
    } else {
      PowerRounds(k - 1);
      var h := TWO_54 * Pow2(k - 1);
      assert m == 2 * h && (m - 1) / 2 == h - 1 && (m - 1) % 2 == 1;
      OneBitDown(m, false, false);
      OneBitDown(m - 1, true, true);
      OneBitDown(m - 1, false, false);
      DroppedBitsRoundAlike(h - 1);
    }
  }

  /** Any other magnitude shares its double with a neighbour. */
  lemma SharingNeighbour(m: nat) returns (n: nat)
    requires !ExactMagnitude(m) && m <= TWO_63
    ensures n != m && n > 0 && MagnitudeBits(n, false, false) == MagnitudeBits(m, false, false)
    ensures n <= TWO_63 && (m < TWO_63 ==> n < TWO_63)
  {
    hide MagnitudeBits, Pow2;
    if m == TWO_63 {
      TopMagnitudesShare();
      n := m - 1;
    } else if m < TWO_54 {
      n := NeighbourBelow54(m);
    } else {
      n := NeighbourFrom54(m);
    }
  }

  lemma NeighbourBelow54(m: nat) returns (n: nat)
    requires TWO_53 <= m < TWO_54 && m % 4 != 2
    ensures n != m && 0 < n < TWO_63 && MagnitudeBits(n, false, false) == MagnitudeBits(m, false, false)
  {
    hide MagnitudeBits, Pow2;
    n := if m % 4 == 1 then m - 1 else m + 1;
    MagnitudeBitsEven(m);
    if n < TWO_54 {
      MagnitudeBitsEven(n);
    } else {
      FirstOf55();
    }
  }

  lemma FirstOf55()
    ensures MagnitudeBits(TWO_54, false, false) == 1077 * TWO_52
  {
    hide MagnitudeBits;
    OneBitDown(TWO_54, false, false);
    OneBitDown(TWO_53, false, false);
    Rounded(TWO_52, false, false);
  }

  lemma NeighbourFrom54(m: nat) returns (n: nat)
    requires TWO_54 <= m < TWO_63
    ensures n != m && 0 < n < TWO_63 && MagnitudeBits(n, false, false) == MagnitudeBits(m, false, false)
  {
    hide MagnitudeBits;
    var q, r := m / 4, m % 4;
    TwoBitsDown(m, q, r);
    if q < TWO_53 {
      n := NeighbourTo55(m, q, r);
    } else if r == 0 {
      MultipleOfFourRoundsLikeNeighbour(q);
      TwoBitsDown(m + 1, q, 1);
      TwoBitsDown(m - 1, q - 1, 3);
      n := if MagnitudeBits(q, false, false) == MagnitudeBits(q, false, true) then m + 1 else m - 1;
    } else {
      DroppedBitsRoundAlike(q);
      n := if r == 1 then m + 1 else m - 1;
      TwoBitsDown(n, q, if r == 1 then 2 else r - 1);
    }
  }

  lemma NeighbourTo55(m: nat, q: nat, r: nat) returns (n: nat)
    requires m == 4 * q + r && r < 4 && TWO_52 <= q < TWO_53
    ensures n != m && 0 < n < TWO_63 && MagnitudeBits(n, false, false) == MagnitudeBits(m, false, false)
  {
    hide MagnitudeBits;
    TwoBitsDown(m, q, r);
    Rounded(q, r >= 2, r % 2 == 1);
    if r == 3 {
      n := m + 1;
      TwoBitsDown(n, q + 1, 0);
      if q + 1 < TWO_53 {
        Rounded(q + 1, false, false);
      } else {
        OneBitDown(TWO_53, false, false);
        Rounded(TWO_52, false, false);
      }
    } else {
      var r' := if r == 0 || (r == 2 && q % 2 == 1) then r + 1 else r - 1;
      n := 4 * q + r';
      TwoBitsDown(n, q, r');
      Rounded(q, r' >= 2, r' % 2 == 1);
    }
  }

  /** The INT values that convert to a DOUBLE no other INT converts to. */
  predicate ExactInt(i: int64) {
    ExactMagnitude(Abs(i))
  }

  lemma ExactIntsConvertUniquely(i: int64)
    ensures ExactInt(i) <==> forall j: int64 :: Rank(IntToDouble(j)) == Rank(IntToDouble(i)) ==> j == i
  {
    hide MagnitudeBits, IntToDouble, Rank;
    RankOfInt(i);
    if ExactInt(i) {
      forall j: int64 | Rank(IntToDouble(j)) == Rank(IntToDouble(i)) ensures j == i {
        RankOfInt(j);
        if i != 0 && j != 0 {
          ExactMagnitudesConvertInjectively(Abs(i), Abs(j));
        }
      }
    } else {
      var n := SharingNeighbour(Abs(i));
      var k: int := n;
      var j: int64 := if i < 0 then -k else k;
      RankOfInt(j);
      assert j != i && Rank(IntToDouble(j)) == Rank(IntToDouble(i));
    }
  }

  /******* Comparison *******/

  /** Exactly the pairs compare_values can read without touching the wrong union member. */
  predicate Comparable(a: Value, b: Value) {
    !a.Null? && !b.Null? && (a.Kind() == b.Kind() || (a.Numeric() && b.Numeric()))
  }

  function AsDouble(v: Value): Double
    requires v.Numeric()
  {
    if v.Int? then IntToDouble(v.i) else v.d
  }

  /** Byte order, the shorter text first when one is a prefix of the other. */
  function CompareText(a: Bytes, b: Bytes): int {
    if a == [] then (if b == [] then 0 else -1)
    else if b == [] then 1
    else if a[0] != b[0] then a[0] - b[0]
    else CompareText(a[1..], b[1..])
  }

  function CompareValues(a: Value, b: Value): int
    requires Comparable(a, b)
  {
    if a.Numeric() && b.Numeric() then
      var x, y := AsDouble(a), AsDouble(b);
      if DoubleLess(x, y) then -1 else if DoubleLess(y, x) then 1 else 0
    else if a.Bool? then
      (if a.b then 1 else 0) - (if b.b then 1 else 0)
    else
      CompareText(a.s, b.s)
  }

  lemma {:induction false} CompareTextZero(a: Bytes, b: Bytes)
    ensures CompareText(a, b) == 0 <==> a == b
    ensures CompareText(a, b) < 0 <==> CompareText(b, a) > 0
  {
    if a != [] && b != [] && a[0] == b[0] {
      CompareTextZero(a[1..], b[1..]);
      assert a == [a[0]] + a[1..] && b == [b[0]] + b[1..];
    }
  }

  lemma {:induction false} CompareTextTransitive(a: Bytes, b: Bytes, c: Bytes)
    requires CompareText(a, b) <= 0 && CompareText(b, c) <= 0
    ensures CompareText(a, c) <= 0
  {
    if a != [] && b != [] && c != [] && a[0] == b[0] == c[0] {
      CompareTextTransitive(a[1..], b[1..], c[1..]);
    }
  }

  /** Values on which compare_values is a genuine order: DOUBLE other than NaN. */
  predicate Ordered(v: Value) {
    v.Dbl? ==> !IsNaN(v.d)
  }

  lemma CompareIsTotalPreorder(a: Value, b: Value, c: Value)
    requires Ordered(a) && Ordered(b) && Ordered(c)
    requires Comparable(a, b) && Comparable(b, c) && Comparable(a, c)
    ensures CompareValues(a, a) == 0
    ensures CompareValues(a, b) < 0 <==> CompareValues(b, a) > 0
    ensures CompareValues(a, b) <= 0 && CompareValues(b, c) <= 0 ==> CompareValues(a, c) <= 0
  {
    if a.Text? {
      CompareTextZero(a.s, a.s);
      CompareTextZero(a.s, b.s);
      if CompareText(a.s, b.s) <= 0 && CompareText(b.s, c.s) <= 0 {
        CompareTextTransitive(a.s, b.s, c.s);
      }
    }
  }

  /** With NaN the order is not transitive: exactly when NaN stands between two values in the wrong order. */
  lemma TransitivityExactly(a: Value, b: Value, c: Value)
    requires Comparable(a, b) && Comparable(b, c) && Comparable(a, c)
    ensures CompareValues(a, b) <= 0 && CompareValues(b, c) <= 0 && CompareValues(a, c) > 0
      <==> !Ordered(b) && CompareValues(a, c) > 0
  {
    if Ordered(a) && Ordered(b) && Ordered(c) {
      CompareIsTotalPreorder(a, b, c);
    }
  }

  /** It does: 1.0 and 0.0 both compare equal to NaN. */
  lemma NaNBreaksTheOrder() returns (one: Value, nan: Value, zero: Value)
    ensures Comparable(one, nan) && Comparable(nan, zero) && Comparable(one, zero)
    ensures CompareValues(one, nan) == 0 && CompareValues(nan, zero) == 0 && CompareValues(one, zero) > 0
  {
    one, nan, zero := Dbl(0x3FF0_0000_0000_0000), Dbl(0x7FF8_0000_0000_0000), Dbl(0);
  }

  /******* Equality and hash *******/

  /** Cell equality used by the constraint checks: exact, and never true across types. */
  predicate CellEqual(a: Value, b: Value) {
    match (a, b)
    case (Int(x), Int(y)) => x == y
    case (Dbl(x), Dbl(y)) => DoubleEqual(x, y)
    case (Bool(x), Bool(y)) => x == y
    case (Text(x), Text(y)) => x == y
    case _ => false
  }

  /** What value_hash mixes: the raw 64-bit word of a number (0.0 for -0.0), a flag, or the text. */
  datatype HashKey = Word(w: int) | Flag(f: bool) | Chars(cs: Bytes)

  function HashKeyOf(v: Value): HashKey
    requires !v.Null?
  {
    match v
    case Int(i) => Word(if i < 0 then i + TWO_64 else i)
    case Dbl(d) => Word(if Rank(d) == 0 then 0 else d)
    case Bool(b) => Flag(b)
    case Text(s) => Chars(s)
  }

  /** The mixing function of value_hash; every result holds for every mixer. */
  type Mixer = HashKey -> nat

  function ValueHash(mix: Mixer, v: Value): nat
    requires !v.Null?
  {
    mix(HashKeyOf(v))
  }

  lemma EqualCellsHashAlike(mix: Mixer, a: Value, b: Value)
    requires CellEqual(a, b)
    ensures !a.Null? && !b.Null? && ValueHash(mix, a) == ValueHash(mix, b)
  {
  }

  lemma CellEqualTransitive(a: Value, b: Value, c: Value)
    requires CellEqual(a, b) && CellEqual(b, c)
    ensures CellEqual(a, c) && CellEqual(b, a)
  {
  }

  /** Keys that compare_values tells apart from every other value of their type. */
  predicate ExactKey(v: Value) {
    match v
    case Int(i) => ExactInt(i)
    case Dbl(d) => !IsNaN(d)
    case _ => true
  }

  /** Comparison finds equal exactly what the hash index can find. */
  lemma CompareZeroIsCellEqual(key: Value, cell: Value)
    requires !key.Null? && !cell.Null? && key.Kind() == cell.Kind()
    requires ExactKey(key) && Ordered(cell)
    ensures CompareValues(key, cell) == 0 <==> CellEqual(key, cell)
    ensures CompareValues(cell, key) == 0 <==> CellEqual(key, cell)
  {
    match key
    case Int(i) =>
      ExactIntsConvertUniquely(i);
    case Text(s) =>
      CompareTextZero(s, cell.s);
      CompareTextZero(cell.s, s);
    case _ =>
  }

  /**
   Exactly for these keys: any other INT compares equal to a different INT, whose hash the index
   keeps apart, and NaN compares equal to every DOUBLE.
   */
  lemma ExactKeysExactly(key: Value)
    requires !key.Null?
    ensures ExactKey(key) <==> forall cell: Value ::
      !cell.Null? && cell.Kind() == key.Kind() && Ordered(cell) ==> (CompareValues(key, cell) == 0 <==> CellEqual(key, cell))
  {
    if ExactKey(key) {
      forall cell: Value | !cell.Null? && cell.Kind() == key.Kind() && Ordered(cell)
        ensures CompareValues(key, cell) == 0 <==> CellEqual(key, cell) {
        CompareZeroIsCellEqual(key, cell);
      }
    } else if key.Int? {
      ExactIntsConvertUniquely(key.i);
      var j: int64 :| Rank(IntToDouble(j)) == Rank(IntToDouble(key.i)) && j != key.i;
      assert CompareValues(key, Int(j)) == 0 && !CellEqual(key, Int(j));
    } else {
      assert CompareValues(key, Dbl(0)) == 0 && !CellEqual(key, Dbl(0));
    }
  }

  /** The four operations of the floating-point unit; no law is assumed of them. */
  datatype FloatUnit = FloatUnit(
    add: (Double, Double) -> Double,
    sub: (Double, Double) -> Double,
    mul: (Double, Double) -> Double,
    div: (Double, Double) -> Double)
}
