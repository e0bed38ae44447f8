/**
 Memory quantities: a value in one of nine units, converted by way of a whole number of bytes.

 Values are exact reals. A quantity is truncated toward zero to bytes, and the value of a
 conversion is rounded to one decimal, half to even, unless it is integral.
 */
module Memory {

  datatype Unit = Bytes | KiB | MiB | GiB | TiB | KB | MB | GB | TB

  function Size(u: Unit): int {
    match u
    case Bytes => 1
    case KiB => 1024
    case MiB => 1024 * 1024
    case GiB => 1024 * 1024 * 1024
    case TiB => 1024 * 1024 * 1024 * 1024
    case KB => 1000
    case MB => 1000 * 1000
    case GB => 1000 * 1000 * 1000
    case TB => 1000 * 1000 * 1000 * 1000
  }

  // ----- Unit comparisons -----

  /** The chain of tests behind >: the first unit named decides. */
  predicate Greater(u: Unit, v: Unit) {
    if u == TiB && v != TiB then true
    else if v == TiB then false
    else if u == TB && v != TB then true
    else if v == TB then false
    else if u == GiB && v != GiB then true
    else if v == GiB then false
    else if u == GB && v != GB then true
    else if v == GB then false
    else if u == MiB && v != MiB then true
    else if v == MiB then false
    else if u == MB && v != MB then true
    else if v == MB then false
    else if u == KiB && v != KiB then true
    else if v == KiB then false
    else if u == KB && v != KB then true
    else if v == KB then false
    else false
  }

  predicate Less(u: Unit, v: Unit) {
    !Greater(u, v)
  }

  predicate AtMost(u: Unit, v: Unit) {
    u == v || Less(u, v)
  }

  predicate AtLeast(u: Unit, v: Unit) {
    u == v || Greater(u, v)
  }

  /** The chain orders units by size. The operator < comes out as <=, so it is reflexive. */
  lemma ComparisonsFollowSize(u: Unit, v: Unit)
    ensures Greater(u, v) <==> Size(u) > Size(v)
    ensures Less(u, v) <==> Size(u) <= Size(v)
    ensures AtMost(u, v) <==> Less(u, v)
    ensures AtLeast(u, v) <==> Size(u) >= Size(v)
    ensures u == v <==> Size(u) == Size(v)
  {
  }

  /** The unit of a sum or difference. */
  function LargerUnit(u: Unit, v: Unit): Unit {
    if Less(u, v) then v else u
  }

  lemma LargerUnitHasMaximalSize(u: Unit, v: Unit)
    ensures var w := LargerUnit(u, v);
      && (w == u || w == v) && Size(w) >= Size(u) && Size(w) >= Size(v)
      && w == LargerUnit(v, u)
  {
    ComparisonsFollowSize(u, v);
    ComparisonsFollowSize(v, u);
  }

  // ----- Truncation and rounding -----

  /** Truncation toward zero. */
  function Trunc(x: real): int {
    if x >= 0.0 then x.Floor else -((-x).Floor)
  }

  /** The nearest integer; of two equally near, the even one. */
  function RoundHalfEven(x: real): int {
    var down := x.Floor;
    var rest := x - down as real;
    if rest < 0.5 || (rest == 0.5 && down % 2 == 0) then down else down + 1
  }

  predicate Integral(x: real) {
    x == x.Floor as real
  }

  /** An integral value as it is, any other rounded to one decimal. */
  function Value(x: real): real {
    if Integral(x) then x else RoundHalfEven(10.0 * x) as real / 10.0
  }

  lemma RoundFindsTenths(x: real, k: int)
    requires k as real - 0.5 < x < k as real + 0.5
    ensures RoundHalfEven(x) == k
  {
  }

  /** `k` is the nearest integer to `x`, or the even one of the two nearest. */
  predicate Nearest(x: real, k: int) {
    var error := x - k as real;
    -0.5 < error < 0.5 || ((error == 0.5 || error == -0.5) && k % 2 == 0)
  }

  lemma RoundExactly(x: real, k: int)
    ensures RoundHalfEven(x) == k <==> Nearest(x, k)
  {
    var down := x.Floor;
    assert x - 1.0 < down as real <= x;
    if Nearest(x, k) {
      assert k == down || k == down + 1;
    }
  }

  lemma RoundError(x: real)
    ensures -0.5 <= RoundHalfEven(x) as real - x <= 0.5
  {
  }

  /** The value in tenths: rounding an integral value to one decimal would not change it. */
  lemma ValueInTenths(x: real)
    ensures Value(x) == RoundHalfEven(10.0 * x) as real / 10.0
    ensures -0.05 <= Value(x) - x <= 0.05
  {
    if Integral(x) {
      RoundFindsTenths(10.0 * x, 10 * x.Floor);
    } else {
      RoundError(10.0 * x);
    }
  }

  lemma TruncMonotone(x: real, y: real)
    requires x <= y
    ensures Trunc(x) <= Trunc(y)
  {
  }

  lemma RoundMonotone(x: real, y: real)
    requires x <= y
    ensures RoundHalfEven(x) <= RoundHalfEven(y)
  {
    assert x.Floor <= y.Floor;
  }

  lemma RoundOdd(x: real)
    ensures RoundHalfEven(-x) == -RoundHalfEven(x)
  {
    var down := x.Floor;
    if x == down as real {
      assert (-x).Floor == -down;
    } else {
      assert (-x).Floor == -down - 1;
    }
  }

  lemma ValueMonotone(x: real, y: real)
    requires x <= y
    ensures Value(x) <= Value(y)
  {
    ValueInTenths(x);
    ValueInTenths(y);
    RoundMonotone(10.0 * x, 10.0 * y);
  }

  lemma ValueOdd(x: real)
    ensures Value(-x) == -Value(x)
  {
    ValueInTenths(x);
    ValueInTenths(-x);
    RoundOdd(10.0 * x);
    assert 10.0 * -x == -(10.0 * x);
  }

  /** Reals that differ by at most size/20 truncate to integers that differ by at most its ceiling. */
  lemma TruncError(x: real, y: real, size: int)
    requires size > 0 && -(size as real) / 20.0 <= x - y <= size as real / 20.0
    ensures -Slack(size) <= Trunc(x) - Trunc(y) <= Slack(size)
  {
    assert size as real / 20.0 <= Slack(size) as real;
  }

  /** The ceiling of size/20: half a tenth of a unit, in whole bytes. */
  function Slack(size: int): int {
    (size + 19) / 20
  }

  // ----- Quantities and conversion -----

  datatype Memory = Memory(value: real, unit: Unit)

  /** The bytes in `x` units, before truncation. */
  function Scaled(x: real, u: Unit): real {
    match u
    case Bytes => x
    case KiB => x * 1024.0
    case MiB => x * 1048576.0
    case GiB => x * 1073741824.0
    case TiB => x * 1099511627776.0
    case KB => x * 1000.0
    case MB => x * 1000000.0
    case GB => x * 1000000000.0
    case TB => x * 1000000000000.0
  }

  /** The number of units in `b` bytes. */
  function Units(b: int, u: Unit): real {
    match u
    case Bytes => b as real
    case KiB => b as real / 1024.0
    case MiB => b as real / 1048576.0
    case GiB => b as real / 1073741824.0
    case TiB => b as real / 1099511627776.0
    case KB => b as real / 1000.0
    case MB => b as real / 1000000.0
    case GB => b as real / 1000000000.0
    case TB => b as real / 1000000000000.0
  }

  function ByteCount(m: Memory): int {
    Trunc(Scaled(m.value, m.unit))
  }

  /** The value from which a conversion rounds: a quantity in its own unit is not truncated to bytes. */
  function Exact(m: Memory, u: Unit): real {
    if m.unit == u then m.value else Units(ByteCount(m), u)
  }

  function In(m: Memory, u: Unit): real {
    if u == Bytes then ByteCount(m) as real else Value(Exact(m, u))
  }

  function AsUnit(m: Memory, u: Unit): Memory {
    Memory(In(m, u), u)
  }

  /** The factors are the sizes of the units. */
  lemma ScaledBySize(x: real, b: int, u: Unit)
    ensures Scaled(x, u) == x * Size(u) as real
    ensures Units(b, u) * Size(u) as real == b as real
    ensures Scaled(Units(b, u), u) == b as real
  {
  }

  lemma ScaledError(x: real, y: real, u: Unit)
    requires -0.05 <= x - y <= 0.05
    ensures -(Size(u) as real) / 20.0 <= Scaled(x, u) - Scaled(y, u) <= Size(u) as real / 20.0
  {
  }

  lemma ScaledMonotone(x: real, y: real, u: Unit)
    requires x <= y
    ensures Scaled(x, u) <= Scaled(y, u)
  {
  }

  lemma ExactKeepsBytes(m: Memory, u: Unit)
    ensures Trunc(Scaled(Exact(m, u), u)) == ByteCount(m)
  {
    ScaledBySize(0.0, ByteCount(m), u);
  }

  /** A conversion changes the number of bytes by at most half a tenth of the unit, rounded up. */
  lemma ConversionError(m: Memory, u: Unit)
    ensures -Slack(Size(u)) <= ByteCount(AsUnit(m, u)) - ByteCount(m) <= Slack(Size(u))
    ensures u == Bytes ==> ByteCount(AsUnit(m, u)) == ByteCount(m)
  {
    if u != Bytes {
      var exact := Exact(m, u);
      ExactKeepsBytes(m, u);
      ValueInTenths(exact);
      ScaledError(Value(exact), exact, u);
      TruncError(Scaled(Value(exact), u), Scaled(exact, u), Size(u));
    }
  }

  /** The value of k tenths. */
  function OneDecimal(k: int): real {
    k as real / 10.0
  }

  /** The number of bytes in k tenths of a unit. */
  function Tenths(k: int, u: Unit): int {
    Trunc(Scaled(OneDecimal(k), u))
  }

  /** Values with nearly the same bytes are nearly the same, so rounding one finds the tenths of the other. */
  lemma NearTenths(x: real, k: int, u: Unit)
    requires u != Bytes
    requires -1.0 < Scaled(x, u) - Scaled(k as real / 10.0, u) < 1.0
    ensures RoundHalfEven(10.0 * x) == k
  {
    assert k as real - 0.5 < 10.0 * x < k as real + 0.5;
    RoundFindsTenths(10.0 * x, k);
  }

  /**
   The value of a conversion is the nearest number of tenths, and the even one at a tie; to bytes it is
   the number of bytes.
   */
  lemma ConvertedValueExactly(m: Memory, u: Unit, k: int)
    ensures u != Bytes ==>
      var exact := if m.unit == u then m.value else Units(ByteCount(m), u);
      In(m, u) == OneDecimal(k) <==> Nearest(10.0 * exact, k)
    ensures u == Bytes ==> In(m, u) == ByteCount(m) as real
  {
    ValueInTenths(Exact(m, u));
    RoundExactly(10.0 * Exact(m, u), k);
  }

  /** For example, 768 MiB are 0.75 GiB, which becomes 0.8, and 1280 MiB are 1.25, which becomes 1.2. */
  lemma TiesGoToEven()
    ensures AsUnit(Memory(768.0, MiB), GiB).value == 0.8 && AsUnit(Memory(1280.0, MiB), GiB).value == 1.2
  {
    ConvertedValueExactly(Memory(768.0, MiB), GiB, 8);
    ConvertedValueExactly(Memory(1280.0, MiB), GiB, 12);
  }

  /** The byte count is the scaled value truncated toward zero, for either sign. */
  lemma BytesTruncatedTowardZero(x: real, u: Unit)
    ensures x >= 0.0 ==> ByteCount(Memory(x, u)) as real <= x * Size(u) as real < ByteCount(Memory(x, u)) as real + 1.0
    ensures ByteCount(Memory(-x, u)) == -ByteCount(Memory(x, u))
  {
    ScaledBySize(x, 0, u);
    ScaledBySize(-x, 0, u);
    assert Scaled(-x, u) == -Scaled(x, u);
  }

  /**
   A conversion to a unit other than bytes keeps the number of bytes exactly when some number of
   tenths of the unit has that many bytes.
   */
  lemma ConversionExactly(m: Memory, u: Unit)
    requires u != Bytes
    ensures ByteCount(AsUnit(m, u)) == ByteCount(m) <==> exists k: int :: Tenths(k, u) == ByteCount(m)
  {
    var x := Exact(m, u);
    ValueInTenths(x);
    assert ByteCount(AsUnit(m, u)) == Tenths(RoundHalfEven(10.0 * x), u);
    if k: int :| Tenths(k, u) == ByteCount(m) {
      TenthsFound(m, u, k);
    }
  }

  lemma TenthsFound(m: Memory, u: Unit, k: int)
    requires u != Bytes && Tenths(k, u) == ByteCount(m)
    ensures ByteCount(AsUnit(m, u)) == ByteCount(m)
  {
    var x := Exact(m, u);
    ExactKeepsBytes(m, u);
    ValueInTenths(x);
    if ByteCount(m) == 0 {
      assert Scaled(0 as real / 10.0, u) == 0.0;
      NearTenths(x, 0, u);
    } else {
      NearTenths(x, k, u);
    }
  }

  lemma DivisibleTenths(k: int, b: int, u: Unit)
    requires k * Size(u) == 10 * b
    ensures Tenths(k, u) == b
  {
    match u {
      case Bytes =>
      case KiB =>
      case MiB =>
      case GiB =>
      case TiB =>
      case KB =>
      case MB =>
      case GB =>
      case TB =>
    }
  }

  /** In particular it keeps the number of bytes when ten times that number is divisible by the size. */
  lemma DivisibleConversionExact(m: Memory, u: Unit)
    requires 10 * ByteCount(m) % Size(u) == 0
    ensures ByteCount(AsUnit(m, u)) == ByteCount(m)
  {
    if u == Bytes {
      ConversionError(m, u);
    } else {
      var k := 10 * ByteCount(m) / Size(u);
      DivisibleTenths(k, ByteCount(m), u);
      TenthsFound(m, u, k);
    }
  }

  /** Among quantities not already in the unit, and to bytes in any case, conversion keeps the order of byte counts. */
  lemma ConversionMonotone(m: Memory, n: Memory, u: Unit)
    requires u == Bytes || (m.unit != u && n.unit != u)
    requires ByteCount(m) <= ByteCount(n)
    ensures In(m, u) <= In(n, u)
    ensures ByteCount(AsUnit(m, u)) <= ByteCount(AsUnit(n, u))
  {
    if u != Bytes {
      assert Exact(m, u) <= Exact(n, u);
      ValueMonotone(Exact(m, u), Exact(n, u));
    }
    ScaledMonotone(In(m, u), In(n, u), u);
    TruncMonotone(Scaled(In(m, u), u), Scaled(In(n, u), u));
  }

  /** Conversion to `u` keeps the order of byte counts, for all values in the two units. */
  ghost predicate KeepsOrder(a: Unit, b: Unit, u: Unit) {
    forall x: real, y: real ::
      ByteCount(Memory(x, a)) <= ByteCount(Memory(y, b))
      ==> ByteCount(AsUnit(Memory(x, a), u)) <= ByteCount(AsUnit(Memory(y, b), u))
  }

  /** Just more than half a tenth: the excess is less than a byte in every unit, but decides the rounding. */
  const EDGE: real := 0.0500000000001

  /** The bytes in half a tenth of a unit. */
  function EdgeBytes(u: Unit): int {
    Trunc(Scaled(EDGE, u))
  }

  lemma EdgeRoundsUp(u: Unit)
    requires u != Bytes
    ensures EdgeBytes(u) as real <= Scaled(0.05, u)
    ensures ByteCount(Memory(EDGE, u)) == EdgeBytes(u) && ByteCount(Memory(-EDGE, u)) == -EdgeBytes(u)
    ensures ByteCount(AsUnit(Memory(EDGE, u), u)) > 0 && ByteCount(AsUnit(Memory(-EDGE, u), u)) < 0
  {
    RoundFindsTenths(10.0 * EDGE, 1);
    RoundFindsTenths(10.0 * -EDGE, -1);
    ValueInTenths(EDGE);
    ValueInTenths(-EDGE);
    assert Value(EDGE) == 0.1 && Value(-EDGE) == -0.1;
  }

  /** The same number of bytes, coming from the byte count, rounds to nothing. */
  lemma EdgeBytesRoundDown(a: Unit, u: Unit, b: int)
    requires u != Bytes && (b == EdgeBytes(u) || b == -EdgeBytes(u))
    ensures ByteCount(Memory(Units(b, a), a)) == b
    ensures ByteCount(AsUnit(Memory(Units(b, a), a), u)) == 0
  {
    ScaledBySize(0.0, b, a);
    var m := Memory(Units(b, a), a);
    assert ByteCount(m) == b;
    EdgeRoundsUp(u);
    var x := Exact(m, u);
    assert x == Units(b, u);
    assert -0.05 <= x <= 0.05;
    ValueInTenths(x);
    assert RoundHalfEven(10.0 * x) == 0;
  }

  lemma OwnUnitBreaksOrder(a: Unit, b: Unit, u: Unit)
    requires u != Bytes && (a == u || b == u)
    ensures !KeepsOrder(a, b, u)
  {
    EdgeRoundsUp(u);
    if a == u {
      EdgeBytesRoundDown(b, u, EdgeBytes(u));
      assert ByteCount(AsUnit(Memory(EDGE, a), u)) > ByteCount(AsUnit(Memory(Units(EdgeBytes(u), b), b), u));
    } else {
      EdgeBytesRoundDown(a, u, -EdgeBytes(u));
      assert ByteCount(AsUnit(Memory(Units(-EdgeBytes(u), a), a), u)) > ByteCount(AsUnit(Memory(-EDGE, b), u));
    }
  }

  /** It does exactly when the unit is bytes or neither quantity is already in it. */
  lemma ConversionMonotoneExactly(a: Unit, b: Unit, u: Unit)
    ensures KeepsOrder(a, b, u) <==> u == Bytes || (a != u && b != u)
  {
    if u == Bytes || (a != u && b != u) {
      forall x: real, y: real | ByteCount(Memory(x, a)) <= ByteCount(Memory(y, b))
        ensures ByteCount(AsUnit(Memory(x, a), u)) <= ByteCount(AsUnit(Memory(y, b), u))
      {
        ConversionMonotone(Memory(x, a), Memory(y, b), u);
      }
    } else {
      OwnUnitBreaksOrder(a, b, u);
    }
  }

  /** For example, two quantities of 1075 bytes become different. */
  lemma ConversionOfOwnUnitNotMonotone()
    ensures var m, n := Memory(1.0500001, KiB), Memory(1075.0, Bytes);
      && ByteCount(m) == ByteCount(n) == 1075
      && ByteCount(AsUnit(m, KiB)) == 1126 && ByteCount(AsUnit(n, KiB)) == 1024
  {
    assert Value(1.0500001) == 1.1 by {
      ValueInTenths(1.0500001);
      RoundFindsTenths(10.0 * 1.0500001, 11);
    }
    assert Value(1075.0 / 1024.0) == 1.0 by {
      ValueInTenths(1075.0 / 1024.0);
      RoundFindsTenths(10.0 * (1075.0 / 1024.0), 10);
    }
  }

  // ----- Sums and differences -----

  function FromBytes(b: int, u: Unit): Memory {
    AsUnit(Memory(b as real, Bytes), u)
  }

  function Add(m: Memory, n: Memory): Memory {
    FromBytes(ByteCount(m) + ByteCount(n), LargerUnit(m.unit, n.unit))
  }

  function Sub(m: Memory, n: Memory): Memory {
    FromBytes(ByteCount(m) - ByteCount(n), LargerUnit(m.unit, n.unit))
  }

  lemma ConversionOfBytes(b: int, u: Unit)
    ensures -Slack(Size(u)) <= ByteCount(FromBytes(b, u)) - b <= Slack(Size(u))
  {
    assert ByteCount(Memory(b as real, Bytes)) == b;
    ConversionError(Memory(b as real, Bytes), u);
  }

  /** The value of a sum is the byte sum in the larger unit, as the nearest number of tenths, even at a tie. */
  lemma SumExactly(m: Memory, n: Memory, k: int)
    ensures var u, sum := LargerUnit(m.unit, n.unit), ByteCount(m) + ByteCount(n);
      if u == Bytes then Add(m, n).value == sum as real
      else Add(m, n).value == OneDecimal(k) <==> Nearest(10.0 * Units(sum, u), k)
  {
    var sum, u := ByteCount(m) + ByteCount(n), LargerUnit(m.unit, n.unit);
    assert Add(m, n) == FromBytes(sum, u);
    BytesConvertedExactly(sum, u, k);
  }

  lemma DifferenceExactly(m: Memory, n: Memory, k: int)
    ensures var u, difference := LargerUnit(m.unit, n.unit), ByteCount(m) - ByteCount(n);
      if u == Bytes then Sub(m, n).value == difference as real
      else Sub(m, n).value == OneDecimal(k) <==> Nearest(10.0 * Units(difference, u), k)
  {
    var difference, u := ByteCount(m) - ByteCount(n), LargerUnit(m.unit, n.unit);
    assert Sub(m, n) == FromBytes(difference, u);
    BytesConvertedExactly(difference, u, k);
  }

  lemma BytesConvertedExactly(b: int, u: Unit, k: int)
    ensures if u == Bytes then FromBytes(b, u).value == b as real
            else FromBytes(b, u).value == OneDecimal(k) <==> Nearest(10.0 * Units(b, u), k)
  {
    assert ByteCount(Memory(b as real, Bytes)) == b;
    ConvertedValueExactly(Memory(b as real, Bytes), u, k);
  }

  /** A sum is in the larger unit, does not depend on the order, and is off by at most the slack of its unit. */
  lemma AddCommutesWithin(m: Memory, n: Memory)
    ensures Add(m, n) == Add(n, m)
    ensures Add(m, n).unit == LargerUnit(m.unit, n.unit)
    ensures var size := Size(LargerUnit(m.unit, n.unit));
      -Slack(size) <= ByteCount(Add(m, n)) - (ByteCount(m) + ByteCount(n)) <= Slack(size)
  {
    var b, u := ByteCount(m) + ByteCount(n), LargerUnit(m.unit, n.unit);
    assert LargerUnit(n.unit, m.unit) == u by {
      LargerUnitHasMaximalSize(m.unit, n.unit);
    }
    assert Add(m, n) == FromBytes(b, u) == Add(n, m);
    ConversionOfBytes(b, u);
  }

  lemma NegatedConversion(b: int, u: Unit)
    ensures FromBytes(-b, u) == Memory(-FromBytes(b, u).value, u)
  {
    var m, n := Memory(b as real, Bytes), Memory((-b) as real, Bytes);
    assert ByteCount(m) == b && ByteCount(n) == -b;
    if u != Bytes {
      assert Units(-b, u) == -Units(b, u);
      ValueOdd(Units(b, u));
    }
  }

  /** Exchanging the operands of a difference only changes the sign of its value. */
  lemma SubAntisymmetricWithin(m: Memory, n: Memory)
    ensures Sub(n, m) == Memory(-Sub(m, n).value, Sub(m, n).unit)
    ensures Sub(m, n).unit == LargerUnit(m.unit, n.unit)
    ensures var size := Size(LargerUnit(m.unit, n.unit));
      -Slack(size) <= ByteCount(Sub(m, n)) - (ByteCount(m) - ByteCount(n)) <= Slack(size)
  {
    var d, u := ByteCount(m) - ByteCount(n), LargerUnit(m.unit, n.unit);
    assert LargerUnit(n.unit, m.unit) == u by {
      LargerUnitHasMaximalSize(m.unit, n.unit);
    }
    assert Sub(m, n) == FromBytes(d, u);
    assert Sub(n, m) == FromBytes(-d, u) by {
      assert ByteCount(n) - ByteCount(m) == -d;
    }
    NegatedConversion(d, u);
    ConversionOfBytes(d, u);
  }
}
