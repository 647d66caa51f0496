/**
 A 14-bit fix point format: a sign, 9 bits before and 4 bits behind the point.
 Doubles are reals with an explicit sign flag, so that -0 exists; everything the
 conversions compute is exact on the numbers they compute it for.
 */
module FixPoint {

  datatype Double = NotANumber | Infinite(negative: bool) | Finite(x: real, negative: bool)

  /** The sign flag can be chosen for zero only. */
  predicate IsDouble(d: Double) {
    d.Finite? ==> (d.x < 0.0 ==> d.negative) && (d.x > 0.0 ==> !d.negative)
  }

  const SIGN_BIT: nat := 512
  const MAX_DECIMAL_VALUE: nat := 15
  const PRECISION: real := 1.0 / 16.0
  const MAX_AS_INT16: int := 511
  const INT16_MIN: int := -32768
  const MAX_AS_DOUBLE: real := 511.0 + 15.0 * PRECISION

  datatype Number = Number(isNan: bool, preDecimal: nat, decimal: nat, roundTowardsZero: bool)

  const NAN := Number(true, 0, 0, false)

  /** The numbers that the constructors make. */
  predicate Valid(f: Number) {
    f.preDecimal < 2 * SIGN_BIT && f.decimal <= MAX_DECIMAL_VALUE && (f.isNan ==> f == NAN)
  }

  // ----- arithmetic of the C library

  function Abs(x: real): real {
    if x < 0.0 then -x else x
  }

  function Trunc(x: real): int {
    if x < 0.0 then -((-x).Floor) else x.Floor
  }

  /** `std::round`: to the nearest integer, halves away from zero. */
  function Round(x: real): int {
    if x < 0.0 then -((0.5 - x).Floor) else (x + 0.5).Floor
  }

  // ----- encoding

  function EncodePreDecimal(input: int, isNegative: bool): nat
    requires isNegative ==> -512 < input <= 0
    requires !isNegative ==> 0 <= input
  {
    if isNegative then -input + SIGN_BIT else input
  }

  predicate SignBit(preDecimal: nat) {
    preDecimal / SIGN_BIT % 2 == 1
  }

  function Magnitude(preDecimal: nat): nat {
    preDecimal % SIGN_BIT
  }

  function DecodePreDecimal(preDecimal: nat): int {
    if SignBit(preDecimal) then -(Magnitude(preDecimal) as int) else preDecimal
  }

  predicate IsInRange(x: real) {
    -MAX_AS_DOUBLE - PRECISION / 2.0 < x < MAX_AS_DOUBLE + PRECISION / 2.0
  }

  lemma RangeOfTrunc(x: real)
    requires IsInRange(x)
    ensures -511 <= Trunc(x) <= 511
    ensures x < 0.0 ==> Trunc(x) <= 0
    ensures x >= 0.0 ==> Trunc(x) >= 0
    ensures 0.0 <= Abs(x - Trunc(x) as real) < 1.0
    ensures Abs(Trunc(x) as real) == 511.0 ==> Abs(x - Trunc(x) as real) < 31.0 / 32.0
  {
  }

  /** The constructor for doubles. */
  function FromDouble(d: Double): (f: Number)
    requires IsDouble(d)
  {
    if !d.Finite? || !IsInRange(d.x) then NAN
    else
      RangeOfTrunc(d.x);
      var whole := Trunc(d.x);
      var pre := EncodePreDecimal(whole, d.negative);
      var difference := Abs(d.x - whole as real);
      var decimal := Round(difference / PRECISION);
      var carry := decimal == MAX_DECIMAL_VALUE + 1;
      var decimal' := if carry then 0 else decimal;
      Number(false, if carry then pre + 1 else pre, decimal', decimal' == 8 && difference < 0.5)
  }

  /** The constructor for 16-bit integers. */
  function FromInt(input: int): Number {
    if input < -MAX_AS_INT16 || input > MAX_AS_INT16 then NAN
    else Number(false, EncodePreDecimal(input, input < 0), 0, false)
  }

  /** The constructor for bytes, of which there have to be two. */
  function FromBytes(data: seq<nat>): Number
    requires forall i :: 0 <= i < |data| ==> data[i] < 256
  {
    if |data| < 2 then NAN
    else
      var pre := data[0] % 64 * 16 + data[1] / 16;
      var decimal := data[1] % 16;
      if pre != SIGN_BIT || decimal > 0 then Number(false, pre, decimal, false) else NAN
  }

  // ----- decoding

  function ToReal(f: Number): real
    requires !f.isNan
  {
    if SignBit(f.preDecimal) then DecodePreDecimal(f.preDecimal) as real - PRECISION * f.decimal as real
    else DecodePreDecimal(f.preDecimal) as real + PRECISION * f.decimal as real
  }

  /** A zero comes out positive, whatever sign it went in with. */
  function ToDouble(f: Number): Double {
    if f.isNan then NotANumber else Finite(ToReal(f), ToReal(f) < 0.0)
  }

  function OneForRounding(down: bool, towardsZero: bool, decimal: nat): int {
    if decimal < 8 || towardsZero then 0 else if down then -1 else 1
  }

  function ToInt16(f: Number): int {
    if f.isNan then INT16_MIN
    else DecodePreDecimal(f.preDecimal) + OneForRounding(SignBit(f.preDecimal), f.roundTowardsZero, f.decimal)
  }

  function Bytes(f: Number): (b: seq<nat>)
    ensures |b| == 2 && b[0] < 256 && b[1] < 256
  {
    if f.isNan then [SIGN_BIT / 16, 0]
    else [f.preDecimal / 16 % 64, (f.preDecimal * 16 + f.decimal) % 256]
  }

  /** `to_buffer`: a buffer that is too short is left alone. */
  method ToBuffer(f: Number, buffer: array<nat>) returns (ok: bool)
    modifies buffer
    ensures ok <==> buffer.Length >= 2
    ensures ok ==> buffer[..2] == Bytes(f) && buffer[2..] == old(buffer[2..])
    ensures !ok ==> buffer[..] == old(buffer[..])
  {
    if buffer.Length < 2 {
      return false;
    }
    if !f.isNan {
      buffer[0] := f.preDecimal / 16 % 64;
      buffer[1] := (f.preDecimal * 16 + f.decimal) % 256;
    } else {
      buffer[0] := SIGN_BIT / 16;
      buffer[1] := 0;
    }
    return true;
  }

  // ----- what is represented

  /** The represented number in sixteenths, without its sign. */
  function Sixteenths(f: Number): nat {
    16 * Magnitude(f.preDecimal) + f.decimal
  }

  lemma FloorShift(n: int, y: real)
    ensures (n as real + y).Floor == n + y.Floor
  {
  }

  /** Whole part and rounded fraction are put together by rounding once. */
  lemma SplitRounding(a: real)
    requires 0.0 <= a
    ensures var m := a.Floor;
      16 * m + Round((a - m as real) / PRECISION) == (16.0 * a + 0.5).Floor
  {
    var m := a.Floor;
    var y := (a - m as real) / PRECISION + 0.5;
    assert 16.0 * a + 0.5 == (16 * m) as real + y;
    FloorShift(16 * m, y);
  }

  lemma RoundedFraction(y: real)
    requires 0.0 <= y < 1.0
    ensures var r := Round(y / PRECISION);
      && 0 <= r <= 16
      && (r < 8 ==> y < 0.5) && (r > 8 ==> y >= 0.5)
  {
  }

  /** The carry out of the decimal places reaches the magnitude and stays off the sign. */
  lemma Encoded(whole: int, isNegative: bool, carry: nat)
    requires -511 <= whole <= 511 && Abs(whole as real) + carry as real <= 511.0
    requires if isNegative then whole <= 0 else whole >= 0
    ensures Magnitude(EncodePreDecimal(whole, isNegative) + carry) == (if isNegative then -whole else whole) + carry
    ensures SignBit(EncodePreDecimal(whole, isNegative) + carry) == isNegative
  {
  }

  /** Whole part, rounded fraction and flag of a double in range. */
  lemma FromDoubleParts(d: Double)
    requires IsDouble(d) && d.Finite? && IsInRange(d.x)
    ensures var f, a := FromDouble(d), Abs(d.x);
      var y := a - a.Floor as real;
      var r := Round(y / PRECISION);
      && 0.0 <= y < 1.0
      && Valid(f) && !f.isNan && SignBit(f.preDecimal) == d.negative
      && Magnitude(f.preDecimal) == a.Floor + (if r == 16 then 1 else 0)
      && f.decimal as int == (if r == 16 then 0 else r)
      && f.roundTowardsZero == (r == 8 && y < 0.5)
  {
    var a := Abs(d.x);
    RangeOfTrunc(d.x);
    var whole := Trunc(d.x);
    assert Abs(d.x - whole as real) == a - a.Floor as real;
    assert whole == if d.negative then -a.Floor else a.Floor;
    RoundedFraction(a - a.Floor as real);
    Encoded(whole, d.negative, if Round((a - a.Floor as real) / PRECISION) == 16 then 1 else 0);
    hide Round, Trunc, IsInRange, Magnitude, EncodePreDecimal;
    assert IsInRange(d.x);
  }

  /** A double in range becomes its sign and its magnitude in sixteenths, rounded once. */
  lemma FromDoubleIs(d: Double)
    requires IsDouble(d) && d.Finite? && IsInRange(d.x)
    ensures var f := FromDouble(d);
      && Valid(f) && !f.isNan
      && SignBit(f.preDecimal) == d.negative
      && Sixteenths(f) == (16.0 * Abs(d.x) + 0.5).Floor
      && DecodePreDecimal(f.preDecimal) == (if d.negative then -(Magnitude(f.preDecimal) as int) else Magnitude(f.preDecimal))
  {
    FromDoubleParts(d);
    SplitRounding(Abs(d.x));
    WithoutSign(FromDouble(d).preDecimal);
    hide FromDouble, Round, IsInRange, IsDouble, Trunc, Magnitude, SignBit;
  }

  lemma WithoutSign(p: nat)
    requires p < 2 * SIGN_BIT
    ensures !SignBit(p) ==> Magnitude(p) == p
  {
  }

  lemma ToRealIs(f: Number)
    requires Valid(f) && !f.isNan
    ensures ToReal(f) == (if SignBit(f.preDecimal) then -1.0 else 1.0) * (Sixteenths(f) as real) / 16.0
  {
    var m := Magnitude(f.preDecimal);
    if SignBit(f.preDecimal) {
      assert ToReal(f) == -(m as real) - PRECISION * f.decimal as real;
    } else {
      assert f.preDecimal == m;
      assert ToReal(f) == m as real + PRECISION * f.decimal as real;
    }
    assert Sixteenths(f) as real == 16.0 * m as real + f.decimal as real;
  }

  lemma RoundOfSigned(x: real)
    ensures Round(16.0 * x) == (if x < 0.0 then -1 else 1) * (16.0 * Abs(x) + 0.5).Floor
  {
  }

  /** The represented number is the nearest multiple of 1/16, ties away from zero. */
  lemma ToDoubleIsNearest(d: Double)
    requires IsDouble(d) && d.Finite? && IsInRange(d.x)
    ensures var f := FromDouble(d);
      !f.isNan && ToReal(f) == Round(16.0 * d.x) as real / 16.0
  {
    var f := FromDouble(d);
    FromDoubleIs(d);
    ToRealIs(f);
    RoundOfSigned(d.x);
    if d.x == 0.0 {
      assert Sixteenths(f) == 0;
    }
  }

  lemma RoundWithin(x: real)
    ensures x >= 0.0 ==> Round(x) as real - 0.5 <= x < Round(x) as real + 0.5 && Round(x) >= 0
    ensures x < 0.0 ==> Round(x) as real - 0.5 < x <= Round(x) as real + 0.5 && Round(x) <= 0
  {
  }

  lemma RoundOfInteger(n: int)
    ensures Round(n as real) == n
  {
  }

  /** `Round` is what its name says. */
  lemma RoundIsNearest(x: real, n: int)
    ensures Abs(x - Round(x) as real) <= Abs(x - n as real)
    ensures Abs(x - Round(x) as real) == Abs(x - n as real) ==> Abs(n as real) <= Abs(Round(x) as real)
  {
    hide Round;
    RoundWithin(x);
    var r := Round(x);
    if n > r {
      assert n as real >= r as real + 1.0;
    } else if n < r {
      assert n as real <= r as real - 1.0;
    }
  }

  lemma RoundIsMonotone(x: real, y: real)
    requires x <= y
    ensures Round(x) <= Round(y)
  {
  }

  lemma ToDoubleIsMonotone(d: Double, e: Double)
    requires IsDouble(d) && d.Finite? && IsInRange(d.x)
    requires IsDouble(e) && e.Finite? && IsInRange(e.x) && d.x <= e.x
    ensures ToReal(FromDouble(d)) <= ToReal(FromDouble(e))
  {
    ToDoubleIsNearest(d);
    ToDoubleIsNearest(e);
    RoundIsMonotone(16.0 * d.x, 16.0 * e.x);
    var m, n := Round(16.0 * d.x), Round(16.0 * e.x);
    assert m as real / 16.0 <= n as real / 16.0;
  }

  /** Everything else is not a number. */
  lemma OutOfRangeIsNan(d: Double)
    requires IsDouble(d)
    ensures FromDouble(d).isNan <==> !d.Finite? || !IsInRange(d.x)
  {
    if d.Finite? && IsInRange(d.x) {
      FromDoubleIs(d);
    }
  }

  // ----- integers

  /** The decimal place and the flag remember which side of one half the input was on. */
  lemma HalfIsRemembered(d: Double)
    requires IsDouble(d) && d.Finite? && IsInRange(d.x)
    ensures var f := FromDouble(d);
      var a := Abs(d.x);
      Magnitude(f.preDecimal) + (if f.decimal < 8 || f.roundTowardsZero then 0 else 1) == (a + 0.5).Floor
  {
    FromDoubleParts(d);
    hide FromDouble, Magnitude, Round, IsInRange, IsDouble, Trunc;
    var a := Abs(d.x);
    var y := a - a.Floor as real;
    RoundedFraction(y);
    FloorShift(a.Floor, y + 0.5);
    assert a + 0.5 == a.Floor as real + (y + 0.5);
  }

  /** The integer is the input rounded once, halves away from zero, not the sixteenths rounded again. */
  lemma ToInt16RoundsOnce(d: Double)
    requires IsDouble(d) && d.Finite? && IsInRange(d.x)
    ensures ToInt16(FromDouble(d)) == Round(d.x)
  {
    FromDoubleIs(d);
    HalfIsRemembered(d);
  }

  /** An integer becomes a number exactly if it is in range; the number represents it, and its double becomes the same. */
  lemma FromIntIs(input: int)
    ensures FromInt(input).isNan <==> input < -511 || input > 511
    ensures !FromInt(input).isNan ==>
      && Valid(FromInt(input)) && ToReal(FromInt(input)) == input as real
      && FromInt(input) == FromDouble(Finite(input as real, input < 0))
  {
  }

  /** Integers in range come back, all others become INT16_MIN. */
  lemma IntRoundTrip(n: int)
    ensures ToInt16(FromInt(n)) == if -MAX_AS_INT16 <= n <= MAX_AS_INT16 then n else INT16_MIN
  {
  }

  // ----- converting back and forth

  /** Converting the represented number again does not change it. */
  lemma ReconversionIsStable(d: Double)
    requires IsDouble(d)
    ensures IsDouble(ToDouble(FromDouble(d)))
    ensures ToDouble(FromDouble(ToDouble(FromDouble(d)))) == ToDouble(FromDouble(d))
  {
    OutOfRangeIsNan(d);
    if d.Finite? && IsInRange(d.x) {
      ToDoubleIsNearest(d);
      var k := Round(16.0 * d.x);
      var e := ToDouble(FromDouble(d));
      assert -8192.0 < 16.0 * d.x < 8192.0;
      SixteenthsInRange(d.x);
      assert 16.0 * e.x == k as real;
      RoundOfInteger(k);
      ToDoubleIsNearest(e);
    }
  }

  lemma SixteenthsInRange(x: real)
    requires IsInRange(x)
    ensures IsInRange(Round(16.0 * x) as real / 16.0)
  {
    var k := Round(16.0 * x);
    assert -8191 <= k <= 8191;
  }

  /** Any two bytes come back, except for the two bits that are not used. */
  lemma BytesRoundTrip(b0: nat, b1: nat)
    requires b0 < 256 && b1 < 256
    ensures Bytes(FromBytes([b0, b1])) == [b0 % 64, b1]
  {
    Unpacking(b0 % 64, b1);
    assert [b0, b1][0] == b0 && [b0, b1][1] == b1;
  }

  lemma Unpacking(b0: nat, b1: nat)
    requires b0 < 64 && b1 < 256
    ensures var p, c := b0 * 16 + b1 / 16, b1 % 16;
      && p / 16 % 64 == b0 && (p * 16 + c) % 256 == b1
      && (p == SIGN_BIT && c == 0 ==> b0 == SIGN_BIT / 16 && b1 == 0)
  {
    assert (b0 * 16 + b1 / 16) * 16 + b1 % 16 == 256 * b0 + b1;
  }

  lemma Packing(p: nat, c: nat)
    requires p < 1024 && c < 16
    ensures var b0, b1 := p / 16 % 64, (p * 16 + c) % 256;
      b0 % 64 * 16 + b1 / 16 == p && b1 % 16 == c
  {
    var q, r := p / 16, p % 16;
    assert p * 16 + c == 256 * q + (r * 16 + c);
    assert (p * 16 + c) % 256 == r * 16 + c;
  }

  lemma NumberRoundTrip(f: Number)
    requires Valid(f)
    ensures FromBytes(Bytes(f)) ==
            if f.isNan || (f.preDecimal == SIGN_BIT && f.decimal == 0) then NAN else f.(roundTowardsZero := false)
  {
    if !f.isNan {
      Packing(f.preDecimal, f.decimal);
    }
  }

  /** Through bytes, the represented number is kept exactly unless the input was negative and below 1/32. */
  lemma ThroughBytesExactly(d: Double)
    requires IsDouble(d) && d.Finite? && IsInRange(d.x)
    ensures var f := FromDouble(d);
      var g := FromBytes(Bytes(f));
      && (ToDouble(g) == ToDouble(f) <==> !(d.negative && Abs(d.x) < 1.0 / 32.0))
      && (g.isNan <==> d.negative && Abs(d.x) < 1.0 / 32.0)
  {
    var f := FromDouble(d);
    FromDoubleIs(d);
    NumberRoundTrip(f);
    assert Sixteenths(f) == 0 <==> Abs(d.x) < 1.0 / 32.0;
    assert f.preDecimal == SIGN_BIT && f.decimal == 0 <==> d.negative && Sixteenths(f) == 0;
  }

  /** Rounding was suppressed exactly for inputs in the upper half of the sixteenth below one half. */
  lemma SuppressedExactly(d: Double)
    requires IsDouble(d) && d.Finite? && IsInRange(d.x)
    ensures var a := Abs(d.x);
      FromDouble(d).roundTowardsZero <==> 15.0 / 32.0 <= a - a.Floor as real < 0.5
  {
    FromDoubleParts(d);
    hide FromDouble, Magnitude, Round, IsInRange, IsDouble, Trunc;
    RoundsToEight(Abs(d.x) - Abs(d.x).Floor as real);
  }

  lemma RoundsToEight(y: real)
    requires 0.0 <= y < 1.0
    ensures Round(y / PRECISION) == 8 && y < 0.5 <==> 15.0 / 32.0 <= y < 0.5
  {
  }

  /**
   The integer survives the bytes exactly unless the input was negative and below
   1/32, or its fraction was so close below one half that it became one half.
   */
  lemma IntegerThroughBytesExactly(d: Double)
    requires IsDouble(d) && d.Finite? && IsInRange(d.x)
    ensures var f, a := FromDouble(d), Abs(d.x);
      ToInt16(FromBytes(Bytes(f))) == ToInt16(f) <==>
      !(d.negative && a < 1.0 / 32.0) && !(15.0 / 32.0 <= a - a.Floor as real < 0.5)
  {
    var f := FromDouble(d);
    ThroughBytesExactly(d);
    SuppressedExactly(d);
    FromDoubleIs(d);
    NumberRoundTrip(f);
    FromDoubleParts(d);
    IntegerOf(f);
    hide FromDouble, Round, IsInRange, IsDouble, Trunc, FromBytes, Bytes;
  }

  /** Integers of a number with and without its flag, and of one that is none. */
  lemma IntegerOf(f: Number)
    requires Valid(f) && !f.isNan && (f.roundTowardsZero ==> f.decimal == 8)
    ensures ToInt16(f) == ToInt16(f.(roundTowardsZero := false)) <==> !f.roundTowardsZero
    ensures ToInt16(f) != ToInt16(NAN)
  {
  }
}
