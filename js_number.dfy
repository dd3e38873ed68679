/**
 * JavaScript numbers where the tide-calendar code does arithmetic on them:
 * the remainder operator `%`, `Math.round` and `parseFloat`. Numbers are
 * modelled over exact reals; IEEE-754 rounding is not modelled.
 */
module JsNumber {
  import opened Wrappers
  import opened JsText

  /** A JavaScript number as `parseFloat` can produce it. */
  datatype Number = Finite(value: real) | PosInfinity | NegInfinity | NaN

  /** Rounding toward zero. */
  function Trunc(q: real): (n: int)
    ensures q >= 0.0 ==> n as real <= q < n as real + 1.0
    ensures q < 0.0 ==> n as real - 1.0 < q <= n as real
  {
    if q >= 0.0 then q.Floor else -((-q).Floor)
  }

  /**
   * The `%` operator on numbers: `x - m * q` with `q` the quotient rounded
   * toward zero, so the remainder keeps the sign of the dividend
   * (`-5 % 360 == -5`). Its range is stated where it is used, for each
   * constant divisor.
   */
  function JsRemainder(x: real, m: real): real
    requires m > 0.0
  {
    x - m * Trunc(x / m) as real
  }

  /** `Math.round(x)`: the nearest integer, halves rounded up. */
  function MathRound(x: real): (n: int)
    ensures x - 0.5 < n as real <= x + 0.5
  {
    (x + 0.5).Floor
  }

  // ---------------------------------------------------------------------
  // parseFloat

  function Pow10(k: nat): (p: nat)
    ensures p >= 1
  {
    if k == 0 then 1 else 10 * Pow10(k - 1)
  }

  /** `mantissa * 10^exponent` as an exact real. */
  function Scale(mantissa: nat, exponent: int): real {
    if exponent >= 0 then (mantissa * Pow10(exponent)) as real
    else mantissa as real / Pow10(-exponent) as real
  }

  /** True when `s` starts with `prefix`. */
  predicate StartsWith(s: JsString, prefix: JsString) {
    |prefix| <= |s| && s[..|prefix|] == prefix
  }

  /** The length and value of an exponent part (`e`, an optional sign, at least one digit) at the start of `s`; length 0 if there is none. */
  function ExponentPart(s: JsString): (r: (nat, int))
    ensures r.0 <= |s|
  {
    if |s| == 0 || (s[0] != 'e' as CodeUnit && s[0] != 'E' as CodeUnit) then (0, 0)
    else
      var signed := |s| > 1 && (s[1] == '+' as CodeUnit || s[1] == '-' as CodeUnit);
      var digitsAt := if signed then 2 else 1;
      var n := DigitPrefixLength(s[digitsAt..], 10);
      if n == 0 then (0, 0)
      else
        var v: int := RadixValue(s[digitsAt..][..n], 10);
        (digitsAt + n, if signed && s[1] == '-' as CodeUnit then -v else v)
  }

  /** The literal `Infinity`. */
  const INFINITY: JsString := ['I' as CodeUnit, 'n' as CodeUnit, 'f' as CodeUnit, 'i' as CodeUnit, 'n' as CodeUnit, 'i' as CodeUnit, 't' as CodeUnit, 'y' as CodeUnit]

  /**
   * The value of the unsigned decimal literal at the start of `u`: digits,
   * then an optional `.` and digits (at least one digit in all), then an
   * optional exponent part. None when `u` does not start with one.
   */
  function UnsignedDecimal(u: JsString): Option<real>
  {
    var intLen := DigitPrefixLength(u, 10);
    var rest := u[intLen..];
    var hasPoint := rest != [] && rest[0] == '.' as CodeUnit;
    var fracLen := if hasPoint then DigitPrefixLength(rest[1..], 10) else 0;
    if intLen == 0 && fracLen == 0 then None
    else
      var afterMantissa := if hasPoint then rest[1 + fracLen..] else rest;
      var fraction := if hasPoint then RadixValue(rest[1..][..fracLen], 10) else 0;
      var mantissa := RadixValue(u[..intLen], 10) * Pow10(fracLen) + fraction;
      Some(Scale(mantissa, ExponentPart(afterMantissa).1 - fracLen))
  }

  /**
   * `parseFloat(s)`: skip leading white space and one sign, then read
   * `Infinity` or the longest unsigned decimal literal. NaN when there is
   * neither.
   */
  function ParseFloat(s: JsString): (r: Number)
  {
    FloatTrimmed(TrimStart(s))
  }

  /** What `parseFloat` makes of a string that starts with no white space: an optional sign, then the magnitude. */
  function FloatTrimmed(t: JsString): Number {
    var negative := t != [] && t[0] == '-' as CodeUnit;
    var u := if t != [] && (t[0] == '-' as CodeUnit || t[0] == '+' as CodeUnit) then t[1..] else t;
    if negative then Negate(FloatMagnitude(u)) else FloatMagnitude(u)
  }

  /** `Infinity`, or the unsigned decimal literal at the start of `u`; NaN when there is neither. */
  function FloatMagnitude(u: JsString): Number {
    if StartsWith(u, INFINITY) then PosInfinity
    else
      match UnsignedDecimal(u)
      case None => NaN
      case Some(v) => Finite(v)
  }

  /** Unary minus. */
  function Negate(x: Number): Number {
    match x
    case Finite(v) => Finite(-v)
    case PosInfinity => NegInfinity
    case NegInfinity => PosInfinity
    case NaN => NaN
  }

  /** A run of decimal digits is an unsigned decimal literal whose value is the run's decimal value. */
  lemma DigitsAreDecimal(u: JsString)
    requires u != [] && AllDigits(u, 10)
    ensures UnsignedDecimal(u) == Some(RadixValue(u, 10) as real)
  {
    DigitPrefixAll(u, 10);
    assert u[..|u|] == u;
    assert u[|u|..] == [];
  }

  /** A run of decimal digits is read as its decimal value. */
  lemma DigitsMagnitude(u: JsString)
    requires u != [] && AllDigits(u, 10) && IsDecimalDigit(u[0])
    ensures FloatMagnitude(u) == Finite(RadixValue(u, 10) as real)
  {
    DigitsAreDecimal(u);
    assert !StartsWith(u, INFINITY) by {
      if |INFINITY| <= |u| {
        assert u[..|INFINITY|][0] == u[0];
      }
    }
  }

  /** `parseFloat(String(n))` is `n` for every integer `n`. */
  lemma ParseFloatOfInt(n: int)
    ensures ParseFloat(IntToString(n)) == Finite(n as real)
  {
    var s := IntToString(n);
    var m: nat := if n < 0 then -n else n;
    var digits := NatToString(m);
    RadixRoundTrip(m, 10);
    DigitsMagnitude(digits);
    assert !IsJsSpace(s[0]);
    assert TrimStart(s) == s;
    if n < 0 {
      assert s[1..] == digits;
    } else {
      assert s == digits;
    }
  }

  /** A string whose first non-space unit cannot begin a decimal literal parses to NaN. */
  lemma ParseFloatNotNumeric(s: JsString)
    requires var t := TrimStart(s);
      t == [] || !(IsDecimalDigit(t[0]) || t[0] in ['.' as CodeUnit, '+' as CodeUnit, '-' as CodeUnit, 'I' as CodeUnit])
    ensures ParseFloat(s) == NaN
  {
    var t := TrimStart(s);
    if t != [] {
      assert t[0] != '-' as CodeUnit && t[0] != '+' as CodeUnit && t[0] != '.' as CodeUnit && t[0] != 'I' as CodeUnit;
      NotNumericMagnitude(t);
    } else {
      EmptyMagnitude();
    }
  }

  /** The empty string has no magnitude. */
  lemma EmptyMagnitude()
    ensures FloatMagnitude([]) == NaN
  {
    assert UnsignedDecimal([]) == None;
  }

  /** A string that cannot begin a decimal literal or `Infinity` has no magnitude. */
  lemma NotNumericMagnitude(t: JsString)
    requires t != [] && !(IsDecimalDigit(t[0]) || t[0] == '.' as CodeUnit || t[0] == 'I' as CodeUnit)
    ensures FloatMagnitude(t) == NaN
  {
    assert DigitValue(t[0]) >= 10;
    assert DigitPrefixLength(t, 10) == 0;
    assert t[0..] == t;
    assert !StartsWith(t, INFINITY) by {
      if |INFINITY| <= |t| {
        assert t[..|INFINITY|][0] == t[0];
      }
    }
  }
}
