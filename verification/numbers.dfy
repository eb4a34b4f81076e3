/** The JavaScript numbers the timesheet handles for `hours`: what
    parseFloat makes of a piece of text, and the `x || 0` and `x > 0` tests
    applied to the result. Values are exact decimals; the rounding to double
    precision is not modelled. */
module Numbers {
  import opened Wrappers
  import opened Text

  /** A JavaScript number: not-a-number, a finite value, or an infinity. */
  datatype Number = NaN | Finite(value: real) | Infinite(negative: bool)

  /** `n > 0`, which is false for NaN. */
  predicate IsPositive(n: Number) {
    match n
    case NaN => false
    case Finite(v) => v > 0.0
    case Infinite(negative) => !negative
  }

  /** `n || 0`: the falsy numbers NaN and zero become zero, every other
      number is kept. */
  function OrZero(n: Number): (r: Number)
    ensures r != NaN
    ensures r == n || r == Finite(0.0)
    ensures n != NaN && n != Finite(0.0) ==> r == n
    ensures IsPositive(r) <==> IsPositive(n)
  {
    if n == NaN || n == Finite(0.0) then Finite(0.0) else n
  }

  predicate IsDigit(c: char) {
    '0' <= c <= '9'
  }

  predicate AllDigits(s: string) {
    forall i | 0 <= i < |s| :: IsDigit(s[i])
  }

  /** The longest run of decimal digits at the start of `s`. */
  function DigitRun(s: string): (d: string)
    ensures |d| <= |s| && d == s[..|d|]
    ensures AllDigits(d)
    ensures |d| == |s| || !IsDigit(s[|d|])
    decreases |s|
  {
    if |s| > 0 && IsDigit(s[0]) then [s[0]] + DigitRun(s[1..]) else ""
  }

  function DigitValue(c: char): nat {
    if IsDigit(c) then c as int - '0' as int else 0
  }

  /** The value of a string of decimal digits, 0 for the empty string. */
  function DigitsValue(d: string): nat
    decreases |d|
  {
    if |d| == 0 then 0 else 10 * DigitsValue(d[..|d| - 1]) + DigitValue(d[|d| - 1])
  }

  /** Ten to the power `e`, for negative `e` too. */
  function Pow10(e: int): (r: real)
    ensures r > 0.0
    decreases if e < 0 then -e else e
  {
    if e == 0 then 1.0 else if e > 0 then 10.0 * Pow10(e - 1) else Pow10(e + 1) / 10.0
  }

  /** `digits` times ten to the power `e`. */
  function Scaled(digits: nat, e: int): real {
    digits as real * Pow10(e)
  }

  /** The exponent part at the start of `s` ("e" or "E", an optional sign,
      at least one digit), or 0 when `s` does not start with a complete one:
      the longest-prefix rule of parseFloat then stops before the "e". */
  function ExponentOf(s: string): int {
    if |s| > 0 && (s[0] == 'e' || s[0] == 'E') then
      var signed := |s| > 1 && (s[1] == '+' || s[1] == '-');
      var digits := DigitRun(if signed then s[2..] else s[1..]);
      if |digits| == 0 then 0
      else if signed && s[1] == '-' then -(DigitsValue(digits) as int)
      else DigitsValue(digits)
    else 0
  }

  /** The value of the unsigned decimal literal at the start of `u`: digits,
      optionally a point and more digits, optionally an exponent, with at
      least one digit before or after the point; None when there is none. */
  function UnsignedPrefix(u: string): (r: Option<real>)
    ensures |u| > 0 && IsDigit(u[0]) ==> r.Some?
    ensures (|u| == 0 || !(IsDigit(u[0]) || u[0] == '.')) ==> r.None?
  {
    var whole := DigitRun(u);
    AfterWhole(whole, u[|whole|..])
  }

  /** The literal whose integer digits are `whole`, given the text after
      them: an optional point and fraction digits, then an optional
      exponent. */
  function AfterWhole(whole: string, afterWhole: string): Option<real> {
    var point := |afterWhole| > 0 && afterWhole[0] == '.';
    var fraction := if point then DigitRun(afterWhole[1..]) else "";
    if |whole| == 0 && |fraction| == 0 then None
    else
      var afterFraction := if point then afterWhole[1 + |fraction|..] else afterWhole;
      Some(Scaled(DigitsValue(whole + fraction), ExponentOf(afterFraction) - |fraction|))
  }

  /** "Infinity" at the start of `u`. */
  predicate StartsWithInfinity(u: string) {
    |u| >= 8 && u[..8] == "Infinity"
  }

  /** The unsigned number at the start of `u`: "Infinity" or a decimal
      literal; NaN when there is neither. */
  function UnsignedNumber(u: string): (r: Number)
    ensures |u| > 0 && IsDigit(u[0]) ==> r.Finite?
    ensures (|u| == 0 || !(IsDigit(u[0]) || u[0] == '.' || u[0] == 'I')) ==> r == NaN
  {
    assert StartsWithInfinity(u) ==> u[0] == 'I' by {
      if StartsWithInfinity(u) {
        assert u[0] == u[..8][0];
      }
    }
    if StartsWithInfinity(u) then Infinite(false)
    else
      match UnsignedPrefix(u)
      case None => NaN
      case Some(m) => Finite(m)
  }

  function Negate(n: Number): Number {
    match n
    case NaN => NaN
    case Finite(v) => Finite(-v)
    case Infinite(negative) => Infinite(!negative)
  }

  /** parseFloat: skip leading whitespace, read an optional sign, then either
      "Infinity" or the longest decimal literal; NaN when neither is there.
      Whatever follows the literal is ignored. */
  function ParseFloat(s: string): (r: Number)
    ensures var t := TrimStart(s); |t| > 0 && IsDigit(t[0]) ==> r.Finite?
    ensures var t := TrimStart(s);
              (|t| == 0 || !(IsDigit(t[0]) || t[0] == '.' || t[0] == '+' || t[0] == '-' || t[0] == 'I'))
              ==> r == NaN
  {
    var t := TrimStart(s);
    if |t| > 0 && t[0] == '-' then Negate(UnsignedNumber(t[1..]))
    else if |t| > 0 && t[0] == '+' then UnsignedNumber(t[1..])
    else UnsignedNumber(t)
  }

  /** Text that starts with a digit or a point is read as an unsigned
      decimal literal. */
  lemma ParseFloatUnsigned(s: string)
    requires |s| > 0 && (IsDigit(s[0]) || s[0] == '.')
    ensures UnsignedPrefix(s).None? ==> ParseFloat(s) == NaN
    ensures UnsignedPrefix(s).Some? ==> ParseFloat(s) == Finite(UnsignedPrefix(s).value)
  {
    assert !IsSpace(s[0]);
    assert TrimStart(s) == s;
    if |s| >= 8 {
      assert s[..8][0] == s[0];
    }
    assert !StartsWithInfinity(s);
  }

  /** The digit run of text that is all digits is the whole text. */
  lemma DigitRunAll(d: string)
    requires AllDigits(d)
    ensures DigitRun(d) == d
  {
  }

  /** The digit run stops at the first character that is not a digit. */
  lemma {:induction false} DigitRunStops(d: string, rest: string)
    requires AllDigits(d) && |rest| > 0 && !IsDigit(rest[0])
    ensures DigitRun(d + rest) == d
    decreases |d|
  {
    if |d| > 0 {
      assert (d + rest)[1..] == d[1..] + rest;
      DigitRunStops(d[1..], rest);
      assert [d[0]] + d[1..] == d;
    } else {
      assert d + rest == rest;
    }
  }

  /** A digit string is read as the integer it spells. */
  lemma ParseFloatDigits(d: string)
    requires |d| > 0 && AllDigits(d)
    ensures ParseFloat(d) == Finite(DigitsValue(d) as real)
  {
    ParseFloatUnsigned(d);
    DigitRunAll(d);
    assert d[|d|..] == "";
    assert d + "" == d;
    assert UnsignedPrefix(d) == Some(Scaled(DigitsValue(d), 0));
  }

  /** Zero, as the cell default "0" is read. */
  lemma ParseFloatZero()
    ensures ParseFloat("0") == Finite(0.0)
  {
    assert DigitsValue("0") == 0 by {
      assert "0"[..0] == "";
    }
    assert ParseFloat("0") == Finite(DigitsValue("0") as real) by {
      assert AllDigits("0");
      ParseFloatDigits("0");
    }
  }

  /** Text that starts with the decimal literal of `v` is read as `v`. */
  lemma ParseFloatLiteral(s: string, v: real)
    requires |s| > 0 && (IsDigit(s[0]) || s[0] == '.')
    requires UnsignedPrefix(s) == Some(v)
    ensures ParseFloat(s) == Finite(v)
  {
    ParseFloatUnsigned(s);
  }

  lemma DecimalPrefix(whole: string, fraction: string)
    requires AllDigits(whole) && AllDigits(fraction)
    requires |whole| + |fraction| > 0
    ensures UnsignedPrefix(whole + "." + fraction) == Some(Scaled(DigitsValue(whole + fraction), -|fraction|))
  {
    var s := whole + "." + fraction;
    assert s == whole + ("." + fraction);
    DigitRunStops(whole, "." + fraction);
    assert s[|whole|..] == "." + fraction;
    UnsignedPrefixPoint(s, whole, fraction);
  }

  lemma DecimalStart(whole: string, fraction: string)
    requires AllDigits(whole)
    ensures var s := whole + "." + fraction; |s| > 0 && (IsDigit(s[0]) || s[0] == '.')
  {
    var s := whole + "." + fraction;
    if |whole| > 0 {
      assert s[0] == whole[0];
    } else {
      assert s[0] == '.';
    }
  }

  /** `whole.fraction` is read as the digits of both scaled down by the
      length of the fraction. */
  lemma ParseFloatDecimal(whole: string, fraction: string)
    requires AllDigits(whole) && AllDigits(fraction)
    requires |whole| + |fraction| > 0
    ensures ParseFloat(whole + "." + fraction)
         == Finite(Scaled(DigitsValue(whole + fraction), -|fraction|))
  {
    DecimalPrefix(whole, fraction);
    DecimalStart(whole, fraction);
    ParseFloatLiteral(whole + "." + fraction, Scaled(DigitsValue(whole + fraction), -|fraction|));
  }

  lemma PointFraction(whole: string, fraction: string)
    requires AllDigits(fraction) && |whole| + |fraction| > 0
    ensures AfterWhole(whole, "." + fraction) == Some(Scaled(DigitsValue(whole + fraction), -|fraction|))
  {
    var afterWhole := "." + fraction;
    assert afterWhole[1..] == fraction;
    DigitRunAll(fraction);
    assert afterWhole[1 + |fraction|..] == "";
    assert ExponentOf("") == 0;
  }

  lemma UnsignedPrefixPoint(u: string, whole: string, fraction: string)
    requires AllDigits(fraction) && |whole| + |fraction| > 0
    requires DigitRun(u) == whole && u[|whole|..] == "." + fraction
    ensures UnsignedPrefix(u) == Some(Scaled(DigitsValue(whole + fraction), -|fraction|))
  {
    calc {
      UnsignedPrefix(u);
      AfterWhole(whole, "." + fraction);
      { PointFraction(whole, fraction); }
      Some(Scaled(DigitsValue(whole + fraction), -|fraction|));
    }
  }
}
