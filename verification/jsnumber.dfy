/** JavaScript numbers as the ingestion code meets them, and `Number(s)` on a
    string: the StringToNumber conversion of ECMAScript, section 7.1.4.1.1 of
    ECMA-262, evaluated over exact reals. */
module JsNumber {
  import opened Outcomes
  import opened JsText

  /** A JavaScript number as far as the ingestion code can tell them apart: a
      finite value, or one of NaN, +Infinity, -Infinity (all three fail
      `isFinite`, none of them is `0`). */
  datatype Number = Finite(value: real) | NonFinite

  function Negate(n: Number): Number {
    match n
    case Finite(v) => Finite(-v)
    case NonFinite => NonFinite
  }

  /** Value of a digit in bases up to 36; 36 for anything that is no digit. */
  function DigitValue(c: char): nat {
    if '0' <= c <= '9' then c as int - '0' as int
    else if 'a' <= c <= 'z' then c as int - 'a' as int + 10
    else if 'A' <= c <= 'Z' then c as int - 'A' as int + 10
    else 36
  }

  predicate IsDigitIn(c: char, radix: nat) {
    DigitValue(c) < radix
  }

  predicate AllDigitsIn(s: string, radix: nat) {
    forall i :: 0 <= i < |s| ==> IsDigitIn(s[i], radix)
  }

  /** Positional value of a digit string, most significant digit first. */
  function DigitsValue(s: string, radix: nat): nat {
    if |s| == 0 then 0
    else DigitsValue(s[..|s| - 1], radix) * radix + DigitValue(s[|s| - 1])
  }

  /** Value of the digits after a decimal point: `0.d1d2...` */
  function FractionValue(f: string): real
  {
    if |f| == 0 then 0.0 else (DigitValue(f[0]) as real + FractionValue(f[1..])) / 10.0
  }

  /** `v * 10^x` for a whole exponent `x` of either sign. */
  function Scale(v: real, x: int): real
    decreases if x >= 0 then x else -x
  {
    if x == 0 then v
    else if x > 0 then Scale(v * 10.0, x - 1)
    else Scale(v / 10.0, x + 1)
  }

  /** Position of the first `a` or `b` in `s`, or `|s|` when there is none. */
  function FirstOf(s: string, a: char, b: char): (i: nat)
    ensures i <= |s|
    ensures i < |s| ==> s[i] == a || s[i] == b
    ensures forall j :: 0 <= j < i ==> s[j] != a && s[j] != b
  {
    if |s| == 0 then 0
    else if s[0] == a || s[0] == b then 0
    else 1 + FirstOf(s[1..], a, b)
  }

  /** The digits-and-point part of a StrUnsignedDecimalLiteral:
      `DecimalDigits . DecimalDigits?`, `. DecimalDigits` or `DecimalDigits`. */
  function Mantissa(m: string): Option<real> {
    // The same character twice: the position of the first point.
    var d := FirstOf(m, '.', '.');
    var whole := m[..d];
    var fraction := if d < |m| then m[d + 1..] else [];
    if |whole| + |fraction| > 0 && AllDigitsIn(whole, 10) && AllDigitsIn(fraction, 10)
    then Some(DigitsValue(whole, 10) as real + FractionValue(fraction))
    else None
  }

  /** The SignedInteger after `e` or `E`. */
  function Exponent(e: string): Option<int> {
    var signed := |e| > 0 && (e[0] == '+' || e[0] == '-');
    var digits := if signed then e[1..] else e;
    var magnitude: int := DigitsValue(digits, 10);
    if |digits| > 0 && AllDigitsIn(digits, 10)
    then Some(if signed && e[0] == '-' then -magnitude else magnitude)
    else None
  }

  /** StrUnsignedDecimalLiteral: `Infinity`, or a mantissa with an optional exponent. */
  function UnsignedDecimal(u: string): Number {
    if u == "Infinity" then NonFinite
    else
      var k := FirstOf(u, 'e', 'E');
      match Mantissa(u[..k])
      case None => NonFinite
      case Some(v) =>
        if k == |u| then Finite(v)
        else match Exponent(u[k + 1..])
          case None => NonFinite
          case Some(x) => Finite(Scale(v, x))
  }

  /** NonDecimalIntegerLiteral after its `0x`/`0o`/`0b` prefix. */
  function NonDecimal(d: string, radix: nat): Number {
    if |d| > 0 && AllDigitsIn(d, radix) then Finite(DigitsValue(d, radix) as real) else NonFinite
  }

  /** StrNumericLiteral on a trimmed, non-empty string; NaN when it does not parse. */
  function Literal(t: string): Number {
    if |t| >= 2 && t[0] == '0' && (t[1] == 'x' || t[1] == 'X') then NonDecimal(t[2..], 16)
    else if |t| >= 2 && t[0] == '0' && (t[1] == 'o' || t[1] == 'O') then NonDecimal(t[2..], 8)
    else if |t| >= 2 && t[0] == '0' && (t[1] == 'b' || t[1] == 'B') then NonDecimal(t[2..], 2)
    else if |t| > 0 && t[0] == '+' then UnsignedDecimal(t[1..])
    else if |t| > 0 && t[0] == '-' then Negate(UnsignedDecimal(t[1..]))
    else UnsignedDecimal(t)
  }

  /** `Number(s)`: surrounding white space is ignored and a blank string is 0. */
  function ParseNumber(s: string): Number {
    var t := Trim(s);
    if t == [] then Finite(0.0) else Literal(t)
  }

  /** Decimal numeral of a natural number, without leading zeros. */
  function DecimalText(n: nat): (r: string)
    decreases n
  {
    if n < 10 then ['0' + n as char] else DecimalText(n / 10) + ['0' + (n % 10) as char]
  }

  predicate IsAsciiDigit(c: char) {
    '0' <= c <= '9'
  }

  lemma {:induction false} DecimalTextValue(n: nat)
    ensures |DecimalText(n)| > 0 && AllDigitsIn(DecimalText(n), 10)
    ensures DigitsValue(DecimalText(n), 10) == n
    ensures forall i :: 0 <= i < |DecimalText(n)| ==> IsAsciiDigit(DecimalText(n)[i])
    decreases n
  {
    var t := DecimalText(n);
    if n >= 10 {
      DecimalTextValue(n / 10);
      assert t[..|t| - 1] == DecimalText(n / 10);
    }
  }

  /** Only ASCII digits are decimal digits. */
  lemma DecimalDigitIsAscii(c: char)
    ensures IsDigitIn(c, 10) <==> IsAsciiDigit(c)
  {
  }

  /** A literal that starts with a decimal digit and no radix prefix is a
      StrUnsignedDecimalLiteral. */
  lemma LiteralOfDigits(t: string)
    requires |t| > 0 && IsAsciiDigit(t[0])
    requires |t| >= 2 ==> IsAsciiDigit(t[1]) || t[1] == '.'
    ensures Literal(t) == UnsignedDecimal(t)
  {
  }

  /** Without an exponent marker the whole literal is the mantissa. */
  lemma UnsignedWithoutExponent(u: string)
    requires forall i :: 0 <= i < |u| ==> u[i] != 'e' && u[i] != 'E'
    requires |u| > 0 && IsAsciiDigit(u[0])
    ensures Mantissa(u).Some? ==> UnsignedDecimal(u) == Finite(Mantissa(u).value)
    ensures Mantissa(u).None? ==> UnsignedDecimal(u) == NonFinite
  {
    assert u != "Infinity";
    assert FirstOf(u, 'e', 'E') == |u|;
    assert u[..|u|] == u;
  }

  /** `FirstOf` finds the first occurrence, and only that. */
  lemma FirstOfIs(s: string, a: char, b: char, k: nat)
    requires k <= |s|
    requires k < |s| ==> s[k] == a || s[k] == b
    requires forall j :: 0 <= j < k ==> s[j] != a && s[j] != b
    ensures FirstOf(s, a, b) == k
  {
  }

  /** A run of decimal digits contains no point, exponent marker or white space. */
  lemma DigitsFirstOfNone(s: string, a: char, b: char)
    requires AllDigitsIn(s, 10)
    requires !IsDigitIn(a, 10) && !IsDigitIn(b, 10)
    ensures FirstOf(s, a, b) == |s|
  {
    forall j | 0 <= j < |s| ensures s[j] != a && s[j] != b {
      assert IsDigitIn(s[j], 10);
    }
    FirstOfIs(s, a, b, |s|);
  }

  lemma MantissaPointed(whole: string, fraction: string)
    requires AllDigitsIn(whole, 10) && AllDigitsIn(fraction, 10)
    requires |whole| > 0
    ensures Mantissa(whole + "." + fraction).Some?
    ensures Mantissa(whole + "." + fraction).value == DigitsValue(whole, 10) as real + FractionValue(fraction)
  {
    var t := whole + "." + fraction;
    DigitsFirstOfNone(whole, '.', '.');
    assert t[..|whole|] == whole;
    assert t[|whole|] == '.';
    FirstOfPrefix(t, |whole|);
    assert t[|whole| + 1..] == fraction;
  }

  lemma FirstOfPrefix(t: string, k: nat)
    requires k < |t| && t[k] == '.'
    requires FirstOf(t[..k], '.', '.') == k
    ensures FirstOf(t, '.', '.') == k
  {
    assert forall j :: 0 <= j < k ==> t[j] == t[..k][j];
    FirstOfIs(t, '.', '.', k);
  }

  lemma MantissaWhole(whole: string)
    requires AllDigitsIn(whole, 10) && |whole| > 0
    ensures Mantissa(whole).Some? && Mantissa(whole).value == DigitsValue(whole, 10) as real
  {
    DigitsFirstOfNone(whole, '.', '.');
    assert whole[..|whole|] == whole;
  }

  /** A decimal numeral with a fraction part is read as its exact value. */
  lemma ParsePointed(whole: string, fraction: string)
    requires AllDigitsIn(whole, 10) && AllDigitsIn(fraction, 10)
    requires |whole| > 0
    ensures ParseNumber(whole + "." + fraction).Finite?
    ensures ParseNumber(whole + "." + fraction).value == DigitsValue(whole, 10) as real + FractionValue(fraction)
  {
    var t := whole + "." + fraction;
    assert t[0] == whole[0] && IsDigitIn(whole[0], 10);
    assert |t| >= 2 ==> IsAsciiDigit(t[1]) || t[1] == '.' by {
      if |whole| >= 2 { assert t[1] == whole[1] && IsDigitIn(whole[1], 10); }
    }
    forall i | 0 <= i < |t| ensures t[i] != 'e' && t[i] != 'E' && !IsSpace(t[i]) {
      if i < |whole| { assert t[i] == whole[i] && IsDigitIn(whole[i], 10); }
      else if i > |whole| { assert t[i] == fraction[i - |whole| - 1] && IsDigitIn(fraction[i - |whole| - 1], 10); }
    }
    TrimOfTrimmed(t);
    LiteralOfDigits(t);
    MantissaPointed(whole, fraction);
    UnsignedWithoutExponent(t);
  }

  /** A whole decimal numeral is read as its value. */
  lemma ParseWhole(whole: string)
    requires AllDigitsIn(whole, 10) && |whole| > 0
    ensures ParseNumber(whole).Finite? && ParseNumber(whole).value == DigitsValue(whole, 10) as real
  {
    forall i | 0 <= i < |whole| ensures IsAsciiDigit(whole[i]) {
      assert IsDigitIn(whole[i], 10);
    }
    TrimOfTrimmed(whole);
    LiteralOfDigits(whole);
    MantissaWhole(whole);
    UnsignedWithoutExponent(whole);
  }

  lemma ParseNatural(n: nat)
    ensures ParseNumber(DecimalText(n)).Finite? && ParseNumber(DecimalText(n)).value == n as real
  {
    DecimalTextValue(n);
    ParseWhole(DecimalText(n));
  }

  lemma MantissaNeedsDigit(u: string)
    requires forall i :: 0 <= i < |u| ==> !IsDigitIn(u[i], 10)
    ensures UnsignedDecimal(u).NonFinite?
  {
    if u != "Infinity" {
      var m := u[..FirstOf(u, 'e', 'E')];
      // The same character twice: the position of the first point.
    var d := FirstOf(m, '.', '.');
      var whole := m[..d];
      var fraction := if d < |m| then m[d + 1..] else [];
      if |whole| > 0 {
        assert whole[0] == u[0];
      } else if |fraction| > 0 {
        assert fraction[0] == u[d + 1];
      }
    }
  }

  /** A literal without a decimal digit spells no finite number. */
  lemma LiteralWithoutDigit(t: string)
    requires |t| > 0 && forall i :: 0 <= i < |t| ==> !IsDigitIn(t[i], 10)
    ensures Literal(t).NonFinite?
  {
    var u := if t[0] == '+' || t[0] == '-' then t[1..] else t;
    forall i | 0 <= i < |u| ensures !IsDigitIn(u[i], 10) {
      if u != t {
        assert u[i] == t[i + 1];
      }
    }
    MantissaNeedsDigit(u);
  }

  /** Without a single decimal digit the only numbers a non-blank string can
      spell are the infinities; everything else is NaN. */
  lemma NoDigitNoValue(s: string)
    requires forall i :: 0 <= i < |s| ==> !IsAsciiDigit(s[i])
    requires Trim(s) != []
    ensures ParseNumber(s).NonFinite?
  {
    var t := Trim(s);
    forall i | 0 <= i < |t| ensures !IsDigitIn(t[i], 10) {
      TrimKeeps(s, i);
      DecimalDigitIsAscii(t[i]);
    }
    LiteralWithoutDigit(t);
  }

  /** A leading minus negates the unsigned literal after it. */
  lemma MinusLiteral(d: string)
    ensures Literal("-" + d) == Negate(UnsignedDecimal(d))
  {
    assert ("-" + d)[0] == '-';
    assert ("-" + d)[1..] == d;
  }

  lemma {:induction false} FractionNonNegative(f: string)
    ensures FractionValue(f) >= 0.0
  {
    if |f| > 0 { FractionNonNegative(f[1..]); }
  }

  lemma {:induction false} ScaleNonNegative(v: real, x: int)
    requires v >= 0.0
    ensures Scale(v, x) >= 0.0
    decreases if x >= 0 then x else -x
  {
    if x > 0 { ScaleNonNegative(v * 10.0, x - 1); }
    else if x < 0 { ScaleNonNegative(v / 10.0, x + 1); }
  }

  lemma MantissaNonNegative(m: string)
    ensures Mantissa(m).Some? ==> Mantissa(m).value >= 0.0
  {
    // The same character twice: the position of the first point.
    var d := FirstOf(m, '.', '.');
    FractionNonNegative(if d < |m| then m[d + 1..] else []);
  }

  lemma UnsignedIsNonNegative(u: string)
    ensures UnsignedDecimal(u).Finite? ==> UnsignedDecimal(u).value >= 0.0
  {
    if u != "Infinity" {
      var k := FirstOf(u, 'e', 'E');
      MantissaNonNegative(u[..k]);
      match Mantissa(u[..k])
      case None =>
      case Some(v) =>
        if k < |u| {
          match Exponent(u[k + 1..])
          case None =>
          case Some(x) => ScaleNonNegative(v, x);
        }
    }
  }

  /** A literal that does not start with a minus is never negative. */
  lemma LiteralWithoutMinus(t: string)
    requires t != [] && t[0] != '-'
    ensures Literal(t).Finite? ==> Literal(t).value >= 0.0
  {
    if t[0] == '+' {
      UnsignedIsNonNegative(t[1..]);
    } else {
      UnsignedIsNonNegative(t);
    }
  }

  /** A negative finite value needs an explicit leading minus sign. */
  lemma NegativeNeedsMinus(s: string)
    requires ParseNumber(s).Finite? && ParseNumber(s).value < 0.0
    ensures Trim(s) != [] && Trim(s)[0] == '-'
  {
    var t := Trim(s);
    if t != [] && t[0] != '-' {
      LiteralWithoutMinus(t);
    }
  }
}
