/** The three field coercers of the candidate service: the closed seniority
    enumeration, the numeric years of experience (`toNumber`) and the
    boolean-like availability (`coerceBoolean`). */
module Coercion {
  import opened Outcomes
  import opened JsText
  import opened JsNumber
  import opened Domain

  /** The text a seniority cell is judged by: `String(raw).trim().toLowerCase()`. */
  function SeniorityWord(c: Cell): string
    requires !c.Num?
  {
    Lower(Trim(Stringify(c)))
  }

  /** `true`, `false` and `null` are too short to name a seniority. */
  lemma StringifiedIsShort(c: Cell)
    requires !c.Num?
    ensures !c.Str? ==> |SeniorityWord(c)| < 6
  {
  }

  /** Seniority must read `junior` or `senior` once trimmed and lower-cased;
      the stored value is that word. A numeric cell is refused without
      consulting its text: no JavaScript numeral spells either word. */
  function CoerceSeniority(c: Cell): (r: Result<Seniority, Error>)
    ensures r.Ok? <==> c.Str? && Lower(Trim(c.s)) in {"junior", "senior"}
    ensures r.Ok? ==> r.value.Text() == Lower(Trim(c.s))
    ensures r.Err? ==> r.error == InvalidSeniority
  {
    if c.Num? then Err(InvalidSeniority)
    else
      var w := SeniorityWord(c);
      StringifiedIsShort(c);
      if w == "junior" then Ok(Junior)
      else if w == "senior" then Ok(Senior)
      else Err(InvalidSeniority)
  }

  /** Seniority text is judged by its trimmed, lower-cased word alone. */
  lemma SeniorityByWord(x: string, y: string)
    requires Lower(Trim(x)) == Lower(Trim(y))
    ensures CoerceSeniority(Str(x)) == CoerceSeniority(Str(y))
  {
  }

  /** The word test ignores surrounding white space. */
  lemma SeniorityIgnoresPadding(w1: string, s: string, w2: string)
    requires AllSpace(w1) && AllSpace(w2)
    ensures CoerceSeniority(Str(w1 + s + w2)) == CoerceSeniority(Str(s))
  {
    TrimPadded(w1, s, w2);
    SeniorityByWord(w1 + s + w2, s);
  }

  /** The word test ignores letter case. */
  lemma SeniorityIgnoresCase(s: string)
    ensures CoerceSeniority(Str(Lower(s))) == CoerceSeniority(Str(s))
  {
    LowerTrimCommute(s);
    LowerIdempotent(Trim(s));
    SeniorityByWord(Lower(s), s);
  }

  /** Text whose trimmed, lower-cased form names a seniority is that seniority. */
  lemma SeniorityOfWord(s: string, v: Seniority)
    requires Lower(Trim(s)) == v.Text()
    ensures CoerceSeniority(Str(s)) == Ok(v)
  {
  }

  /** Text whose trimmed, lower-cased form is any other word is refused. */
  lemma SeniorityOfOther(s: string, w: string)
    requires Lower(Trim(s)) == w && w != "junior" && w != "senior"
    ensures CoerceSeniority(Str(s)) == Err(InvalidSeniority)
  {
  }

  /** `s.replace(',', '.')`: only the first comma becomes a point. */
  function ReplaceFirstComma(s: string): (r: string)
    ensures |r| == |s|
  {
    var k := FirstOf(s, ',', ',');
    if k == |s| then s else s[..k] + "." + s[k + 1..]
  }

  lemma ReplaceCommaAfter(a: string, b: string)
    requires forall i :: 0 <= i < |a| ==> a[i] != ','
    ensures ReplaceFirstComma(a + "," + b) == a + "." + b
  {
    var t := a + "," + b;
    FirstOfIs(t, ',', ',', |a|);
    assert t[..|a|] == a && t[|a| + 1..] == b;
  }

  lemma ReplaceNoComma(s: string)
    requires forall i :: 0 <= i < |s| ==> s[i] != ','
    ensures ReplaceFirstComma(s) == s
  {
    FirstOfIs(s, ',', ',', |s|);
  }

  /** `toNumber`: a number cell is taken as it is; anything else goes through
      `Number(String(value ?? '').trim().replace(',', '.'))`. */
  function ToNumber(c: Cell): (n: Number)
    ensures c.Num? ==> n == c.n
    ensures c.Null? ==> n == Finite(0.0)
  {
    match c
    case Num(x) => x
    case _ => ParseNumber(ReplaceFirstComma(Trim(StringifyOrEmpty(c))))
  }

  /** Years of experience: a finite, non-negative number, with a distinct
      rejection for a negative one. No upper bound. */
  function CoerceYears(c: Cell): (r: Result<real, Error>)
    ensures r.Ok? <==> ToNumber(c).Finite? && ToNumber(c).value >= 0.0
    ensures r.Ok? ==> r.value == ToNumber(c).value && r.value >= 0.0
    ensures r == Err(InvalidYears) <==> ToNumber(c).NonFinite?
    ensures r == Err(NegativeYears) <==> ToNumber(c).Finite? && ToNumber(c).value < 0.0
  {
    var n := ToNumber(c);
    if n.NonFinite? then Err(InvalidYears)
    else if n.value < 0.0 then Err(NegativeYears)
    else Ok(n.value)
  }

  /** An empty cell counts as zero years. */
  lemma YearsOfNull()
    ensures CoerceYears(Null) == Ok(0.0)
  {
  }

  /** Text is read as the number its trimmed, comma-fixed form spells. */
  lemma ToNumberOfText(s: string, u: string)
    requires ReplaceFirstComma(Trim(s)) == u
    ensures ToNumber(Str(s)) == ParseNumber(u)
  {
  }

  /** On text without a comma, `toNumber` agrees with `Number()` itself: the
      comma rewrite is the only thing it adds, since `Number()` trims too. */
  lemma ToNumberWithoutComma(s: string)
    requires forall i :: 0 <= i < |s| ==> s[i] != ','
    ensures ToNumber(Str(s)) == ParseNumber(s)
  {
    var t := Trim(s);
    forall i | 0 <= i < |t| ensures t[i] != ',' {
      TrimKeeps(s, i);
    }
    ReplaceNoComma(t);
    TrimIdempotent(s);
  }

  lemma YearsOfFinite(c: Cell, v: real)
    requires ToNumber(c).Finite? && ToNumber(c).value == v && v >= 0.0
    ensures CoerceYears(c).Ok? && CoerceYears(c).value == v
  {
  }

  /** A boolean cell is never a number of years. */
  lemma YearsOfBoolean(b: bool)
    ensures CoerceYears(Bool(b)) == Err(InvalidYears)
  {
    var t := if b then "true" else "false";
    TrimOfTrimmed(t);
    ReplaceNoComma(t);
    NoDigitNoValue(t);
  }

  /** The characters of a trimmed text come from the text itself. */
  lemma DigitlessTrim(s: string)
    requires forall i :: 0 <= i < |s| ==> !IsAsciiDigit(s[i]) && s[i] != ','
    ensures forall i :: 0 <= i < |Trim(s)| ==> !IsAsciiDigit(Trim(s)[i]) && Trim(s)[i] != ','
  {
    forall i | 0 <= i < |Trim(s)|
      ensures !IsAsciiDigit(Trim(s)[i]) && Trim(s)[i] != ','
    {
      TrimKeeps(s, i);
    }
  }

  /** Text without a single digit is never a number of years, except blank
      text, which is zero. */
  lemma YearsOfDigitlessText(s: string)
    requires forall i :: 0 <= i < |s| ==> !IsAsciiDigit(s[i]) && s[i] != ','
    ensures AllSpace(s) ==> CoerceYears(Str(s)) == Ok(0.0)
    ensures !AllSpace(s) ==> CoerceYears(Str(s)) == Err(InvalidYears)
  {
    var t := Trim(s);
    DigitlessTrim(s);
    ReplaceNoComma(t);
    ToNumberOfText(s, t);
    if !AllSpace(s) {
      TrimIdempotent(s);
      NoDigitNoValue(t);
    }
  }

  /** A run of decimal digits holds no comma, white space or exponent marker. */
  lemma DigitsArePlain(d: string)
    requires AllDigitsIn(d, 10)
    ensures forall i :: 0 <= i < |d| ==> d[i] != ',' && !IsSpace(d[i]) && d[i] != 'e' && d[i] != 'E'
  {
    forall i | 0 <= i < |d| ensures d[i] != ',' && !IsSpace(d[i]) && d[i] != 'e' && d[i] != 'E' {
      assert IsDigitIn(d[i], 10);
    }
  }

  lemma CommaNumeralTrimmed(whole: string, fraction: string)
    requires |whole| > 0 && AllDigitsIn(whole, 10) && AllDigitsIn(fraction, 10)
    ensures Trim(whole + "," + fraction) == whole + "," + fraction
  {
    var t := whole + "," + fraction;
    DigitsArePlain(whole);
    DigitsArePlain(fraction);
    assert t[0] == whole[0];
    assert |fraction| > 0 ==> t[|t| - 1] == fraction[|fraction| - 1];
    TrimOfTrimmed(t);
  }

  lemma CommaToPoint(whole: string, fraction: string)
    requires |whole| > 0 && AllDigitsIn(whole, 10) && AllDigitsIn(fraction, 10)
    ensures ReplaceFirstComma(Trim(whole + "," + fraction)) == whole + "." + fraction
  {
    CommaNumeralTrimmed(whole, fraction);
    CommaBecomesPoint(whole, fraction);
    TrimmedRewrite(whole + "," + fraction, whole + "." + fraction);
  }

  lemma CommaBecomesPoint(whole: string, fraction: string)
    requires AllDigitsIn(whole, 10)
    ensures ReplaceFirstComma(whole + "," + fraction) == whole + "." + fraction
  {
    NoCommaIn(whole);
    ReplaceCommaAfter(whole, fraction);
  }

  lemma TrimmedRewrite(t: string, u: string)
    requires Trim(t) == t && ReplaceFirstComma(t) == u
    ensures ReplaceFirstComma(Trim(t)) == u
  {
  }

  lemma NoCommaIn(d: string)
    requires AllDigitsIn(d, 10)
    ensures forall i :: 0 <= i < |d| ==> d[i] != ','
  {
    DigitsArePlain(d);
  }

  /** The text `whole,fraction` is read as the number `whole.fraction`. */
  lemma DecimalCommaNumber(whole: string, fraction: string)
    requires |whole| > 0 && AllDigitsIn(whole, 10) && AllDigitsIn(fraction, 10)
    ensures ToNumber(Str(whole + "," + fraction)) == ParseNumber(whole + "." + fraction)
  {
    CommaToPoint(whole, fraction);
    ToNumberOfText(whole + "," + fraction, whole + "." + fraction);
  }

  lemma DecimalCommaYears(t: string, whole: string, fraction: string)
    requires |whole| > 0 && AllDigitsIn(whole, 10) && AllDigitsIn(fraction, 10)
    requires t == whole + "," + fraction
    ensures CoerceYears(Str(t)).Ok?
    ensures CoerceYears(Str(t)).value == DigitsValue(whole, 10) as real + FractionValue(fraction)
  {
    DecimalCommaNumber(whole, fraction);
    ParsePointed(whole, fraction);
    FractionNonNegative(fraction);
  }

  /** A decimal comma reads like a decimal point: `whole,fraction` is the
      number `whole.fraction`. */
  lemma YearsDecimalComma(whole: string, fraction: string)
    requires |whole| > 0 && AllDigitsIn(whole, 10) && AllDigitsIn(fraction, 10)
    ensures CoerceYears(Str(whole + "," + fraction)).Ok?
    ensures CoerceYears(Str(whole + "," + fraction)).value
      == DigitsValue(whole, 10) as real + FractionValue(fraction)
  {
    DecimalCommaYears(whole + "," + fraction, whole, fraction);
  }

  /** A whole decimal numeral is its value in years. */
  lemma YearsWholeNumber(n: nat)
    ensures CoerceYears(Str(DecimalText(n))).Ok?
    ensures CoerceYears(Str(DecimalText(n))).value == n as real
  {
    var t := DecimalText(n);
    DecimalTextValue(n);
    DigitsArePlain(t);
    TrimOfTrimmed(t);
    ReplaceNoComma(t);
    ToNumberOfText(t, t);
    ParseNatural(n);
    YearsOfFinite(Str(t), n as real);
  }

  lemma MinusNumeralIsLiteral(d: string)
    requires |d| > 0 && AllDigitsIn(d, 10)
    ensures ParseNumber("-" + d) == Literal("-" + d)
  {
    var t := "-" + d;
    assert t[|t| - 1] == d[|d| - 1];
    assert IsDigitIn(d[|d| - 1], 10);
    TrimOfTrimmed(t);
  }

  lemma NumeralIsUnsigned(d: string)
    requires |d| > 0 && AllDigitsIn(d, 10)
    ensures ParseNumber(d) == UnsignedDecimal(d)
  {
    assert IsDigitIn(d[0], 10) && IsDigitIn(d[|d| - 1], 10);
    assert |d| >= 2 ==> IsDigitIn(d[1], 10);
    TrimOfTrimmed(d);
    LiteralOfDigits(d);
  }

  lemma NegativeNumeralParses(d: string)
    requires |d| > 0 && AllDigitsIn(d, 10) && DigitsValue(d, 10) > 0
    ensures ParseNumber("-" + d).Finite? && ParseNumber("-" + d).value < 0.0
  {
    MinusNumeralIsLiteral(d);
    MinusLiteral(d);
    NumeralIsUnsigned(d);
    ParseWhole(d);
  }

  /** A minus sign in front of a positive numeral is the distinct
      negative-years rejection, not the not-a-number one. */
  lemma YearsNegativeNumeral(n: nat)
    requires n > 0
    ensures CoerceYears(Str("-" + DecimalText(n))) == Err(NegativeYears)
  {
    var t := "-" + DecimalText(n);
    DecimalTextValue(n);
    DigitsArePlain(DecimalText(n));
    assert t[|t| - 1] == DecimalText(n)[|DecimalText(n)| - 1];
    TrimOfTrimmed(t);
    assert forall i :: 0 <= i < |t| ==> t[i] != ',';
    ReplaceNoComma(t);
    ToNumberOfText(t, t);
    NegativeNumeralParses(DecimalText(n));
  }

  /** The words `coerceBoolean` reads as true. */
  const TrueWords: set<string> := {"true", "yes", "1", "si", "s\U{ED}", "y", "on"}

  /** The words `coerceBoolean` reads as false; the empty text is false too. */
  const FalseWords: set<string> := {"false", "no", "0", "n", "off"}

  /** The two vocabularies do not overlap and neither holds the empty text. */
  lemma VocabulariesDisjoint()
    ensures TrueWords * FalseWords == {}
    ensures "" !in TrueWords && "" !in FalseWords
  {
  }

  /** The vocabulary lookup of `coerceBoolean`; `None` for a word in neither list. */
  function ReadWord(w: string): (r: Option<bool>)
    ensures r == Some(true) <==> w in TrueWords
    ensures r == Some(false) <==> w in FalseWords || w == ""
  {
    if w in TrueWords then Some(true)
    else if w in FalseWords then Some(false)
    else if w == "" then Some(false)
    else None
  }

  /** `coerceBoolean`: booleans as they are, numbers by `!== 0`, text by the
      two vocabularies after trimming and lower-casing, with the empty text
      as false. Any other text is rejected, quoting the raw value. */
  function CoerceAvailability(c: Cell): (r: Result<bool, Error>)
    ensures c.Bool? ==> r == Ok(c.b)
    ensures c.Num? ==> r == Ok(c.n != Finite(0.0))
    ensures c.Null? ==> r == Ok(false)
    ensures c.Str? ==> (r == Ok(true) <==> Lower(Trim(c.s)) in TrueWords)
    ensures c.Str? ==> (r == Ok(false) <==> Lower(Trim(c.s)) in FalseWords || Lower(Trim(c.s)) == "")
    ensures r.Err? ==> c.Str? && r.error == InvalidAvailability(c.s)
  {
    if c.Bool? then Ok(c.b)
    else if c.Num? then Ok(c.n != Finite(0.0))
    else
      match ReadWord(Lower(Trim(StringifyOrEmpty(c))))
      case Some(b) => Ok(b)
      case None => Err(InvalidAvailability(StringifyOrEmpty(c)))
  }

  /** Availability text is judged by its trimmed, lower-cased word alone. */
  lemma AvailabilityByWord(x: string, y: string)
    requires Lower(Trim(x)) == Lower(Trim(y))
    ensures CoerceAvailability(Str(x)).Ok? <==> CoerceAvailability(Str(y)).Ok?
    ensures CoerceAvailability(Str(x)).Ok? ==>
      CoerceAvailability(Str(x)).value == CoerceAvailability(Str(y)).value
  {
    assert StringifyOrEmpty(Str(x)) == x;
    assert StringifyOrEmpty(Str(y)) == y;
  }

  /** Padding never changes how text availability reads. */
  lemma AvailabilityIgnoresPadding(w1: string, s: string, w2: string)
    requires AllSpace(w1) && AllSpace(w2)
    ensures CoerceAvailability(Str(w1 + s + w2)).Ok? <==> CoerceAvailability(Str(s)).Ok?
    ensures CoerceAvailability(Str(w1 + s + w2)).Ok? ==>
      CoerceAvailability(Str(w1 + s + w2)).value == CoerceAvailability(Str(s)).value
  {
    TrimPadded(w1, s, w2);
    AvailabilityByWord(w1 + s + w2, s);
  }

  /** Letter case never changes how text availability reads. */
  lemma AvailabilityIgnoresCase(s: string)
    ensures CoerceAvailability(Str(Lower(s))).Ok? <==> CoerceAvailability(Str(s)).Ok?
    ensures CoerceAvailability(Str(Lower(s))).Ok? ==>
      CoerceAvailability(Str(Lower(s))).value == CoerceAvailability(Str(s)).value
  {
    LowerTrimCommute(s);
    LowerIdempotent(Trim(s));
    AvailabilityByWord(Lower(s), s);
  }

  /** Availability text is decided by its trimmed, lower-cased word. */
  lemma AvailabilityOfTrueWord(s: string)
    requires Lower(Trim(s)) in TrueWords
    ensures CoerceAvailability(Str(s)) == Ok(true)
  {
  }

  lemma AvailabilityOfFalseWord(s: string)
    requires Lower(Trim(s)) in FalseWords || Lower(Trim(s)) == ""
    ensures CoerceAvailability(Str(s)) == Ok(false)
  {
  }

  lemma AvailabilityOfUnknownWord(s: string)
    requires Lower(Trim(s)) !in TrueWords && Lower(Trim(s)) !in FalseWords && Lower(Trim(s)) != ""
    ensures CoerceAvailability(Str(s)) == Err(InvalidAvailability(s))
  {
    var r := CoerceAvailability(Str(s));
    assert r != Ok(true) && r != Ok(false);
  }
}
