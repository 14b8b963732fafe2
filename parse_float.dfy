/**
 * The numeric conversion behind every gauge value: `strconv.ParseFloat(text, 64)`
 * with its error discarded. Go answers a syntax error with the value 0, so the
 * conversion is total: text that is not a float literal reads as 0.
 *
 * Accepted here: the special spellings `inf`, `infinity` (either with an optional
 * sign) and `nan`, letters in any case, and decimal literals
 * `[+|-] [digits] [. [digits]] [(e|E) [+|-] digits]` with at least one mantissa
 * digit, in which, as in Go's literal syntax, a `_` may stand between two
 * digits. A decimal literal keeps its exact value.
 */
module ParseFloat {
  import opened Wrappers

  /** A float64 value: finite, an infinity, or NaN. */
  datatype Num = Finite(value: real) | Infinity(negative: bool) | NaN

  const Zero: Num := Finite(0.0)

  // ---------------------------------------------------------------- decimal literals

  datatype Sign = Unsigned | Plus | Minus

  datatype Exponent = NoExponent | Exponent(marker: char, sign: Sign, digits: string)

  /** A decimal literal, split into the parts its text is made of. */
  datatype Decimal = Decimal(sign: Sign, intDigits: string, point: bool, fracDigits: string, exponent: Exponent)

  predicate IsDigit(c: char) { '0' <= c <= '9' }

  predicate AllDigits(s: string) { forall i :: 0 <= i < |s| ==> IsDigit(s[i]) }

  predicate ExponentOk(e: Exponent) {
    e.Exponent? ==> (e.marker == 'e' || e.marker == 'E') && |e.digits| > 0 && AllDigits(e.digits)
  }

  /** The shape Go's reader accepts in base 10: some mantissa digit, a fraction only after a point. */
  predicate WellFormed(d: Decimal) {
    && AllDigits(d.intDigits)
    && AllDigits(d.fracDigits)
    && |d.intDigits| + |d.fracDigits| > 0
    && (!d.point ==> d.fracDigits == "")
    && ExponentOk(d.exponent)
  }

  function SignText(s: Sign): string {
    match s
    case Unsigned => ""
    case Plus => "+"
    case Minus => "-"
  }

  function ExponentText(e: Exponent): string {
    match e
    case NoExponent => ""
    case Exponent(marker, sign, digits) => [marker] + SignText(sign) + digits
  }

  /** The text of a decimal literal, character for character. */
  function Text(d: Decimal): string {
    SignText(d.sign) + d.intDigits + (if d.point then "." + d.fracDigits else "") + ExponentText(d.exponent)
  }

  // ---------------------------------------------------------------- reading a decimal literal

  function ReadSign(s: string): (r: (Sign, string))
    ensures SignText(r.0) + r.1 == s
  {
    if |s| > 0 && s[0] == '+' then (Plus, s[1..])
    else if |s| > 0 && s[0] == '-' then (Minus, s[1..])
    else (Unsigned, s)
  }

  /** The longest run of digits at the front of `s`. */
  function LeadingDigits(s: string): (ds: string)
    ensures |ds| <= |s| && ds == s[..|ds|] && s == ds + s[|ds|..]
    ensures AllDigits(ds)
    ensures |ds| < |s| ==> !IsDigit(s[|ds|])
  {
    if |s| > 0 && IsDigit(s[0]) then [s[0]] + LeadingDigits(s[1..]) else ""
  }

  function ReadExponent(s: string): (r: Option<Exponent>)
    ensures r.Some? ==> ExponentOk(r.value) && ExponentText(r.value) == s
  {
    if s == "" then Some(NoExponent)
    else if s[0] == 'e' || s[0] == 'E' then
      var signed := ReadSign(s[1..]);
      if |signed.1| > 0 && AllDigits(signed.1) then
        ExponentTextOf(s, signed.0, signed.1);
        Some(Exponent(s[0], signed.0, signed.1))
      else None
    else None
  }

  lemma ExponentTextOf(s: string, sign: Sign, digits: string)
    requires |s| > 0 && SignText(sign) + digits == s[1..]
    ensures ExponentText(Exponent(s[0], sign, digits)) == s
  {
    assert s == [s[0]] + s[1..];
  }

  /** The optional fraction after the integer digits: a point, then the longest run of digits. */
  function ReadFraction(s: string): (r: (bool, string, string))
    ensures AllDigits(r.1) && (!r.0 ==> r.1 == "")
    ensures (if r.0 then "." + r.1 else "") + r.2 == s
  {
    if |s| > 0 && s[0] == '.' then
      var frac := LeadingDigits(s[1..]);
      assert s[1..] == frac + s[1..][|frac|..];
      (true, frac, s[1..][|frac|..])
    else (false, "", s)
  }

  /** Go's base-10 reader: it accepts `s` only when the whole of `s` is one literal. */
  function ReadDecimal(s: string): (r: Option<Decimal>)
    ensures r.Some? ==> WellFormed(r.value) && Text(r.value) == s
  {
    var signed := ReadSign(s);
    var intDigits := LeadingDigits(signed.1);
    var afterInt := signed.1[|intDigits|..];
    var fraction := ReadFraction(afterInt);
    if |intDigits| + |fraction.1| == 0 then None
    else
      match ReadExponent(fraction.2)
      case Some(e) =>
        var d := Decimal(signed.0, intDigits, fraction.0, fraction.1, e);
        TextOfParts(d, s, signed.1, afterInt);
        Some(d)
      case None => None
  }

  lemma TextOfParts(d: Decimal, s: string, afterSign: string, afterInt: string)
    requires s == SignText(d.sign) + afterSign
    requires afterSign == d.intDigits + afterInt
    requires afterInt == (if d.point then "." + d.fracDigits else "") + ExponentText(d.exponent)
    ensures Text(d) == s
  {
  }

  lemma {:induction false} LeadingDigitsOf(ds: string, rest: string)
    requires AllDigits(ds)
    requires rest == "" || !IsDigit(rest[0])
    ensures LeadingDigits(ds + rest) == ds
    decreases |ds|
  {
    if ds != "" {
      assert (ds + rest)[1..] == ds[1..] + rest;
      LeadingDigitsOf(ds[1..], rest);
    }
  }

  lemma ReadSignOf(sign: Sign, rest: string)
    requires rest == "" || (rest[0] != '+' && rest[0] != '-')
    ensures ReadSign(SignText(sign) + rest) == (sign, rest)
  {
    assert (SignText(sign) + rest)[|SignText(sign)|..] == rest;
  }

  lemma ReadFractionOf(point: bool, frac: string, rest: string)
    requires AllDigits(frac) && (!point ==> frac == "")
    requires rest == "" || rest[0] == 'e' || rest[0] == 'E'
    ensures ReadFraction((if point then "." + frac else "") + rest) == (point, frac, rest)
  {
    LeadingDigitsOf(frac, rest);
    if point {
      var s := "." + frac + rest;
      assert s[1..] == frac + rest;
      assert (frac + rest)[|frac|..] == rest;
    }
  }

  lemma ReadExponentOf(e: Exponent)
    requires ExponentOk(e)
    ensures ReadExponent(ExponentText(e)) == Some(e)
  {
    match e
    case NoExponent =>
    case Exponent(marker, sign, digits) =>
      assert ExponentText(e)[1..] == SignText(sign) + digits;
      ReadSignOf(sign, digits);
  }

  /** Reading the text of a well-formed literal gives that literal back. */
  lemma ReadDecimalOfText(d: Decimal)
    requires WellFormed(d)
    ensures ReadDecimal(Text(d)) == Some(d)
  {
    var expText := ExponentText(d.exponent);
    var afterInt := (if d.point then "." + d.fracDigits else "") + expText;
    var afterSign := d.intDigits + afterInt;
    assert Text(d) == SignText(d.sign) + afterSign;
    assert afterInt == "" || afterInt[0] == '.' || afterInt[0] == 'e' || afterInt[0] == 'E';
    ReadSignOf(d.sign, afterSign);
    LeadingDigitsOf(d.intDigits, afterInt);
    assert afterSign[|d.intDigits|..] == afterInt;
    ReadFractionOf(d.point, d.fracDigits, expText);
    ReadExponentOf(d.exponent);
    ReadDecimalOfParts(Text(d), d, afterSign, afterInt);
  }

  /** `ReadDecimal` put together from what each of its steps reads. */
  lemma ReadDecimalOfParts(s: string, d: Decimal, afterSign: string, afterInt: string)
    requires ReadSign(s) == (d.sign, afterSign)
    requires LeadingDigits(afterSign) == d.intDigits && afterSign[|d.intDigits|..] == afterInt
    requires ReadFraction(afterInt) == (d.point, d.fracDigits, ExponentText(d.exponent))
    requires |d.intDigits| + |d.fracDigits| > 0
    requires ReadExponent(ExponentText(d.exponent)) == Some(d.exponent)
    ensures ReadDecimal(s) == Some(d)
  {
  }

  // ---------------------------------------------------------------- the value of a literal

  /** The natural number a run of decimal digits spells. */
  function DigitsValue(ds: string): nat
    requires AllDigits(ds)
    decreases |ds|
  {
    if ds == "" then 0 else DigitsValue(ds[..|ds| - 1]) * 10 + (ds[|ds| - 1] as int - '0' as int)
  }

  function Pow10(k: int): real
    decreases if k < 0 then -k else k
  {
    if k == 0 then 1.0 else if k > 0 then 10.0 * Pow10(k - 1) else Pow10(k + 1) / 10.0
  }

  function ExponentValue(e: Exponent): int
    requires ExponentOk(e)
  {
    match e
    case NoExponent => 0
    case Exponent(_, sign, digits) =>
      var magnitude: int := DigitsValue(digits);
      if sign == Minus then -magnitude else magnitude
  }

  /** The exact value of a literal: its digits as one integer, scaled by its exponent less the fraction length. */
  function DecimalValue(d: Decimal): real
    requires WellFormed(d)
  {
    assert AllDigits(d.intDigits + d.fracDigits);
    var mantissa := DigitsValue(d.intDigits + d.fracDigits) as real;
    (if d.sign == Minus then -mantissa else mantissa) * Pow10(ExponentValue(d.exponent) - |d.fracDigits|)
  }

  // ---------------------------------------------------------------- special spellings

  function Lower(c: char): char {
    if 'A' <= c <= 'Z' then (c as int + 32) as char else c
  }

  /** `s` spells `word` (given in lower case) in any mix of cases. */
  predicate EqualsIgnoreCase(s: string, word: string) {
    |s| == |word| && forall i :: 0 <= i < |s| ==> Lower(s[i]) == word[i]
  }

  predicate IsInfinityWord(s: string) {
    EqualsIgnoreCase(s, "inf") || EqualsIgnoreCase(s, "infinity")
  }

  /** Go's `special`: `[+|-](inf|infinity)` and unsigned `nan`, in any case, and nothing after them. */
  function ReadSpecial(s: string): Option<Num> {
    if |s| > 0 && (s[0] == '+' || s[0] == '-') then
      if IsInfinityWord(s[1..]) then Some(Infinity(s[0] == '-')) else None
    else if IsInfinityWord(s) then Some(Infinity(false))
    else if EqualsIgnoreCase(s, "nan") then Some(NaN)
    else None
  }

  lemma NoDigitInWord(s: string, word: string, p: int)
    requires EqualsIgnoreCase(s, word)
    requires forall i :: 0 <= i < |word| ==> 'a' <= word[i] <= 'z'
    requires 0 <= p < |s|
    ensures !IsDigit(s[p])
  {
    assert Lower(s[p]) == word[p];
  }

  lemma SpecialHasNoDigit(s: string, p: int)
    requires ReadSpecial(s).Some?
    requires 0 <= p < |s|
    ensures !IsDigit(s[p])
  {
    var inf, infinity, nan := "inf", "infinity", "nan";
    assert forall i :: 0 <= i < |inf| ==> 'a' <= inf[i] <= 'z';
    assert forall i :: 0 <= i < |infinity| ==> 'a' <= infinity[i] <= 'z';
    assert forall i :: 0 <= i < |nan| ==> 'a' <= nan[i] <= 'z';
    if |s| > 0 && (s[0] == '+' || s[0] == '-') {
      if p > 0 {
        assert s[p] == s[1..][p - 1];
        if EqualsIgnoreCase(s[1..], inf) {
          NoDigitInWord(s[1..], inf, p - 1);
        } else {
          NoDigitInWord(s[1..], infinity, p - 1);
        }
      }
    } else if EqualsIgnoreCase(s, inf) {
      NoDigitInWord(s, inf, p);
    } else if EqualsIgnoreCase(s, infinity) {
      NoDigitInWord(s, infinity, p);
    } else {
      NoDigitInWord(s, nan, p);
    }
  }

  lemma TextIsNotSpecial(d: Decimal)
    requires WellFormed(d)
    ensures ReadSpecial(Text(d)) == None
  {
    var s := Text(d);
    var n := |SignText(d.sign)|;
    var p := if |d.intDigits| > 0 then n else n + 1;
    assert IsDigit(s[p]) by {
      if |d.intDigits| > 0 {
        assert s[n] == d.intDigits[0];
      } else {
        assert s[n + 1] == d.fracDigits[0];
      }
    }
    if ReadSpecial(s).Some? {
      SpecialHasNoDigit(s, p);
    }
  }

  // ---------------------------------------------------------------- digit separators

  predicate NoSeparator(s: string) { forall i :: 0 <= i < |s| ==> s[i] != '_' }

  /** Go's rule for `_` in a literal: each one stands between two digits. */
  predicate SeparatorsOk(s: string) {
    forall i :: 0 <= i < |s| && s[i] == '_' ==> 0 < i < |s| - 1 && IsDigit(s[i - 1]) && IsDigit(s[i + 1])
  }

  /** `s` with every `_` dropped, the rest in order. */
  function WithoutSeparators(s: string): (r: string)
    ensures NoSeparator(r) && |r| <= |s|
    ensures NoSeparator(s) ==> r == s
  {
    if s == "" then ""
    else if s[0] == '_' then WithoutSeparators(s[1..])
    else
      var r := [s[0]] + WithoutSeparators(s[1..]);
      assert NoSeparator(s) ==> s == [s[0]] + s[1..];
      r
  }

  lemma {:induction false} WithoutSeparatorsAppend(a: string, b: string)
    ensures WithoutSeparators(a + b) == WithoutSeparators(a) + WithoutSeparators(b)
    decreases |a|
  {
    if a == "" {
      assert a + b == b;
    } else {
      assert (a + b)[0] == a[0] && (a + b)[1..] == a[1..] + b;
      WithoutSeparatorsAppend(a[1..], b);
    }
  }

  /** Dropping separators keeps every other character. */
  lemma {:induction false} WithoutSeparatorsKeeps(s: string, p: int)
    requires 0 <= p < |s| && s[p] != '_'
    ensures s[p] in WithoutSeparators(s)
    decreases |s|
  {
    if p > 0 {
      WithoutSeparatorsKeeps(s[1..], p - 1);
    }
  }

  lemma NoSeparatorAppend(a: string, b: string)
    requires NoSeparator(a) && NoSeparator(b)
    ensures NoSeparator(a + b)
  {
  }

  /** The text of a literal is written without separators. */
  lemma TextHasNoSeparator(d: Decimal)
    requires WellFormed(d)
    ensures NoSeparator(Text(d))
  {
    var fraction := if d.point then "." + d.fracDigits else "";
    var e := ExponentText(d.exponent);
    assert NoSeparator(e) by {
      if d.exponent.Exponent? {
        NoSeparatorAppend([d.exponent.marker] + SignText(d.exponent.sign), d.exponent.digits);
      }
    }
    NoSeparatorAppend(SignText(d.sign), d.intDigits);
    NoSeparatorAppend(SignText(d.sign) + d.intDigits, fraction);
    NoSeparatorAppend(SignText(d.sign) + d.intDigits + fraction, e);
  }

  // ---------------------------------------------------------------- the conversion

  /**
   * `strconv.ParseFloat(s, 64)` with the error ignored: a special spelling, or
   * else, when its separators are placed as Go requires, the decimal literal
   * the text spells once they are dropped.
   */
  function ParseNum(s: string): Num {
    match ReadSpecial(s)
    case Some(v) => v
    case None =>
      if SeparatorsOk(s) then DecimalNum(WithoutSeparators(s)) else Zero
  }

  /** Go's base-10 reader on text without separators: the literal's value, or 0 for a syntax error. */
  function DecimalNum(s: string): Num {
    match ReadDecimal(s)
    case Some(d) => Finite(DecimalValue(d))
    case None => Zero
  }

  /**
   * The base-10 texts Go accepts as a float: a special spelling, or a text
   * with its separators between digits that spells a well-formed decimal
   * literal once they are dropped.
   */
  ghost predicate IsFloatText(s: string) {
    ReadSpecial(s).Some? || (SeparatorsOk(s) && exists d :: WellFormed(d) && Text(d) == WithoutSeparators(s))
  }

  /** Syntactically invalid text converts to 0. */
  lemma InvalidTextIsZero(s: string)
    requires !IsFloatText(s)
    ensures ParseNum(s) == Zero
  {
  }

  /** The text of a literal converts to that literal's exact value. */
  lemma ParseNumOfText(d: Decimal)
    requires WellFormed(d)
    ensures ParseNum(Text(d)) == Finite(DecimalValue(d))
  {
    TextIsNotSpecial(d);
    TextHasNoSeparator(d);
    ReadDecimalOfText(d);
  }

  /** Separators placed as Go requires do not change the value: the text reads as the one without them. */
  lemma SeparatorsDropped(s: string)
    requires SeparatorsOk(s)
    ensures ParseNum(s) == ParseNum(WithoutSeparators(s))
  {
    var r := WithoutSeparators(s);
    if !NoSeparator(s) {
      var p :| 0 <= p < |s| && s[p] == '_';
      DigitKeepsNotSpecial(s, p - 1);
      ParseNumOfOrdinary(s);
      ParseNumOfOrdinary(r);
    }
  }

  /** A text with a digit in it is no special spelling, with or without its separators. */
  lemma DigitKeepsNotSpecial(s: string, q: int)
    requires 0 <= q < |s| && IsDigit(s[q])
    ensures ReadSpecial(s) == None && ReadSpecial(WithoutSeparators(s)) == None
  {
    var r := WithoutSeparators(s);
    if ReadSpecial(s).Some? {
      SpecialHasNoDigit(s, q);
    }
    WithoutSeparatorsKeeps(s, q);
    var j :| 0 <= j < |r| && r[j] == s[q];
    if ReadSpecial(r).Some? {
      SpecialHasNoDigit(r, j);
    }
  }

  lemma ParseNumOfOrdinary(s: string)
    requires ReadSpecial(s) == None && SeparatorsOk(s)
    ensures ParseNum(s) == DecimalNum(WithoutSeparators(s))
  {
  }

  /** Two runs of digits joined by `_` read as the digits joined without it. */
  lemma SeparatedDigits(a: string, b: string)
    requires |a| > 0 && |b| > 0 && AllDigits(a) && AllDigits(b)
    ensures ParseNum(a + "_" + b) == Finite(DigitsValue(a + b) as real)
  {
    JoinedDigits(a, b);
    SeparatorsDropped(a + "_" + b);
    ParseNumOfDigits(a + b);
  }

  lemma JoinedDigits(a: string, b: string)
    requires |a| > 0 && |b| > 0 && AllDigits(a) && AllDigits(b)
    ensures SeparatorsOk(a + "_" + b) && WithoutSeparators(a + "_" + b) == a + b
    ensures |a + b| > 0 && AllDigits(a + b)
  {
    JoinedSeparatorsOk(a, b);
    JoinedWithoutSeparators(a, b);
  }

  lemma JoinedSeparatorsOk(a: string, b: string)
    requires |a| > 0 && |b| > 0 && AllDigits(a) && AllDigits(b)
    ensures SeparatorsOk(a + "_" + b)
  {
    var s := a + "_" + b;
    forall i | 0 <= i < |s| && s[i] == '_'
      ensures 0 < i < |s| - 1 && IsDigit(s[i - 1]) && IsDigit(s[i + 1])
    {
      assert i == |a|;
      assert s[i - 1] == a[|a| - 1] && s[i + 1] == b[0];
    }
  }

  lemma JoinedWithoutSeparators(a: string, b: string)
    requires AllDigits(a) && AllDigits(b)
    ensures WithoutSeparators(a + "_" + b) == a + b
  {
    assert NoSeparator(a) && NoSeparator(b);
    WithoutSeparatorsAppend(a + "_", b);
    WithoutSeparatorsAppend(a, "_");
    assert WithoutSeparators("_") == WithoutSeparators("");
  }

  /** A run of digits converts to the natural number it spells. */
  lemma ParseNumOfDigits(ds: string)
    requires |ds| > 0 && AllDigits(ds)
    ensures ParseNum(ds) == Finite(DigitsValue(ds) as real)
  {
    var d := WholeNumber(ds);
    ParseNumOfText(d);
  }

  /** A run of digits read as a decimal literal: no sign, no point, no exponent. */
  function WholeNumber(ds: string): (d: Decimal)
    requires |ds| > 0 && AllDigits(ds)
    ensures WellFormed(d) && Text(d) == ds && DecimalValue(d) == DigitsValue(ds) as real
  {
    var d := Decimal(Unsigned, ds, false, "", NoExponent);
    assert d.intDigits + d.fracDigits == ds;
    assert Text(d) == "" + ds + "" + "";
    d
  }

  // ---------------------------------------------------------------- numerals

  function DigitChar(k: nat): (c: char)
    requires k < 10
    ensures IsDigit(c) && c as int - '0' as int == k
  {
    ('0' as int + k) as char
  }

  /** The decimal numeral of a natural number, most significant digit first, without leading zeros. */
  function NumeralText(n: nat): (s: string)
    ensures |s| > 0 && AllDigits(s) && DigitsValue(s) == n
    decreases n
  {
    if n < 10 then
      var s := [DigitChar(n)];
      assert s[..0] == "";
      s
    else
      var s := NumeralText(n / 10) + [DigitChar(n % 10)];
      assert s[..|s| - 1] == NumeralText(n / 10);
      s
  }

  /** Writing a natural number as a numeral and reading it back gives the number. */
  lemma ParseNumOfNumeral(n: nat)
    ensures ParseNum(NumeralText(n)) == Finite(n as real)
  {
    ParseNumOfDigits(NumeralText(n));
  }

  /** n tenths written with one fraction digit: the numeral of `n / 10`, a point, the digit `n % 10`. */
  function TenthsText(n: nat): string {
    NumeralText(n / 10) + "." + [DigitChar(n % 10)]
  }

  /** Writing n tenths with one fraction digit and reading the text back gives n / 10. */
  lemma ParseNumOfTenths(n: nat)
    ensures ParseNum(TenthsText(n)) == Finite(n as real / 10.0)
  {
    var whole, frac := NumeralText(n / 10), [DigitChar(n % 10)];
    var d := Decimal(Unsigned, whole, true, frac, NoExponent);
    assert Text(d) == whole + "." + frac;
    TenthsValue(whole, frac, n);
    ParseNumOfText(d);
  }

  lemma TenthsValue(whole: string, frac: string, n: nat)
    requires whole == NumeralText(n / 10) && frac == [DigitChar(n % 10)]
    ensures DecimalValue(Decimal(Unsigned, whole, true, frac, NoExponent)) == n as real / 10.0
  {
    var mantissa := whole + frac;
    assert mantissa[..|mantissa| - 1] == whole;
    assert DigitsValue(mantissa) == n;
    assert Pow10(-1) == 0.1;
  }
}
