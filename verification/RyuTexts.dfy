/**
 What the texts of the Ryu printers have to be: short enough for the room the formatter plans, or, all the way,
 the correctly rounded text of the value, and what the formatter then prints for a `double` (cbase/fmt.c).
 */
module RyuTexts {
  import opened Powers
  import opened Results
  import opened Decimal
  import opened BigUInt
  import opened Rounding
  import opened BinaryFloat
  import opened Magnitude
  import opened FixedStyle
  import opened SignificantDigits
  import opened ExpText
  import opened ExpRoom
  import opened GeneralStyle
  import opened LongDoublePrint
  import opened FloatBits
  import opened TextLengths
  import opened DoublePrint

  const FLOAT_MAX_FIXED_PREFIX: nat := 312
  const DOUBLE_MAX_DECIMAL_PRECISION: nat := 1074
  const DOUBLE_PRINTF_BUFFER_SIZE: nat := FLOAT_MAX_FIXED_PREFIX + DOUBLE_MAX_DECIMAL_PRECISION + 8

  /** Digits of |value| before the point. */
  ghost function WholeDigits(parts: FormatBinaryFloat): nat {
    Max(Decade(parts) + 1, 1)
  }

  /**
   A fixed text has a sign, the digits before the point, perhaps one more by rounding, the point and the places;
   an exponent text a sign, a digit, the point, the places and an exponent of three digits, not below the decade.
   */
  ghost predicate TextsBounded(ryu: Ryu, raw: nat, precision: nat)
    requires Decode(Binary64, raw).Number?
  {
    var parts := Decode(Binary64, raw).parts;
    && 0 < |ryu.fixed(raw, precision)| <= WholeDigits(parts) + precision + 3
    && 0 < |ryu.exp(raw, precision)| <= precision + 8
    && forall x :: ExponentIs(ryu.exp(raw, precision), x) ==> WholeDigits(parts) <= Max(x + 1, 1)
  }

  ghost predicate RyuBounded(ryu: Ryu) {
    forall raw: nat, precision: nat :: Decode(Binary64, raw).Number? ==> TextsBounded(ryu, raw, precision)
  }

  // ---- lengths --------------------------------------------------------------------------------

  lemma PlainBodyLength(text: string, capacity: nat, alternate: bool, upper: bool)
    ensures var body := PlainBody(text, capacity, alternate, upper); body.Ok? ==> |body.value| <= |text| + if alternate then 1 else 0
    ensures 0 < |text| && |text| + 1 < capacity ==> PlainBody(text, capacity, alternate, upper).Ok?
  {
    PointedLength(Unsigned(text));
  }

  lemma PointedLength(t: string)
    ensures |Pointed(t)| <= |t| + 1
  {
    SplitExists(t);
    var point: int, letter: nat :| SplitsAt(t, point, letter);
    PointedIs(t, point, letter);
  }

  lemma StrippedLength(t: string)
    ensures |Stripped(t)| <= |t|
  {
    SplitExists(t);
    var point: int, letter: nat :| SplitsAt(t, point, letter);
    StrippedIs(t, point, letter);
  }

  lemma WholeDigitsBound(raw: nat)
    requires Decode(Binary64, raw).Number?
    ensures WholeDigits(Decode(Binary64, raw).parts) <= 309
  {
    DecodedIsFinite(Binary64, raw);
    var parts := Decode(Binary64, raw).parts;
    if !parts.zero { DecadeRange(Binary64, parts, Decade(parts)); }
  }

  /** The exponent of a text is not changed by what is done to it. */
  lemma PlainBodyExponent(text: string, capacity: nat, alternate: bool, upper: bool, x: int)
    requires PlainBody(text, capacity, alternate, upper).Ok?
    requires ExponentIs(PlainBody(text, capacity, alternate, upper).value, x)
    ensures ExponentIs(text, x)
  {
    hide ExponentIs;
    hide Pointed;
    hide Uppercased;
    var u := Unsigned(text);
    var t := if alternate then Pointed(u) else u;
    if upper { UppercasedExponent(t, x); }
    if alternate { PointedExponent(u, x); }
    UnsignedExponent(text, x);
  }

  lemma UnsignedExponent(t: string, x: int)
    requires ExponentIs(Unsigned(t), x)
    ensures ExponentIs(t, x)
  {
    hide SignedNumber;
    if t != "" && t[0] == '-' {
      var i: nat :| HasExponent(t[1..], i) && SignedNumber(t[1..][i + 1..], x);
      assert t[..i + 1] == [t[0]] + t[1..][..i];
      assert t[1..][i + 1..] == t[i + 2..];
      assert HasExponent(t, i + 1);
    }
  }

  lemma PointedExponent(t: string, x: int)
    requires ExponentIs(Pointed(t), x)
    ensures ExponentIs(t, x)
  {
    hide SignedNumber;
    hide Pointed;
    SplitExists(t);
    var point: int, letter: nat :| SplitsAt(t, point, letter);
    PointedIs(t, point, letter);
    if point < 0 {
      var p := Pointed(t);
      var i: nat :| HasExponent(p, i) && SignedNumber(p[i + 1..], x);
      if letter < |t| {
        PointMovesLetter(t, letter);
        SameLetter(p, i, letter + 1);
        assert p[letter + 2..] == t[letter + 1..];
        assert HasExponent(t, letter);
      } else {
        NoLetterAnywhere(t, i);
      }
    }
  }

  lemma SameLetter(t: string, i: nat, j: nat)
    requires HasExponent(t, i) && HasExponent(t, j)
    ensures i == j
  {
    LetterUnique(t, i);
  }

  lemma PointMovesLetter(t: string, letter: nat)
    requires HasExponent(t, letter)
    ensures HasExponent(t[..letter] + "." + t[letter..], letter + 1)
  {
    var p := t[..letter] + "." + t[letter..];
    assert p[..letter + 1] == t[..letter] + ".";
  }

  lemma NoLetterAnywhere(t: string, i: nat)
    requires NoLetter(t[..|t|])
    ensures !HasExponent(t[..|t|] + "." + t[|t|..], i)
  {
    var p := t[..|t|] + "." + t[|t|..];
    assert p == t + ".";
    assert forall k :: 0 <= k < |t| ==> t[k] == t[..|t|][k];
  }

  lemma UppercasedExponent(t: string, x: int)
    requires ExponentIs(Uppercased(t), x)
    ensures ExponentIs(t, x)
  {
    hide SignedNumber;
    var u := Uppercased(t);
    var i: nat :| HasExponent(u, i) && SignedNumber(u[i + 1..], x);
    forall k | 0 <= k < i ensures !IsExponentLetter(t[k]) { assert u[..i][k] == u[k]; }
    assert HasExponent(t, i);
    SignedHasNoLetter(u[i + 1..], x);
    forall k | i < k < |t| ensures u[k] == t[k] { assert u[i + 1..][k - i - 1] == u[k]; }
    assert u[i + 1..] == t[i + 1..];
  }

  lemma SignedHasNoLetter(s: string, x: int)
    requires SignedNumber(s, x)
    ensures NoLetter(s)
  {
    forall k | 0 <= k < |s| ensures !IsExponentLetter(s[k]) {
      if k > 0 && (s[0] == '-' || s[0] == '+') { assert IsDigit(s[1..][k - 1]); }
    }
  }

  /** No text that is printed for a `double` is longer than this, and it always fits the buffer. */
  lemma DoubleBodyLength(ryu: Ryu, raw: nat, style: DecimalStyle, precision: nat, alternate: bool, upper: bool)
    requires RyuBounded(ryu) && Decode(Binary64, raw).Number? && precision <= DOUBLE_MAX_DECIMAL_PRECISION
    ensures var body := DoubleBody(ryu, raw, style, precision, DOUBLE_PRINTF_BUFFER_SIZE, alternate, upper);
            body.Ok? ==> |body.value| <= match style
                                         case FixedConversion => 313 + precision
                                         case ExpConversion => 9 + precision
                                         case GeneralConversion => 8 + Significant(precision)
    ensures !style.GeneralConversion? ==> DoubleBody(ryu, raw, style, precision, DOUBLE_PRINTF_BUFFER_SIZE, alternate, upper).Ok?
  {
    hide PlainBody;
    hide WholeDigits;
    hide GeneralDouble;
    WholeDigitsBound(raw);
    assert TextsBounded(ryu, raw, precision);
    match style
    case FixedConversion => PlainBodyLength(ryu.fixed(raw, precision), DOUBLE_PRINTF_BUFFER_SIZE, alternate, upper);
    case ExpConversion => PlainBodyLength(ryu.exp(raw, precision), DOUBLE_PRINTF_BUFFER_SIZE, alternate, upper);
    case GeneralConversion => GeneralDoubleLength(ryu, raw, Significant(precision), DOUBLE_PRINTF_BUFFER_SIZE, alternate, upper);
  }

  lemma GeneralDoubleLength(ryu: Ryu, raw: nat, significant: nat, capacity: nat, alternate: bool, upper: bool)
    requires RyuBounded(ryu) && Decode(Binary64, raw).Number? && significant > 0
    ensures var body := GeneralDouble(ryu, raw, significant, capacity, alternate, upper);
            body.Ok? ==> |body.value| <= 8 + significant
  {
    hide PlainBody;
    hide WholeDigits;
    hide ParsedExponent;
    hide Stripped;
    var text := ryu.exp(raw, significant - 1);
    var printed := PlainBody(text, capacity, alternate, upper);
    assert TextsBounded(ryu, raw, significant - 1);
    PlainBodyLength(text, capacity, alternate, upper);
    if printed.Ok? && ParsedExponent(printed.value).Ok? {
      StrippedLength(printed.value);
      var x := ParsedExponent(printed.value).value;
      ParsedIsThere(printed.value);
      PlainBodyExponent(text, capacity, alternate, upper, x);
      if -4 <= x < significant {
        var places := significant - (x + 1);
        assert TextsBounded(ryu, raw, places);
        PlainBodyLength(ryu.fixed(raw, places), capacity, alternate, upper);
        var fixed := PlainBody(ryu.fixed(raw, places), capacity, alternate, upper);
        if fixed.Ok? { StrippedLength(fixed.value); }
      }
    }
  }

  lemma ParsedIsThere(t: string)
    ensures ParsedExponent(t).Ok? ==> ExponentIs(t, ParsedExponent(t).value)
  {
  }

  // ---- correct printers -------------------------------------------------------------------------

  ghost function SignText(parts: FormatBinaryFloat): string { if parts.negative then "-" else "" }

  /** The printers give the correctly rounded text, with a sign. */
  ghost predicate TextsCorrect(ryu: Ryu, raw: nat, precision: nat)
    requires Decode(Binary64, raw).Number?
  {
    var parts := Decode(Binary64, raw).parts;
    && ryu.fixed(raw, precision) == SignText(parts) + FixedBody(parts, precision, false)
    && ryu.exp(raw, precision) == SignText(parts) + ExpBody(parts, Decade(parts), precision, false, false)
  }

  ghost predicate RyuCorrect(ryu: Ryu) {
    forall raw: nat, precision: nat :: Decode(Binary64, raw).Number? ==>
      Decode(Binary64, raw).parts.Consistent() && TextsCorrect(ryu, raw, precision)
  }

  ghost function CorrectFixed(raw: nat, precision: nat): string {
    match Decode(Binary64, raw)
    case Number(parts) => SignText(parts) + FixedBody(parts, precision, false)
    case _ => ""
  }

  ghost function CorrectExp(raw: nat, precision: nat): string {
    match Decode(Binary64, raw)
    case Number(parts) =>
      DecodedIsFinite(Binary64, raw);
      SignText(parts) + ExpBody(parts, Decade(parts), precision, false, false)
    case _ => ""
  }

  /** There are such printers. */
  lemma CorrectPrinters() returns (ryu: Ryu)
    ensures RyuCorrect(ryu)
  {
    ryu := Ryu((raw: nat, precision: nat) => CorrectFixed(raw, precision), (raw: nat, precision: nat) => CorrectExp(raw, precision));
    PrintersAreCorrect(ryu);
  }

  lemma PrintersAreCorrect(ryu: Ryu)
    requires forall raw: nat, precision: nat :: ryu.fixed(raw, precision) == CorrectFixed(raw, precision)
    requires forall raw: nat, precision: nat :: ryu.exp(raw, precision) == CorrectExp(raw, precision)
    ensures RyuCorrect(ryu)
  {
    hide TextsCorrect;
    forall raw: nat | Decode(Binary64, raw).Number? ensures Decode(Binary64, raw).parts.Consistent() {
      DecodedIsFinite(Binary64, raw);
    }
    forall raw: nat, precision: nat | Decode(Binary64, raw).Number? ensures TextsCorrect(ryu, raw, precision) {
      TextsAreCorrect(ryu, raw, precision);
    }
  }

  lemma TextsAreCorrect(ryu: Ryu, raw: nat, precision: nat)
    requires ryu.fixed(raw, precision) == CorrectFixed(raw, precision) && ryu.exp(raw, precision) == CorrectExp(raw, precision)
    requires Decode(Binary64, raw).Number?
    ensures TextsCorrect(ryu, raw, precision)
  {
    hide FixedBody;
    hide ExpBody;
    hide Decode;
  }

  /** Rounding adds at most one digit. */
  lemma FixedDigits(parts: FormatBinaryFloat, precision: nat)
    requires parts.Consistent()
    ensures |Dec(FixedNumber(parts, precision))| <= WholeDigits(parts) + precision + 1
  {
    if parts.zero {
      ZeroNumber(parts, precision);
    } else {
      var e := Decade(parts);
      var c := Max(precision + e + 1, 0);
      ScaledBelowTen(parts, e, precision, c);
      RoundingIsMonotone(parts.Num(precision), parts.Den(precision), Pow(10, c));
      PowStrict(10, c, c + 1);
      DecLengthIs(FixedNumber(parts, precision), c + 1);
    }
  }

  lemma FixedBodyBound(parts: FormatBinaryFloat, precision: nat)
    requires parts.Consistent()
    ensures 0 < |FixedBody(parts, precision, false)| <= WholeDigits(parts) + precision + 2
  {
    FixedDigits(parts, precision);
    FixedTextLength(Dec(FixedNumber(parts, precision)), precision, false);
  }

  lemma ExpBodyBound(parts: FormatBinaryFloat, precision: nat)
    requires parts.Finite(Binary64)
    ensures 0 < |ExpBody(parts, Decade(parts), precision, false, false)| <= precision + 7
    ensures ExpBody(parts, Decade(parts), precision, false, false)[0] != '-'
  {
    hide ExpBody;
    var e := Decade(parts);
    var t := ExpBody(parts, e, precision, false, false);
    DecimalTextDenotes(ExpConversion, parts, precision, false, false);
    var m, x := if parts.zero then 0 else ExpMantissa(parts, e, precision), if parts.zero then 0 else ExpExponent(parts, e, precision);
    if !parts.zero {
      DecadeRange(Binary64, parts, e);
      PrintedIsNearest(parts, e, precision);
    }
    var lead, fraction :| ExpPartsRead(t, lead, fraction, m, precision, x, false, false);
    ThreeDigits(Abs(x));
  }

  lemma ThreeDigits(n: nat)
    requires n < 1000
    ensures |ExponentDigits(n)| <= 3
  {
    assert Pow(10, 3) == 1000;
    DecLengthIs(n, 3);
  }

  /** The exponent printed is never below the decade. */
  lemma ExpBodyExponent(parts: FormatBinaryFloat, precision: nat, x: int)
    requires parts.Finite(Binary64) && ExponentIs(ExpBody(parts, Decade(parts), precision, false, false), x)
    ensures Decade(parts) <= x
  {
    hide ExpBody;
    var e := Decade(parts);
    DecimalTextDenotes(ExpConversion, parts, precision, false, false);
    var m, y := if parts.zero then 0 else ExpMantissa(parts, e, precision), if parts.zero then 0 else ExpExponent(parts, e, precision);
    if !parts.zero {
      DecadeRange(Binary64, parts, e);
      PrintedIsNearest(parts, e, precision);
    }
    ParsedIsPrinted(ExpBody(parts, e, precision, false, false), m, precision, y, false, false);
  }

  /** Correct texts are short enough. */
  lemma CorrectIsBounded(ryu: Ryu)
    requires RyuCorrect(ryu)
    ensures RyuBounded(ryu)
  {
    hide TextsCorrect;
    hide TextsBounded;
    forall raw: nat, precision: nat | Decode(Binary64, raw).Number? ensures TextsBounded(ryu, raw, precision) {
      assert TextsCorrect(ryu, raw, precision);
      CorrectTextBounded(ryu, raw, precision);
    }
  }

  lemma CorrectTextBounded(ryu: Ryu, raw: nat, precision: nat)
    requires Decode(Binary64, raw).Number? && Decode(Binary64, raw).parts.Consistent() && TextsCorrect(ryu, raw, precision)
    ensures TextsBounded(ryu, raw, precision)
  {
    hide FixedBody;
    hide ExpBody;
    hide ExponentIs;
    var parts := Decode(Binary64, raw).parts;
    DecodedIsFinite(Binary64, raw);
    FixedBodyBound(parts, precision);
    ExpBodyBound(parts, precision);
    var t := ExpBody(parts, Decade(parts), precision, false, false);
    forall x | ExponentIs(ryu.exp(raw, precision), x) ensures WholeDigits(parts) <= Max(x + 1, 1) {
      SignedExponent(parts, t, x);
      ExpBodyExponent(parts, precision, x);
    }
  }

  lemma SignedExponent(parts: FormatBinaryFloat, t: string, x: int)
    requires ExponentIs(SignText(parts) + t, x) && t != "" && t[0] != '-'
    ensures ExponentIs(t, x)
  {
    var s := SignText(parts) + t;
    if parts.negative {
      var i: nat :| HasExponent(s, i) && SignedNumber(s[i + 1..], x);
      assert forall k :: 0 <= k < |t| ==> s[k + 1] == t[k];
      forall k | 0 <= k < i - 1 ensures !IsExponentLetter(t[k]) { assert s[..i][k + 1] == t[k]; }
      assert s[i + 1..] == t[i..];
      assert HasExponent(t, i - 1);
    } else {
      assert s == t;
    }
  }
}
