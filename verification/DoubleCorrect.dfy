/** With correct Ryu printers, a `double` is printed with the very text a `long double` of the same value gets. */
module DoubleCorrect {
  import opened Powers
  import opened Results
  import opened Decimal
  import opened BigUInt
  import opened Rounding
  import opened BinaryFloat
  import opened Magnitude
  import opened FixedStyle
  import opened SignificantDigits
  import opened ExpText
  import opened ExpRoom
  import opened GeneralStyle
  import opened LongDoublePrint
  import opened FloatBits
  import opened TextLengths
  import opened DoublePrint
  import opened RyuTexts

  // ---- the point and the letter -------------------------------------------------------------

  lemma DigitsStay(t: string)
    requires AllDigits(t)
    ensures Pointed(t) == t + "."
  {
    assert SplitsAt(t, -1, |t|);
    PointedIs(t, -1, |t|);
    assert t[..|t|] + "." + t[|t|..] == t + ".";
  }

  lemma PointStays(t: string, whole: string, fraction: string, suffix: string)
    requires HasParts(t, whole, fraction, suffix)
    ensures Pointed(t) == t
  {
    hide SplitsAt;
    hide HasParts;
    SplitExists(t);
    var point: int, letter: nat :| SplitsAt(t, point, letter);
    PointedIs(t, point, letter);
    WhereItSplits(t, point, letter, whole, fraction, suffix);
  }

  lemma PointedFixed(n: nat, precision: nat)
    ensures Pointed(FixedText(Dec(n), precision, false)) == FixedText(Dec(n), precision, true)
  {
    var t := FixedText(Dec(n), precision, false);
    if precision == 0 {
      DigitsStay(t);
    } else {
      FixedTextReads(n, precision, false);
      var whole, fraction :| PartsRead(t, whole, fraction, n, precision, false);
      PointStays(t, whole, fraction, "");
    }
  }

  lemma BareLead(lead: char, suffix: string)
    requires IsDigit(lead) && suffix != "" && IsExponentLetter(suffix[0])
    ensures Pointed([lead] + suffix) == [lead] + "." + suffix
  {
    var t := [lead] + suffix;
    assert t[..1] == [lead] && t[1..] == suffix;
    assert SplitsAt(t, -1, 1);
    PointedIs(t, -1, 1);
  }

  lemma PointedExp(d: string, precision: nat, exponent: int)
    requires AllDigits(d) && d != [] && |d| <= precision + 1
    ensures Pointed(MantissaText(d, precision, false) + ExponentText(exponent, false))
         == MantissaText(d, precision, true) + ExponentText(exponent, false)
  {
    hide Pointed;
    var suffix := ExponentText(exponent, false);
    assert IsExponentLetter(suffix[0]);
    hide ExponentText;
    if precision == 0 {
      assert MantissaText(d, 0, false) == [d[0]] && MantissaText(d, 0, true) == [d[0]] + ".";
      BareLead(d[0], suffix);
    } else {
      MantissaPoint(d, precision, suffix);
    }
  }

  lemma MantissaPoint(d: string, precision: nat, suffix: string)
    requires AllDigits(d) && d != [] && |d| <= precision + 1 && precision > 0
    requires suffix != "" && IsExponentLetter(suffix[0])
    ensures Pointed(MantissaText(d, precision, false) + suffix) == MantissaText(d, precision, true) + suffix
  {
    hide Pointed;
    var fraction := d[1..] + Zeros(precision + 1 - |d|);
    assert MantissaText(d, precision, false) == [d[0]] + ("." + d[1..] + Zeros(precision + 1 - |d|));
    assert MantissaText(d, precision, false) + suffix == [d[0]] + "." + fraction + suffix;
    PointStays([d[0]] + "." + fraction + suffix, [d[0]], fraction, suffix);
  }

  lemma UppercasedAppend(s: string, t: string)
    ensures Uppercased(s + t) == Uppercased(s) + Uppercased(t)
  {
  }

  lemma UppercasedSame(s: string)
    requires 'e' !in s
    ensures Uppercased(s) == s
  {
  }

  lemma UppercasedExponentText(exponent: int)
    ensures Uppercased(ExponentText(exponent, false)) == ExponentText(exponent, true)
  {
    var sign, digits := [if exponent < 0 then '-' else '+'], ExponentDigits(Abs(exponent));
    assert ExponentText(exponent, false) == "e" + (sign + digits);
    UppercasedAppend("e", sign + digits);
    UppercasedSame(sign + digits);
  }

  lemma NoLetterInFixed(n: nat, precision: nat, alternate: bool)
    ensures 'e' !in FixedText(Dec(n), precision, alternate)
  {
  }

  lemma NoLetterInMantissa(d: string, precision: nat, alternate: bool)
    requires AllDigits(d) && d != [] && |d| <= precision + 1
    ensures 'e' !in MantissaText(d, precision, alternate)
  {
  }

  lemma UnsignedIs(parts: FormatBinaryFloat, t: string)
    requires t != "" && t[0] != '-'
    ensures Unsigned(SignText(parts) + t) == t
  {
    if parts.negative {
      assert (SignText(parts) + t)[1..] == t;
    } else {
      assert SignText(parts) + t == t;
    }
  }

  lemma FixedStart(n: nat, precision: nat, alternate: bool)
    ensures var t := FixedText(Dec(n), precision, alternate); t != "" && t[0] != '-'
  {
  }

  // ---- the bodies --------------------------------------------------------------------------------

  lemma PlainFixed(parts: FormatBinaryFloat, precision: nat, capacity: nat, alternate: bool, upper: bool)
    requires |FixedBody(parts, precision, false)| + 2 < capacity
    ensures PlainBody(SignText(parts) + FixedBody(parts, precision, false), capacity, alternate, upper)
         == Ok(FixedBody(parts, precision, alternate))
  {
    hide FixedText;
    hide Pointed;
    hide Uppercased;
    hide Unsigned;
    var n := FixedNumber(parts, precision);
    FixedStart(n, precision, false);
    UnsignedIs(parts, FixedText(Dec(n), precision, false));
    PointedFixed(n, precision);
    NoLetterInFixed(n, precision, alternate);
    UppercasedSame(FixedText(Dec(n), precision, alternate));
  }

  /** The digits and the exponent of the text in exponent style. */
  lemma ExpBodyParts(parts: FormatBinaryFloat, precision: nat) returns (d: string, x: int)
    requires parts.Consistent()
    ensures AllDigits(d) && d != [] && |d| <= precision + 1
    ensures forall alternate: bool, upper: bool {:trigger ExpBody(parts, Decade(parts), precision, alternate, upper)} ::
      ExpBody(parts, Decade(parts), precision, alternate, upper) == MantissaText(d, precision, alternate) + ExponentText(x, upper)
  {
    hide MantissaText;
    hide ExponentText;
    if parts.zero {
      d, x := "0", 0;
    } else {
      d, x := Dec(ExpMantissa(parts, Decade(parts), precision)), ExpExponent(parts, Decade(parts), precision);
      ExpTextReads(parts, Decade(parts), precision, false, false);
    }
  }

  lemma PlainExp(parts: FormatBinaryFloat, precision: nat, capacity: nat, alternate: bool, upper: bool)
    requires parts.Consistent() && |ExpBody(parts, Decade(parts), precision, false, false)| + 2 < capacity
    ensures PlainBody(SignText(parts) + ExpBody(parts, Decade(parts), precision, false, false), capacity, alternate, upper)
         == Ok(ExpBody(parts, Decade(parts), precision, alternate, upper))
  {
    hide ExpBody;
    hide MantissaText;
    hide ExponentText;
    hide Pointed;
    hide Uppercased;
    hide Unsigned;
    var d, x := ExpBodyParts(parts, precision);
    var t := ExpBody(parts, Decade(parts), precision, false, false);
    MantissaStart(d, precision, x);
    UnsignedIs(parts, t);
    PointedExp(d, precision, x);
    NoLetterInMantissa(d, precision, alternate);
    UppercasedAppend(MantissaText(d, precision, alternate), ExponentText(x, false));
    UppercasedSame(MantissaText(d, precision, alternate));
    UppercasedExponentText(x);
  }

  lemma MantissaStart(d: string, precision: nat, x: int)
    requires AllDigits(d) && d != [] && |d| <= precision + 1
    ensures var t := MantissaText(d, precision, false) + ExponentText(x, false); t != "" && t[0] != '-'
  {
  }

  /** The exponent read back from the text. */
  lemma ExpBodyParsed(parts: FormatBinaryFloat, significant: nat, alternate: bool, upper: bool)
    requires parts.Finite(Binary64) && significant > 0
    ensures ParsedExponent(ExpBody(parts, Decade(parts), significant - 1, alternate, upper))
         == Ok(GeneralExponent(parts, Decade(parts), significant))
  {
    hide ExpBody;
    hide ExponentIs;
    hide ParsedExponent;
    var x := GeneralExponent(parts, Decade(parts), significant);
    DecimalTextDenotes(ExpConversion, parts, significant - 1, alternate, upper);
    if !parts.zero { ExponentRange(Binary64, parts, Decade(parts), significant - 1); }
    var t := ExpBody(parts, Decade(parts), significant - 1, alternate, upper);
    ParsedIsPrinted(t, GeneralMantissa(parts, Decade(parts), significant), significant - 1, x, alternate, upper);
    OneExponent(t, x);
  }

  /** For every finite `double`, style and precision that is not refused: the text is that of the rounded value. */
  lemma DoubleTextIsDecimalText(ryu: Ryu, raw: nat, style: DecimalStyle, precision: nat, alternate: bool, upper: bool)
    requires RyuCorrect(ryu) && Decode(Binary64, raw).Number? && precision <= DOUBLE_MAX_DECIMAL_PRECISION
    ensures Decode(Binary64, raw).parts.Consistent()
    ensures DoubleBody(ryu, raw, style, precision, DOUBLE_PRINTF_BUFFER_SIZE, alternate, upper)
         == Ok(DecimalText(style, Decode(Binary64, raw).parts, precision, alternate, upper))
  {
    hide PlainBody;
    hide FixedBody;
    hide ExpBody;
    hide GeneralDouble;
    hide GeneralBody;
    hide WholeDigits;
    hide Decode;
    DecodedIsFinite(Binary64, raw);
    WholeDigitsBound(raw);
    var parts := Decode(Binary64, raw).parts;
    assert TextsCorrect(ryu, raw, precision);
    match style
    case FixedConversion =>
      FixedBodyBound(parts, precision);
      PlainFixed(parts, precision, DOUBLE_PRINTF_BUFFER_SIZE, alternate, upper);
    case ExpConversion =>
      ExpBodyBound(parts, precision);
      PlainExp(parts, precision, DOUBLE_PRINTF_BUFFER_SIZE, alternate, upper);
    case GeneralConversion =>
      GeneralDoubleIs(ryu, raw, parts, Significant(precision), alternate, upper);
  }

  lemma GeneralDoubleIs(ryu: Ryu, raw: nat, parts: FormatBinaryFloat, significant: nat, alternate: bool, upper: bool)
    requires RyuCorrect(ryu) && Decode(Binary64, raw) == Number(parts) && 0 < significant <= DOUBLE_MAX_DECIMAL_PRECISION
    requires parts.Finite(Binary64) && WholeDigits(parts) <= 309
    ensures GeneralDouble(ryu, raw, significant, DOUBLE_PRINTF_BUFFER_SIZE, alternate, upper)
         == Ok(GeneralBody(parts, Decade(parts), significant, alternate, upper))
  {
    hide PlainBody;
    hide FixedBody;
    hide ExpBody;
    hide WholeDigits;
    hide Decode;
    hide ParsedExponent;
    hide GeneralExponent;
    hide Stripped;
    var x := GeneralExponent(parts, Decade(parts), significant);
    assert TextsCorrect(ryu, raw, significant - 1);
    ExpBodyBound(parts, significant - 1);
    PlainExp(parts, significant - 1, DOUBLE_PRINTF_BUFFER_SIZE, alternate, upper);
    ExpBodyParsed(parts, significant, alternate, upper);
    if -4 <= x < significant {
      var places := significant - 1 - x;
      assert significant - (x + 1) == places;
      assert TextsCorrect(ryu, raw, places);
      FixedBodyBound(parts, places);
      PlainFixed(parts, places, DOUBLE_PRINTF_BUFFER_SIZE, alternate, upper);
    }
  }
}
