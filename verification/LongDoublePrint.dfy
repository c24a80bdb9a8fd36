/** Printing a finite `long double`: the three decimal conversions with the buffers the executor gives them. */
module LongDoublePrint {
  import opened Powers
  import opened Results
  import opened Words
  import opened BigUInt
  import opened Rounding
  import opened BinaryFloat
  import opened Magnitude
  import opened FixedStyle
  import opened ExpStyle
  import opened SignificantDigits
  import opened ExpText
  import opened ExpRoom
  import opened GeneralStyle

  datatype DecimalStyle = FixedConversion | ExpConversion | GeneralConversion

  /** Precision 0 of `%Lg` means one significant digit. */
  function Significant(precision: nat): nat { if precision == 0 then 1 else precision }

  lemma ZeroRoom(format: LongDouble, parts: FormatBinaryFloat, places: nat)
    requires parts.Finite(format) && parts.zero && places <= MaxFixedPlaces(format)
    ensures FixedFits(parts, places, format.BigUIntMaxWords(), format.PrintfBufferSize())
    ensures places + 6 <= format.PrintfBufferSize() && 4 <= format.BigUIntMaxWords()
  {
    FixedNeverOverflows(format, parts, places);
    assert format.Binary64? || format.X87? || format.Binary128?;
  }

  /** `%Lg` cannot run out of room, neither in exponent style nor when it is rewritten in fixed style. */
  lemma GeneralNeverOverflows(format: LongDouble, parts: FormatBinaryFloat, e: int, significant: nat)
    requires parts.Finite(format) && (!parts.zero ==> InDecade(parts, e))
    requires 0 < significant <= format.MaxDecimalPrecision()
    ensures GeneralFits(parts, e, significant, format.BigUIntMaxWords(), format.PrintfBufferSize())
  {
    var x := GeneralExponent(parts, e, significant);
    assert format.Binary64? || format.X87? || format.Binary128?;
    if !parts.zero { ExpNeverOverflows(format, parts, e, significant - 1); }
    if -4 <= x < significant { FixedNeverOverflows(format, parts, significant - 1 - x); }
  }

  /** What the text of a conversion denotes. */
  ghost predicate Denotes(t: string, style: DecimalStyle, parts: FormatBinaryFloat, e: int, precision: nat,
                          alternate: bool, upper: bool)
  {
    match style
    case FixedConversion =>
      ReadsAsFixed(t, FixedNumber(parts, precision), precision, alternate)
    case ExpConversion =>
      if parts.zero then ReadsAsExp(t, 0, precision, 0, alternate, upper)
      else ReadsAsExp(t, ExpMantissa(parts, e, precision), precision, ExpExponent(parts, e, precision), alternate, upper)
    case GeneralConversion =>
      var count := if precision == 0 then 1 else precision;
      ReadsAsGeneral(t, GeneralMantissa(parts, e, count), GeneralExponent(parts, e, count), count, alternate, upper)
  }

  /** The text of |value| in a style. */
  ghost function DecimalText(style: DecimalStyle, parts: FormatBinaryFloat, precision: nat, alternate: bool, upper: bool): string
    requires parts.Consistent()
  {
    match style
    case FixedConversion => FixedBody(parts, precision, alternate)
    case ExpConversion => ExpBody(parts, Decade(parts), precision, alternate, upper)
    case GeneralConversion => GeneralBody(parts, Decade(parts), Significant(precision), alternate, upper)
  }

  /** What a conversion returns: the text, or the error of a refused precision or of a failed search for the exponent. */
  ghost function DecimalBody(format: LongDouble, parts: FormatBinaryFloat, style: DecimalStyle, precision: nat,
                             alternate: bool, upper: bool, estimate: int): Result<string>
    requires parts.Consistent()
  {
    var words := format.BigUIntMaxWords();
    if precision > format.MaxDecimalPrecision() then Err(ERANGE)
    else if !style.FixedConversion? && SearchFails(parts, Decade(parts), estimate, words) then Err(SearchFrom(parts, estimate, words).errno)
    else Ok(DecimalText(style, parts, precision, alternate, upper))
  }

  /** For finite values the search fails exactly when the estimate does not serve. */
  lemma SearchServes(format: LongDouble, parts: FormatBinaryFloat, estimate: int)
    requires parts.Finite(format)
    ensures SearchFails(parts, Decade(parts), estimate, format.BigUIntMaxWords()) <==> !EstimateServes(parts, Decade(parts), estimate)
  {
    var e := Decade(parts);
    if !parts.zero && e < 0 {
      WindowRoom(format, parts, e);
      SearchFinds(parts, estimate, TRIALS, format.BigUIntMaxWords(), e);
    }
  }

  /** Each text denotes what its conversion asks for. */
  lemma DecimalTextDenotes(style: DecimalStyle, parts: FormatBinaryFloat, precision: nat, alternate: bool, upper: bool)
    requires parts.Consistent()
    ensures Denotes(DecimalText(style, parts, precision, alternate, upper), style, parts, Decade(parts), precision, alternate, upper)
  {
    match style
    case FixedConversion => FixedTextReads(FixedNumber(parts, precision), precision, alternate);
    case ExpConversion => ExpTextReads(parts, Decade(parts), precision, alternate, upper);
    case GeneralConversion => GeneralTextReads(parts, Decade(parts), Significant(precision), alternate, upper);
  }

  /**
   The text of |value|. A precision beyond the exact one is refused; otherwise the conversion succeeds
   for every finite value, except that the exponent and general styles of a nonzero value below one
   succeed if and only if the logarithm was estimated within 15 of the exponent.
   */
  method PrintLongDouble(format: LongDouble, parts: FormatBinaryFloat, style: DecimalStyle, precision: nat,
                         alternate: bool, upper: bool, estimate: int) returns (text: Result<string>)
    requires parts.Finite(format)
    ensures text == DecimalBody(format, parts, style, precision, alternate, upper, estimate)
    ensures text.Ok? ==> Denotes(text.value, style, parts, Decade(parts), precision, alternate, upper)
    ensures text.Ok? <==>
      precision <= format.MaxDecimalPrecision() && (style.FixedConversion? || EstimateServes(parts, Decade(parts), estimate))
    ensures precision > format.MaxDecimalPrecision() ==> text == Err(ERANGE)
    ensures text.Ok? ==> |text.value| <= format.PrintfBufferSize()
  {
    hide SearchFrom;
    hide Denotes;
    hide FixedBody;
    hide ExpBody;
    hide GeneralBody;
    hide GoodEstimate;
    hide FixedFits;
    hide FixedSucceeds;
    hide ExpBodyFits;
    hide GeneralFits;
    if precision > format.MaxDecimalPrecision() {
      return Err(ERANGE);
    }
    ghost var e := Decade(parts);
    var capacity := format.PrintfBufferSize();
    var body := new char[capacity];
    var integer := new FormatBigUInt(format.BigUIntMaxWords());
    SearchServes(format, parts, estimate);
    DecimalTextDenotes(style, parts, precision, alternate, upper);
    if parts.zero {
      ZeroRoom(format, parts, precision);
    } else {
      ExpNeverOverflows(format, parts, e, precision);
      ZeroRoom(format, parts.(significandLow := 0, significandHigh := 0, zero := true), precision);
    }
    var len: Result<nat>;
    match style {
      case FixedConversion =>
        FixedNeverOverflows(format, parts, precision);
        len := GenerateFixedBody(parts, precision, alternate, body, capacity, integer);
      case ExpConversion =>
        len := GenerateExpBody(parts, precision, alternate, upper, estimate, body, capacity, integer, e);
      case GeneralConversion =>
        GeneralNeverOverflows(format, parts, e, Significant(precision));
        len := GenerateGeneralBody(parts, Significant(precision), alternate, upper, estimate, body, capacity, integer, e);
    }
    return match len case Ok(n) => Ok(body[..n]) case Err(errno) => Err(errno);
  }
}
