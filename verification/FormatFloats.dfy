/** The text of a floating point argument (cbase/fmt.c), and that it keeps to the room the estimator allows for it. */
module FormatFloats {
  import opened Powers
  import opened Results
  import opened BinaryFloat
  import opened Magnitude
  import opened FixedStyle
  import opened ExpStyle
  import opened SignificantDigits
  import opened ExpText
  import opened GeneralStyle
  import opened LongDoublePrint
  import opened FloatBits
  import opened HexStyle
  import opened HexPrint
  import opened TextLengths
  import opened DoublePrint
  import opened RyuTexts
  import opened DoubleCorrect
  import opened FormatSpec
  import opened FormatInteger

  /**
   What the formatter takes from elsewhere: the text for a NULL string, the format of `long double`, the estimate of
   the decimal logarithm, and the two Ryu printers.
   */
  datatype Environment = Environment(
    nullText: string,
    longDouble: LongDouble,
    estimate: FormatBinaryFloat -> int,
    ryu: Ryu)

  predicate IsFixed(c: char) { c == 'f' || c == 'F' }

  predicate IsGeneral(c: char) { c == 'g' || c == 'G' }

  predicate IsHex(c: char) { c == 'a' || c == 'A' }

  predicate IsFloatUpper(c: char) { c == 'F' || c == 'E' || c == 'G' || c == 'A' }

  function StyleOf(conversion: char): DecimalStyle {
    if IsFixed(conversion) then FixedConversion else if IsGeneral(conversion) then GeneralConversion else ExpConversion
  }

  function FloatPrefix(spec: FormatSpec, format: LongDouble): nat {
    if IsFixed(spec.conversion) then
      if spec.length.BigL? then format.MaxFixedPrefix() else FLOAT_MAX_FIXED_PREFIX
    else if IsGeneral(spec.conversion) then 32
    else if IsHex(spec.conversion) then 32
    else 8
  }

  /** The room the estimator allows for the body of a float, its sign not counted. */
  function FloatRoom(spec: FormatSpec, format: LongDouble): int {
    FloatPrefix(spec, format) + 8
    + if spec.precision < 0 then if spec.length.BigL? then format.MaxHexDigits() else DOUBLE_HEX_DIGITS
      else spec.precision
  }

  function FloatLimit(spec: FormatSpec, format: LongDouble): nat {
    if spec.length.BigL? then format.PrintfBufferSize() else DOUBLE_PRINTF_BUFFER_SIZE
  }

  /** The bits of the argument. */
  function RawFloat(arg: Arg): nat {
    match arg
    case Double(value) => value
    case LongDouble(value) => value
    case _ => 0
  }

  /** The format of the argument. */
  function FloatFormat(spec: FormatSpec, format: LongDouble): LongDouble {
    if spec.length.BigL? then format else Binary64
  }

  // ---- the text -------------------------------------------------------------------------------

  /** The decimal text of a finite value; no parsed specification has a negative precision. */
  ghost function DecimalFloat(spec: FormatSpec, raw: nat, parts: FormatBinaryFloat, env: Environment): Result<string>
    requires parts.Consistent()
  {
    var style, alternate, upper := StyleOf(spec.conversion), spec.flags.alternate, IsFloatUpper(spec.conversion);
    if spec.precision < 0 then Err(EINVAL)
    else if spec.length.BigL? then
      DecimalBody(env.longDouble, parts, style, spec.precision, alternate, upper, env.estimate(parts))
    else DoubleBody(env.ryu, raw, style, spec.precision, DOUBLE_PRINTF_BUFFER_SIZE, alternate, upper)
  }

  /** fmt_ldouble_generate_body and fmt_float_generate_body: the text of |value|. */
  ghost function FloatBody(spec: FormatSpec, arg: Arg, env: Environment): Result<string> {
    var format, raw := FloatFormat(spec, env.longDouble), RawFloat(arg);
    match Decode(format, raw)
    case NotANumber => Ok(if IsFloatUpper(spec.conversion) then "NAN" else "nan")
    case Infinite => Ok(if IsFloatUpper(spec.conversion) then "INF" else "inf")
    case Invalid => Err(EINVAL)
    case Number(parts) =>
      DecodedIsHexOk(format, raw);
      if IsHex(spec.conversion)
      then IfFits(HexBody(parts, spec.precision, spec.flags.alternate, IsFloatUpper(spec.conversion)), FloatLimit(spec, env.longDouble))
      else DecimalFloat(spec, raw, parts, env)
  }

  function FloatNegative(spec: FormatSpec, arg: Arg, env: Environment): bool {
    IsNegative(FloatFormat(spec, env.longDouble), RawFloat(arg))
  }

  // ---- printing it ------------------------------------------------------------------------------

  /** fmt_ldouble_special_body and fmt_float_special_body */
  method SpecialBody(spec: FormatSpec, arg: Arg, env: Environment) returns (text: Result<string>)
    requires !Decode(FloatFormat(spec, env.longDouble), RawFloat(arg)).Number?
    ensures text == FloatBody(spec, arg, env)
    ensures text.Ok? ==> |text.value| <= FloatLimit(spec, env.longDouble)
  {
    var value := Decode(FloatFormat(spec, env.longDouble), RawFloat(arg));
    var upper := IsFloatUpper(spec.conversion);
    if value.NotANumber? { return Ok(if upper then "NAN" else "nan"); }
    if value.Infinite? { return Ok(if upper then "INF" else "inf"); }
    return Err(EINVAL);
  }

  /** fmt_ldouble_generate_body, for a value that decodes */
  method LongDoubleBody(spec: FormatSpec, ghost raw: nat, parts: FormatBinaryFloat, env: Environment) returns (text: Result<string>)
    requires spec.length.BigL? && parts.Finite(env.longDouble) && HexOk(parts) && Abs(HexExponent(parts)) < 100000
    requires parts.precisionBits == env.longDouble.MantDig()
    ensures text == if IsHex(spec.conversion)
                    then IfFits(HexBody(parts, spec.precision, spec.flags.alternate, IsFloatUpper(spec.conversion)), env.longDouble.PrintfBufferSize())
                    else DecimalFloat(spec, raw, parts, env)
    ensures text.Ok? ==> |text.value| <= env.longDouble.PrintfBufferSize()
  {
    hide HexOk;
    hide HexBody;
    hide DecimalBody;
    hide Denotes;
    hide EstimateServes;
    var alternate, upper := spec.flags.alternate, IsFloatUpper(spec.conversion);
    if IsHex(spec.conversion) {
      var capacity := env.longDouble.PrintfBufferSize();
      var buffer := new char[capacity];
      var len := PrintLongDoubleHex(env.longDouble, parts, spec.precision, alternate, upper, buffer, capacity);
      text := match len case Ok(n) => Ok(buffer[..n]) case Err(errno) => Err(errno);
    } else if spec.precision < 0 {
      text := Err(EINVAL);
    } else {
      text := PrintLongDouble(env.longDouble, parts, StyleOf(spec.conversion), spec.precision, alternate, upper, env.estimate(parts));
    }
  }

  /** fmt_float_generate_body, for a finite value */
  method FiniteDoubleBody(spec: FormatSpec, raw: nat, env: Environment) returns (text: Result<string>)
    requires !spec.length.BigL? && Decode(Binary64, raw).Number?
    ensures var parts := Decode(Binary64, raw).parts;
            && HexOk(parts)
            && text == (if IsHex(spec.conversion)
                        then IfFits(HexBody(parts, spec.precision, spec.flags.alternate, IsFloatUpper(spec.conversion)), DOUBLE_PRINTF_BUFFER_SIZE)
                        else DecimalFloat(spec, raw, parts, env))
    ensures text.Ok? ==> |text.value| <= DOUBLE_PRINTF_BUFFER_SIZE
  {
    hide HexOk;
    hide HexBody;
    hide DoubleBody;
    var alternate, upper := spec.flags.alternate, IsFloatUpper(spec.conversion);
    DecodedIsHexOk(Binary64, raw);
    DecodedIsFinite(Binary64, raw);
    var buffer := new char[DOUBLE_PRINTF_BUFFER_SIZE];
    var len: Result<nat>;
    if IsHex(spec.conversion) {
      len := PrintDoubleHex(raw, spec.precision, alternate, upper, buffer, DOUBLE_PRINTF_BUFFER_SIZE);
    } else if spec.precision < 0 {
      len := Err(EINVAL);
    } else {
      len := GenerateDoubleBody(env.ryu, raw, StyleOf(spec.conversion), spec.precision, buffer, DOUBLE_PRINTF_BUFFER_SIZE, alternate, upper);
    }
    text := match len case Ok(n) => Ok(buffer[..n]) case Err(errno) => Err(errno);
  }

  /** The body of a float conversion. */
  method GenerateBody(spec: FormatSpec, arg: Arg, env: Environment) returns (text: Result<string>)
    ensures text == FloatBody(spec, arg, env)
    ensures text.Ok? ==> |text.value| <= FloatLimit(spec, env.longDouble)
  {
    hide HexOk;
    hide HexBody;
    hide DecimalBody;
    hide DoubleBody;
    hide IsFloatUpper;
    hide FloatBody;
    hide DecimalFloat;
    hide Decode;
    var format, raw := FloatFormat(spec, env.longDouble), RawFloat(arg);
    var value := Decode(format, raw);
    if !value.Number? {
      text := SpecialBody(spec, arg, env);
      return;
    }
    DecodedIsHexOk(format, raw);
    DecodedIsFinite(format, raw);
    FiniteBodyIs(spec, arg, env, raw, value.parts);
    if spec.length.BigL? {
      text := LongDoubleBody(spec, raw, value.parts, env);
    } else {
      text := FiniteDoubleBody(spec, raw, env);
    }
  }

  lemma FiniteBodyIs(spec: FormatSpec, arg: Arg, env: Environment, raw: nat, parts: FormatBinaryFloat)
    requires raw == RawFloat(arg) && Decode(FloatFormat(spec, env.longDouble), raw) == Number(parts)
    requires HexOk(parts) && parts.Consistent()
    ensures FloatBody(spec, arg, env) ==
      if IsHex(spec.conversion)
      then IfFits(HexBody(parts, spec.precision, spec.flags.alternate, IsFloatUpper(spec.conversion)), FloatLimit(spec, env.longDouble))
      else DecimalFloat(spec, raw, parts, env)
  {
    hide HexOk;
    hide HexBody;
    hide DecimalFloat;
    hide Decode;
    hide IsFloatUpper;
  }

  // ---- the estimator's room ---------------------------------------------------------------------

  /**
   For every finite value, style and precision: a text that denotes the value as its conversion asks is no
   longer than the room the estimator allows for it.
   */
  lemma LongDoubleTextFits(format: LongDouble, parts: FormatBinaryFloat, e: int, spec: FormatSpec, t: string)
    requires IsFloat(spec.conversion) && !IsHex(spec.conversion) && spec.length.BigL? && spec.precision >= 0
    requires parts.Finite(format) && (!parts.zero ==> InDecade(parts, e))
    requires Denotes(t, StyleOf(spec.conversion), parts, e, spec.precision, spec.flags.alternate, IsFloatUpper(spec.conversion))
    ensures |t| <= FloatRoom(spec, format)
  {
    var precision, alternate, upper := spec.precision, spec.flags.alternate, IsFloatUpper(spec.conversion);
    match StyleOf(spec.conversion)
    case FixedConversion => FixedBodyLength(format, parts, precision, alternate, t);
    case ExpConversion => ExpBodyLength(format, parts, e, precision, alternate, upper, t);
    case GeneralConversion => GeneralBodyLength(format, parts, e, Significant(precision), alternate, upper, t);
  }

  /** The text of any argument, finite or not, in any of the conversions, fits the room the estimator allows for it. */
  lemma FloatBodyFits(spec: FormatSpec, arg: Arg, env: Environment)
    requires IsFloat(spec.conversion) && RyuBounded(env.ryu)
    requires spec.precision <= (if spec.length.BigL? then env.longDouble.MaxDecimalPrecision() else DOUBLE_MAX_DECIMAL_PRECISION)
    ensures FloatBody(spec, arg, env).Ok? ==> |FloatBody(spec, arg, env).value| <= FloatRoom(spec, env.longDouble)
  {
    hide HexBody;
    hide HexOk;
    hide RyuBounded;
    hide IsFloatUpper;
    var format, raw := FloatFormat(spec, env.longDouble), RawFloat(arg);
    var value := Decode(format, raw);
    if value.Number? {
      DecodedIsHexOk(format, raw);
      HexBodyLength(value.parts, spec.precision, spec.flags.alternate, IsFloatUpper(spec.conversion));
      DecodedIsFinite(format, raw);
      if !IsHex(spec.conversion) { DecimalFits(spec, raw, value.parts, env); }
    }
  }

  lemma DecimalFits(spec: FormatSpec, raw: nat, parts: FormatBinaryFloat, env: Environment)
    requires IsFloat(spec.conversion) && !IsHex(spec.conversion) && RyuBounded(env.ryu)
    requires Decode(FloatFormat(spec, env.longDouble), raw) == Number(parts) && parts.Consistent()
    requires !spec.length.BigL? ==> spec.precision <= DOUBLE_MAX_DECIMAL_PRECISION
    ensures DecimalFloat(spec, raw, parts, env).Ok? ==> |DecimalFloat(spec, raw, parts, env).value| <= FloatRoom(spec, env.longDouble)
  {
    hide RyuBounded;
    hide Denotes;
    hide DecimalText;
    hide SearchFails;
    hide SearchFrom;
    hide DoubleBody;
    var style, alternate, upper := StyleOf(spec.conversion), spec.flags.alternate, IsFloatUpper(spec.conversion);
    DecodedIsFinite(FloatFormat(spec, env.longDouble), raw);
    if spec.precision >= 0 {
      if spec.length.BigL? {
        DecimalTextDenotes(style, parts, spec.precision, alternate, upper);
        LongDoubleTextFits(env.longDouble, parts, Decade(parts), spec, DecimalText(style, parts, spec.precision, alternate, upper));
      } else {
        DoubleBodyLength(env.ryu, raw, style, spec.precision, alternate, upper);
      }
    }
  }

  // ---- what it says -------------------------------------------------------------------------------

  /**
   Whatever the conversion and the type of the argument, the body of a finite value reads as that value: in
   hexadecimal or in one of the decimal styles, rounded to the digits asked for.
   */
  lemma FloatBodyReads(spec: FormatSpec, arg: Arg, env: Environment, parts: FormatBinaryFloat)
    requires RyuCorrect(env.ryu) && Decode(FloatFormat(spec, env.longDouble), RawFloat(arg)) == Number(parts)
    requires spec.length.BigL? || spec.precision <= DOUBLE_MAX_DECIMAL_PRECISION
    requires FloatBody(spec, arg, env).Ok?
    ensures
      var body, alternate, upper := FloatBody(spec, arg, env).value, spec.flags.alternate, IsFloatUpper(spec.conversion);
      if IsHex(spec.conversion)
      then HexOk(parts) && ReadsAsHex(body, PrintedHex(HexNumber(parts), HexDigitCount(parts), HexPlaces(parts, spec.precision)),
                                      HexPlaces(parts, spec.precision), HexExponent(parts), alternate, upper)
      else spec.precision >= 0 && Denotes(body, StyleOf(spec.conversion), parts, Decade(parts), spec.precision, alternate, upper)
  {
    hide HexBody;
    hide HexOk;
    hide HexNumber;
    hide HexPlaces;
    hide HexDigitCount;
    hide PrintedHex;
    hide ReadsAsHex;
    hide Decode;
    hide RyuCorrect;
    hide DoubleBody;
    hide DecimalText;
    hide Denotes;
    hide SearchFails;
    hide SearchFrom;
    var format, raw := FloatFormat(spec, env.longDouble), RawFloat(arg);
    var alternate, upper := spec.flags.alternate, IsFloatUpper(spec.conversion);
    DecodedIsHexOk(format, raw);
    DecodedIsFinite(format, raw);
    FiniteBodyIs(spec, arg, env, raw, parts);
    if IsHex(spec.conversion) {
      HexBodyReads(parts, spec.precision, alternate, upper);
    } else if spec.precision >= 0 {
      DecimalTextDenotes(StyleOf(spec.conversion), parts, spec.precision, alternate, upper);
      if !spec.length.BigL? {
        DoubleTextIsDecimalText(env.ryu, raw, StyleOf(spec.conversion), spec.precision, alternate, upper);
      }
    }
  }
}
