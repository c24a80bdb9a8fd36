/**
 What each conversion prints (fmt_execute_spec in cbase/fmt.c), said of the specification, the bits of the
 arguments and the text alone.
 */
module FormatMeaning {
  import opened Powers
  import opened Results
  import opened IntegerText
  import opened BinaryFloat
  import opened FloatBits
  import opened HexStyle
  import HexPrint
  import opened LongDoublePrint
  import opened DoublePrint
  import opened FormatSink
  import opened FormatSpec
  import opened FormatInteger
  import opened FormatIntegerFacts
  import opened FormatFloats
  import opened FormatConversion
  import opened FormatFields
  import opened FormatArguments

  // ---- characters, strings, pointers ------------------------------------------------------------

  /** `%c`: one byte, the lowest of the argument. */
  ghost predicate CharShown(spec: FormatSpec, args: seq<Arg>, t: string, rest: seq<Arg>) {
    exists width: int, left: bool, middle: seq<Arg> ::
      && WidthTaken(spec, args, width, left, middle) && rest == Behind(middle)
      && Justified(t, [(FirstBits(middle) % 0x100) as char], left, width)
  }

  /** content is as long a prefix of the text without a terminator as the limit allows. */
  ghost predicate LongestPrefix(content: string, text: string, limit: Option<int>) {
    && content <= text && '\0' !in content
    && (limit.Some? ==> |content| <= Max(limit.value, 0))
    && (limit == None || |content| < limit.value ==> |content| == |text| || text[|content|] == '\0')
  }

  /** content is exactly so many bytes of the argument; a NULL pointer has none. */
  ghost predicate ExactSpan(content: string, args: seq<Arg>, n: int) {
    if args != [] && args[0].Text? then content <= args[0].bytes && |content| == Min(Max(n, 0), |args[0].bytes|)
    else n <= 0 && content == ""
  }

  ghost function StringArgument(args: seq<Arg>, nullText: string): string {
    if args != [] && args[0].Text? then args[0].bytes else nullText
  }

  /** `%s`: with `.*` exactly so many bytes, otherwise up to the terminator and no more than a literal precision says. */
  ghost predicate StringContent(spec: FormatSpec, args: seq<Arg>, nullText: string, content: string, rest: seq<Arg>) {
    match spec.precisionKind
    case PrecisionArg =>
      && rest == Behind(Behind(args))
      && exists n: int :: n >= 0 && TwosComplement(32, FirstBits(args), n) && ExactSpan(content, Behind(args), n)
    case PrecisionLiteral =>
      rest == Behind(args) && LongestPrefix(content, StringArgument(args, nullText), Some(spec.precision))
    case PrecisionNone =>
      rest == Behind(args) && LongestPrefix(content, StringArgument(args, nullText), None)
  }

  ghost predicate StringShown(spec: FormatSpec, args: seq<Arg>, nullText: string, t: string, rest: seq<Arg>) {
    exists width: int, left: bool, middle: seq<Arg>, content: string ::
      && WidthTaken(spec, args, width, left, middle) && StringContent(spec, middle, nullText, content, rest)
      && Justified(t, content, left, width)
  }

  /** `%p`: the address in base 16 behind its mark. */
  ghost predicate PointerShown(spec: FormatSpec, args: seq<Arg>, t: string, rest: seq<Arg>) {
    exists width: int, left: bool, middle: seq<Arg> ::
      && WidthTaken(spec, args, width, left, middle) && rest == Behind(middle)
      && Justified(t, "0x" + NumberText(FirstBits(middle) % Pow(2, 64), 16, false), left, width)
  }

  // ---- integers ------------------------------------------------------------------------------------

  /** The argument as the type the length names: two's complement for `%d`, modulo 2^bits otherwise. */
  ghost predicate IntegerArgument(spec: FormatSpec, raw: nat, v: int) {
    if spec.conversion == 'd' then TwosComplement(BitsOf(spec.length), raw, v) else v == raw % Pow(2, BitsOf(spec.length))
  }

  /** No digits for zero with precision zero, else those of the magnitude, in upper case for `%X`. */
  ghost predicate DigitsShown(spec: FormatSpec, v: int, precision: Option<int>, digits: string) {
    if v == 0 && precision == Some(0) then digits == ""
    else exists upper: bool :: digits == NumberText(Abs(v), NamedBase(spec.conversion), upper) && (spec.conversion in "xX" ==> upper == (spec.conversion == 'X'))
  }

  /** A sign or, with `#`, the mark of the base. */
  ghost predicate PrefixShown(spec: FormatSpec, v: int, precision: Option<int>, digits: string, prefix: string) {
    if spec.conversion == 'd' then
      prefix == if v < 0 then "-" else if spec.flags.sign then "+" else if spec.flags.space then " " else ""
    else if spec.flags.alternate && spec.conversion == 'o' && (if v == 0 then digits == "" else !MoreDigits(precision, digits)) then
      prefix == "0"
    else if spec.flags.alternate && v != 0 && spec.conversion in "xXbB" then prefix == ['0', spec.conversion]
    else prefix == ""
  }

  /** The precision asks for more digits than there are. */
  ghost predicate MoreDigits(precision: Option<int>, digits: string) { precision.Some? && precision.value > |digits| }

  /** Zeros fill up to the precision or, without one, up to the width where the flag asks for it. */
  ghost predicate ZerosShown(spec: FormatSpec, l: Layout, prefix: string, digits: string, zeros: nat) {
    match l.precision
    case Some(p) => zeros + |digits| == Max(p, |digits|)
    case None =>
      if spec.flags.zero && !l.left then |prefix| + zeros + |digits| == Max(l.width, |prefix| + |digits|) else zeros == 0
  }

  ghost predicate IntegerField(spec: FormatSpec, l: Layout, v: int, t: string) {
    exists prefix: string, zeros: nat, digits: string ::
      && DigitsShown(spec, v, l.precision, digits) && PrefixShown(spec, v, l.precision, digits, prefix)
      && ZerosShown(spec, l, prefix, digits, zeros)
      && Justified(t, prefix + (Copies('0', zeros) + digits), l.left, l.width)
  }

  ghost predicate IntegerShown(spec: FormatSpec, args: seq<Arg>, t: string, rest: seq<Arg>) {
    exists l: Layout, v: int ::
      LaidOut(spec, args, l) && rest == Behind(l.args) && IntegerArgument(spec, FirstBits(l.args), v) && IntegerField(spec, l, v, t)
  }

  // ---- floating point ----------------------------------------------------------------------------

  ghost function FloatBitsOf(args: seq<Arg>): nat {
    if args == [] then 0 else match args[0]
      case Double(value) => value
      case LongDouble(value) => value
      case _ => 0
  }

  /** The length L asks for a `long double`. */
  ghost function NamedFormat(spec: FormatSpec, env: Environment): LongDouble {
    match spec.length
    case BigL => env.longDouble
    case _ => Binary64
  }

  /** Six places without a precision; hexadecimal then takes as many as it needs. */
  ghost function PlacesOf(spec: FormatSpec, precision: Option<int>): int {
    match precision
    case Some(p) => if spec.conversion in "gG" && p == 0 then 1 else p
    case None => if spec.conversion in "aA" then -1 else 6
  }

  ghost predicate InCapitals(c: char) { c in "FEGA" }

  ghost function NamedStyle(c: char): DecimalStyle {
    match c
    case 'f' => FixedConversion
    case 'F' => FixedConversion
    case 'g' => GeneralConversion
    case 'G' => GeneralConversion
    case _ => ExpConversion
  }

  /** The text of the number without its sign. */
  ghost predicate BodyShown(spec: FormatSpec, places: int, raw: nat, env: Environment, body: string) {
    var format, upper, alternate := NamedFormat(spec, env), InCapitals(spec.conversion), spec.flags.alternate;
    match Decode(format, raw)
    case NotANumber => body == if upper then "NAN" else "nan"
    case Infinite => body == if upper then "INF" else "inf"
    case Invalid => false
    case Number(parts) =>
      if spec.conversion in "aA" then HexOk(parts) && body == HexBody(parts, places, alternate, upper)
      else
        && places >= 0 && parts.Consistent()
        && Ok(body) == if spec.length == BigL
                       then DecimalBody(format, parts, NamedStyle(spec.conversion), places, alternate, upper, env.estimate(parts))
                       else DoubleBody(env.ryu, raw, NamedStyle(spec.conversion), places, 1394, alternate, upper)
  }

  /** The sign bit of the format: the topmost one. */
  ghost predicate SignBitSet(format: LongDouble, raw: nat) {
    raw / (match format case Binary64 => Pow(2, 63) case X87 => Pow(2, 79) case Binary128 => Pow(2, 127)) % 2 == 1
  }

  ghost function SignShown(spec: FormatSpec, negative: bool): string {
    if negative then "-" else if spec.flags.sign then "+" else if spec.flags.space then " " else ""
  }

  /** How much of a body is the mark of hexadecimal style: zeros go behind it. */
  ghost predicate MarkShown(spec: FormatSpec, body: string, mark: nat) {
    mark == if spec.conversion in "aA" && ("0x" <= body || "0X" <= body) then 2 else 0
  }

  ghost predicate FloatFieldShown(spec: FormatSpec, l: Layout, sign: string, body: string, t: string) {
    exists mark: nat, zeros: nat ::
      && MarkShown(spec, body, mark) && mark <= |body|
      && (if spec.flags.zero && !l.left then |sign| + zeros + |body| == Max(|sign| + |body|, l.width) else zeros == 0)
      && Justified(t, sign + (body[..mark] + (Copies('0', zeros) + body[mark..])), l.left, l.width)
  }

  ghost predicate FloatShown(spec: FormatSpec, args: seq<Arg>, env: Environment, t: string, rest: seq<Arg>) {
    exists l: Layout, body: string ::
      && LaidOut(spec, args, l) && rest == Behind(l.args)
      && BodyShown(spec, PlacesOf(spec, l.precision), FloatBitsOf(l.args), env, body)
      && FloatFieldShown(spec, l, SignShown(spec, SignBitSet(NamedFormat(spec, env), FloatBitsOf(l.args))), body, t)
  }

  // ---- every conversion ---------------------------------------------------------------------------

  /** t is what the conversion prints for the arguments, and `rest` are those behind. */
  ghost predicate ConversionShown(spec: FormatSpec, args: seq<Arg>, env: Environment, t: string, rest: seq<Arg>) {
    if spec.conversion in "duoxXbB" then IntegerShown(spec, args, t, rest)
    else if spec.conversion in "fFeEgGaA" then FloatShown(spec, args, env, t, rest)
    else if spec.conversion == 'c' then CharShown(spec, args, t, rest)
    else if spec.conversion == 's' then StringShown(spec, args, env.nullText, t, rest)
    else if spec.conversion == 'p' then PointerShown(spec, args, t, rest)
    else spec.conversion == '%' && t == "%" && rest == args
  }

  lemma CharIs(spec: FormatSpec, args: seq<Arg>)
    requires LoadWidth(spec, args).Ok?
    ensures var l := LoadWidth(spec, args).value;
            CharShown(spec, args, Joined(PaddedPieces(l.spec, [(Raw(Next(l.args)) % 256) as char])), Rest(l.args))
  {
    hide WidthTaken;
    hide Justified;
    hide Joined;
    LoadedWidth(spec, args);
    var l := LoadWidth(spec, args).value;
    NextIs(l.args);
    PaddedShows(l.spec, [(Raw(Next(l.args)) % 256) as char]);
  }

  lemma PointerIs(spec: FormatSpec, args: seq<Arg>)
    requires LoadWidth(spec, args).Ok?
    ensures var l := LoadWidth(spec, args).value;
            PointerShown(spec, args, Joined(PointerPieces(l.spec, Raw(Next(l.args)) % Modulus(64))), Rest(l.args))
  {
    hide WidthTaken;
    hide Justified;
    hide Joined;
    hide NumberText;
    LoadedWidth(spec, args);
    var l := LoadWidth(spec, args).value;
    NextIs(l.args);
    ModulusIsPower(64);
    PointerShows(l.spec, Raw(Next(l.args)) % Modulus(64));
  }

  lemma PointerShows(spec: FormatSpec, address: nat)
    ensures Justified(Joined(PointerPieces(spec, address)), "0x" + NumberText(address, 16, false), spec.flags.left, spec.width)
  {
    hide Joined;
    hide NumberText;
    var digits := NumberText(address, 16, false);
    var spaces := PadLength(spec.width, 2 + |digits|);
    FieldText(spec.flags.left, spaces, "0x", 0, 0, digits);
    assert Copies('0', 0) + digits == digits;
    BothSides(spec.flags.left, spaces, "0x" + digits);
    SpacesJustify("0x" + digits, spec.flags.left, spec.width);
  }

  // ---- strings --------------------------------------------------------------------------------------

  lemma TextIs(args: seq<Arg>, nullText: string)
    ensures Next(args).Text? <==> args != [] && args[0].Text?
    ensures StringArgument(args, nullText) == match Next(args) case Text(bytes) => bytes case _ => nullText
  {
  }

  lemma PrefixIsLongest(text: string, limit: Option<int>)
    ensures var all := text[..StrLen(text)];
            LongestPrefix(if limit.Some? then AtMost(all, limit.value) else all, text, limit)
  {
    var n := StrLen(text);
    if limit.Some? && 0 < limit.value < n {
      assert text[..n][..limit.value] == text[..limit.value];
      assert forall i :: 0 <= i < limit.value ==> text[..n][i] == text[i];
    }
  }

  /** The bytes `%s` writes are what the precision asks for. */
  lemma BytesAre(spec: FormatSpec, args: seq<Arg>, nullText: string)
    requires LoadString(spec, args).Ok?
    requires var l := LoadString(spec, args).value; StringBytes(Next(l.args), spec.precisionKind.PrecisionArg?, l.spec, nullText).Ok?
    ensures var l := LoadString(spec, args).value;
            var bytes := StringBytes(Next(l.args), spec.precisionKind.PrecisionArg?, l.spec, nullText).value;
            LoadWidth(spec, args).Ok? && StringContent(spec, LoadWidth(spec, args).value.args, nullText, bytes, Rest(l.args))
  {
    hide LoadWidth;
    hide StrLen;
    hide AtMost;
    hide TwosComplement;
    hide LongestPrefix;
    LoadedWidth(spec, args);
    var w := LoadWidth(spec, args).value;
    var l := LoadString(spec, args).value;
    NextIs(w.args);
    NextIs(l.args);
    TextIs(l.args, nullText);
    if spec.precisionKind.PrecisionArg? {
      SpanIs(l.args, l.spec, nullText);
    } else {
      PrefixIsLongest(StringArgument(l.args, nullText), if spec.precisionKind.PrecisionLiteral? then Some(spec.precision) else None);
    }
  }

  lemma SpanIs(args: seq<Arg>, spec: FormatSpec, nullText: string)
    ensures var bytes := StringBytes(Next(args), true, spec, nullText);
            && (bytes.Ok? ==> ExactSpan(bytes.value, args, spec.precision))
            && (bytes.Err? <==> spec.precision > 0 && !(args != [] && args[0].Text?))
            && (bytes.Err? ==> bytes == Err(EINVAL))
  {
  }

  lemma StringIs(spec: FormatSpec, args: seq<Arg>, env: Environment)
    requires StringAction(spec, args, env).Ok?
    ensures var does := StringAction(spec, args, env).value;
            does.action.Write? && StringShown(spec, args, env.nullText, Joined(does.action.pieces), does.args)
  {
    hide WidthTaken;
    hide Justified;
    hide Joined;
    hide StringContent;
    hide StringBytes;
    LoadedWidth(spec, args);
    BytesAre(spec, args, env.nullText);
    var l := LoadString(spec, args).value;
    PaddedShows(l.spec, StringBytes(Next(l.args), spec.precisionKind.PrecisionArg?, l.spec, env.nullText).value);
  }

  /** `%s` is refused by its width, by a negative length, or by a length for a NULL pointer. */
  ghost predicate StringDenied(spec: FormatSpec, args: seq<Arg>) {
    || WidthRefused(spec, args)
    || (spec.precisionKind.PrecisionArg? && exists middle: seq<Arg>, width: int, left: bool, n: int ::
          && WidthTaken(spec, args, width, left, middle) && TwosComplement(32, FirstBits(middle), n)
          && (n < 0 || (n > 0 && !(Behind(middle) != [] && Behind(middle)[0].Text?))))
  }

  lemma StringRefused(spec: FormatSpec, args: seq<Arg>, env: Environment)
    ensures StringAction(spec, args, env).Err? <==> StringDenied(spec, args)
    ensures StringAction(spec, args, env).Err? ==>
      StringAction(spec, args, env) == Err(if WidthRefused(spec, args) then EOVERFLOW else EINVAL)
  {
    hide LoadWidth;
    hide WidthTaken;
    hide WidthRefused;
    hide TwosComplement;
    hide StrLen;
    hide AtMost;
    LoadedWidth(spec, args);
    var w := LoadWidth(spec, args);
    if w.Ok? && spec.precisionKind.PrecisionArg? {
      NextIs(w.value.args);
      SpanRefused(spec, args, w.value, NextInt32(w.value.args));
      var l := LoadString(spec, args);
      if l.Ok? { SpanIs(l.value.args, l.value.spec, env.nullText); }
    }
  }

  lemma SpanRefused(spec: FormatSpec, args: seq<Arg>, w: Loaded, v: int)
    requires WidthTaken(spec, args, w.spec.width, w.spec.flags.left, w.args) && TwosComplement(32, FirstBits(w.args), v)
    ensures (exists middle: seq<Arg>, width: int, left: bool, n: int ::
              && WidthTaken(spec, args, width, left, middle) && TwosComplement(32, FirstBits(middle), n)
              && (n < 0 || (n > 0 && !(Behind(middle) != [] && Behind(middle)[0].Text?))))
            <==> v < 0 || (v > 0 && !(Behind(w.args) != [] && Behind(w.args)[0].Text?))
  {
    hide WidthTaken;
    hide TwosComplement;
    forall middle: seq<Arg>, width: int, left: bool, n: int
      | WidthTaken(spec, args, width, left, middle) && TwosComplement(32, FirstBits(middle), n)
      ensures middle == w.args && n == v
    {
      WidthUnique(spec, args, width, left, middle, w.spec.width, w.spec.flags.left, w.args);
      TwosComplementUnique(32, FirstBits(w.args), n, v);
    }
  }

  // ---- integers, proved -------------------------------------------------------------------------

  ghost function ValueOf(v: IntegerValue): int { if v.negative then 0 - v.magnitude else v.magnitude }

  lemma ArgumentIs(spec: FormatSpec, raw: nat)
    requires IsInteger(spec.conversion)
    ensures var v := ReadValue(spec, raw);
            && IntegerArgument(spec, raw, ValueOf(v)) && Abs(ValueOf(v)) == v.magnitude
            && (v.negative <==> ValueOf(v) < 0) && (v.negative ==> spec.conversion == 'd')
  {
    hide Pow;
    hide TwosComplement;
    SignedValueIs(BitsOf(spec.length), raw);
    ModulusIsPower(BitsOf(spec.length));
  }

  lemma BasesAgree(c: char)
    requires IsInteger(c)
    ensures BaseOf(c) == NamedBase(c) && (c in "xX" ==> IsUpper(c) == (c == 'X'))
  {
    BaseIsNamed(c);
  }

  /** The loaded specification and the layout say the same. */
  ghost predicate Laid(spec: FormatSpec, loaded: FormatSpec, l: Layout) {
    && SameOtherwise(spec, loaded) && loaded.flags.left == l.left && loaded.width == l.width
    && l.precision == if loaded.precisionKind.PrecisionNone? then None else Some(loaded.precision)
  }

  lemma DigitsAre(spec: FormatSpec, loaded: FormatSpec, l: Layout, value: IntegerValue)
    requires IsInteger(spec.conversion) && Laid(spec, loaded, l)
    ensures Abs(ValueOf(value)) == value.magnitude && DigitsShown(spec, ValueOf(value), l.precision, Digits(loaded, value))
  {
    hide NumberText;
    hide BaseOf;
    hide IsUpper;
    BasesAgree(spec.conversion);
    assert value.magnitude != 0 || l.precision != Some(0) ==>
      Digits(loaded, value) == NumberText(value.magnitude, NamedBase(spec.conversion), IsUpper(spec.conversion));
  }

  lemma PrefixIsShown(spec: FormatSpec, loaded: FormatSpec, l: Layout, value: IntegerValue, digits: string)
    requires IsInteger(spec.conversion) && Laid(spec, loaded, l) && (value.negative ==> value.magnitude > 0)
    requires digits == Digits(loaded, value)
    ensures PrefixShown(spec, ValueOf(value), l.precision, digits, Prefix(loaded, value, |digits|, PrecisionZeros(loaded, |digits|)))
  {
    hide Digits;
    var zeros := PrecisionZeros(loaded, |digits|);
    PrefixSays(loaded, value, |digits|, zeros);
    hide Prefix;
  }

  lemma FieldIs(spec: FormatSpec, loaded: FormatSpec, l: Layout, value: IntegerValue)
    requires IsInteger(spec.conversion) && Laid(spec, loaded, l) && (value.negative ==> value.magnitude > 0)
    ensures IntegerField(spec, l, ValueOf(value), Joined(IntegerPieces(loaded, value)))
  {
    hide Joined;
    hide Digits;
    hide Prefix;
    hide DigitsShown;
    hide PrefixShown;
    hide IntegerPieces;
    hide Justified;
    var digits := Digits(loaded, value);
    var prefix, zeros := IntegerShows(loaded, value);
    DigitsAre(spec, loaded, l, value);
    PrefixIsShown(spec, loaded, l, value, digits);
    assert ZerosShown(spec, l, prefix, digits, zeros);
  }

  lemma IntegerIs(spec: FormatSpec, args: seq<Arg>)
    requires IsInteger(spec.conversion) && LoadBoth(spec, args).Ok?
    ensures var l := LoadBoth(spec, args).value;
            IntegerShown(spec, args, Joined(IntegerPieces(l.spec, ReadValue(l.spec, Raw(Next(l.args))))), Rest(l.args))
  {
    hide Joined;
    hide IntegerPieces;
    hide LaidOut;
    hide IntegerField;
    hide IntegerArgument;
    hide LoadBoth;
    LoadedBoth(spec, args);
    var l := LoadBoth(spec, args).value;
    NextIs(l.args);
    var value := ReadValue(l.spec, Raw(Next(l.args)));
    ArgumentIs(l.spec, FirstBits(l.args));
    SameArgument(spec, l.spec, FirstBits(l.args), ValueOf(value));
    FieldIs(spec, l.spec, LayoutOf(l), value);
  }

  lemma SameArgument(spec: FormatSpec, loaded: FormatSpec, raw: nat, v: int)
    requires SameOtherwise(spec, loaded) && IntegerArgument(loaded, raw, v)
    ensures IntegerArgument(spec, raw, v)
  {
  }

  // ---- floating point, proved -----------------------------------------------------------------

  lemma SignBitIs(format: LongDouble, raw: nat)
    ensures IsNegative(format, raw) <==> SignBitSet(format, raw)
  {
    SignPowers();
    hide Pow;
    match format
    case Binary64 =>
    case X87 => DivDiv(raw, TWO_TO_64, 0x8000);
    case Binary128 => DivDiv(raw, TWO_TO_64, TWO_TO_63);
  }

  lemma SignPowers()
    ensures Pow(2, 63) == TWO_TO_63 && Pow(2, 79) == TWO_TO_64 * 0x8000 && Pow(2, 127) == TWO_TO_64 * TWO_TO_63
  {
    hide Pow;
    LargePowers();
    SixteenBits();
    PowAdd(2, 63, 1);
    PowAdd(2, 15, 1);
    PowAdd(2, 64, 15);
    PowAdd(2, 64, 63);
  }

  lemma LettersAre(c: char)
    requires IsFloat(c)
    ensures c in "fFeEgGaA"
    ensures IsFloatUpper(c) == InCapitals(c) && StyleOf(c) == NamedStyle(c)
    ensures (IsHex(c) <==> c in "aA") && (IsGeneral(c) <==> c in "gG")
  {
  }

  lemma FloatArgumentIs(spec: FormatSpec, args: seq<Arg>, env: Environment)
    ensures RawFloat(Next(args)) == FloatBitsOf(args) && FloatFormat(spec, env.longDouble) == NamedFormat(spec, env)
  {
  }

  /** What the loader makes of width and precision. */
  lemma FloatLoaded(spec: FormatSpec, args: seq<Arg>, format: LongDouble)
    requires IsFloat(spec.conversion)
    ensures var l := LoadFloat(spec, args, format);
            l.Ok? ==> LoadBoth(spec, args).Ok? && var b := LoadBoth(spec, args).value;
                      && l.value.args == b.args && l.value.spec.width == b.spec.width && l.value.spec.flags == b.spec.flags
                      && l.value.spec.conversion == b.spec.conversion && l.value.spec.length == b.spec.length
                      && l.value.spec.precision == PlacesOf(spec, LayoutOf(b).precision)
  {
    hide LoadBoth;
    LettersAre(spec.conversion);
    LoadedBoth(spec, args);
  }

  lemma BodyIs(spec: FormatSpec, args: seq<Arg>, env: Environment)
    requires IsFloat(spec.conversion) && FloatBody(spec, Next(args), env).Ok?
    ensures BodyShown(spec, spec.precision, FloatBitsOf(args), env, FloatBody(spec, Next(args), env).value)
  {
    hide Decode;
    hide HexOk;
    hide HexBody;
    hide DecimalBody;
    hide DoubleBody;
    hide NamedStyle;
    hide StyleOf;
    hide IsFloatUpper;
    hide InCapitals;
    FloatArgumentIs(spec, args, env);
    LettersAre(spec.conversion);
    DecodedParts(NamedFormat(spec, env), FloatBitsOf(args));
  }

  lemma DecodedParts(format: LongDouble, raw: nat)
    ensures Decode(format, raw).Number? ==> Decode(format, raw).parts.Consistent()
    ensures Decode(format, raw).Number? ==> HexOk(Decode(format, raw).parts)
  {
    hide Decode;
    DecodedIsFinite(format, raw);
    if Decode(format, raw).Number? { HexPrint.DecodedIsHexOk(format, raw); }
  }

  lemma FloatFieldIs(spec: FormatSpec, loaded: FormatSpec, l: Layout, sign: string, body: string)
    requires IsFloat(spec.conversion) && SameOtherwise(spec, loaded) && loaded.flags.left == l.left && loaded.width == l.width
    ensures FloatFieldShown(spec, l, sign, body, Joined(FloatPieces(loaded, sign, body)))
  {
    hide Joined;
    hide FloatPieces;
    hide Justified;
    LettersAre(spec.conversion);
    var mark, zeros := FloatShows(loaded, sign, body);
    MarkIs(loaded, body);
  }

  lemma MarkIs(spec: FormatSpec, body: string)
    ensures MarkLength(spec, body) == if IsHex(spec.conversion) && ("0x" <= body || "0X" <= body) then 2 else 0
  {
    if |body| >= 2 { assert body[..2] == [body[0], body[1]]; }
  }

  lemma FloatIs(spec: FormatSpec, args: seq<Arg>, env: Environment)
    requires IsFloat(spec.conversion) && LoadFloat(spec, args, env.longDouble).Ok?
    requires var l := LoadFloat(spec, args, env.longDouble).value; FloatBody(l.spec, Next(l.args), env).Ok?
    ensures var l := LoadFloat(spec, args, env.longDouble).value;
            FloatShown(spec, args, env,
                       Joined(FloatPieces(l.spec, Sign(l.spec, FloatNegative(l.spec, Next(l.args), env)), FloatBody(l.spec, Next(l.args), env).value)),
                       Rest(l.args))
  {
    hide Joined;
    hide FloatPieces;
    hide LoadFloat;
    hide LoadBoth;
    hide LaidOut;
    hide FloatBody;
    hide BodyShown;
    hide FloatFieldShown;
    hide IsNegative;
    hide SignBitSet;
    hide PlacesOf;
    var l := LoadFloat(spec, args, env.longDouble).value;
    FloatLoaded(spec, args, env.longDouble);
    LoadedBoth(spec, args);
    var b := LoadBoth(spec, args).value;
    NextIs(l.args);
    BodyIs(l.spec, l.args, env);
    FloatArgumentIs(l.spec, l.args, env);
    SignBitIs(NamedFormat(spec, env), FloatBitsOf(l.args));
    SameBody(spec, l.spec, FloatBitsOf(l.args), env, FloatBody(l.spec, Next(l.args), env).value);
    FloatFieldIs(spec, l.spec, LayoutOf(b), Sign(l.spec, FloatNegative(l.spec, Next(l.args), env)), FloatBody(l.spec, Next(l.args), env).value);
  }

  lemma SameBody(spec: FormatSpec, loaded: FormatSpec, raw: nat, env: Environment, body: string)
    requires SameOtherwise(spec, loaded) && BodyShown(loaded, loaded.precision, raw, env, body)
    ensures BodyShown(spec, loaded.precision, raw, env, body)
  {
  }

  /** Whatever a conversion writes is what it is to show. */
  lemma ActionShows(spec: FormatSpec, args: seq<Arg>, env: Environment)
    requires ActionOf(spec, args, env).Ok? && ActionOf(spec, args, env).value.action.Write?
    ensures var does := ActionOf(spec, args, env).value;
            ConversionShown(spec, args, env, Joined(does.action.pieces), does.args)
  {
    hide Joined;
    hide IntegerShown;
    hide FloatShown;
    hide CharShown;
    hide StringShown;
    hide PointerShown;
    hide LoadBoth;
    hide LoadWidth;
    hide LoadFloat;
    hide StringAction;
    hide FloatBody;
    hide IntegerPieces;
    hide PaddedPieces;
    hide PointerPieces;
    hide FloatPieces;
    hide ReadValue;
    KindsAre(spec.conversion);
    if IsInteger(spec.conversion) {
      IntegerIs(spec, args);
    } else if IsFloat(spec.conversion) {
      FloatIs(spec, args, env);
    } else if spec.conversion == 'c' {
      CharIs(spec, args);
    } else if spec.conversion == 's' {
      StringIs(spec, args, env);
    } else if spec.conversion == 'p' {
      PointerIs(spec, args);
    } else {
      JoinOne("%");
    }
  }

  lemma KindsAre(c: char)
    ensures (IsInteger(c) <==> c in "duoxXbB") && (IsFloat(c) <==> c in "fFeEgGaA")
  {
  }
}
