/**
 The estimator (fmt_estimate_spec and its loops in cbase/fmt.c): which room each conversion gets, said of its kind,
 and exactly when a whole format has an estimate.
 */
module FormatRooms {
  import opened Powers
  import opened Results
  import opened IntegerText
  import opened BinaryFloat
  import opened RyuTexts
  import opened FormatSink
  import opened FormatSpec
  import opened FormatInteger
  import opened FormatIntegerFacts
  import opened FormatFloats
  import opened FormatConversion
  import opened FormatArguments
  import opened FormatMeaning
  import opened FormatRuns

  // ---- the room of one conversion ------------------------------------------------------------

  /** The largest magnitude of the type. */
  ghost function LargestMagnitude(spec: FormatSpec): nat {
    if spec.conversion == 'd' then Pow(2, BitsOf(spec.length) - 1) else Pow(2, BitsOf(spec.length)) - 1
  }

  /** Room for a sign, or for the mark that `#` asks for. */
  ghost function MarkRoom(spec: FormatSpec): nat {
    if spec.conversion == 'd' then 1
    else if spec.flags.alternate && spec.conversion in "xXbB" then 2
    else if spec.flags.alternate && spec.conversion == 'o' then 1
    else 0
  }

  /** As many digits as the largest magnitude has, or as the precision asks for. */
  ghost predicate IntegerRoom(spec: FormatSpec, args: seq<Arg>, room: nat, rest: seq<Arg>) {
    exists l: Layout ::
      && LaidOut(spec, args, l) && rest == Behind(l.args)
      && var digits := |NumberText(LargestMagnitude(spec), NamedBase(spec.conversion), false)|;
         room == Max(l.width, MarkRoom(spec) + match l.precision case Some(p) => Max(p, digits) case None => digits)
  }

  ghost predicate FixedRoom(spec: FormatSpec, args: seq<Arg>, size: nat, room: nat, rest: seq<Arg>) {
    exists width: int, left: bool, middle: seq<Arg> ::
      WidthTaken(spec, args, width, left, middle) && rest == Behind(middle) && room == Max(width, size)
  }

  /** What the precision says, dynamic ones without a negative or a NULL pointer, or the length of the text. */
  ghost predicate StringRoom(spec: FormatSpec, args: seq<Arg>, nullText: string, room: nat, rest: seq<Arg>) {
    exists width: int, left: bool, middle: seq<Arg> ::
      && WidthTaken(spec, args, width, left, middle)
      && match spec.precisionKind
         case PrecisionArg =>
           && rest == Behind(Behind(middle))
           && exists n: int ::
                && n >= 0 && TwosComplement(32, FirstBits(middle), n) && room == Max(width, n)
                && (n > 0 ==> Behind(middle) != [] && Behind(middle)[0].Text?)
         case PrecisionLiteral => rest == Behind(middle) && room == Max(width, Max(spec.precision, 0))
         case PrecisionNone =>
           rest == Behind(middle) && exists content: string ::
             LongestPrefix(content, StringArgument(middle, nullText), None) && room == Max(width, |content|)
  }

  /** The sizes of the header: room in front of the point, digits without a precision, buffer and largest precision. */
  ghost function FrontRoom(spec: FormatSpec, format: LongDouble): nat {
    match spec.conversion
    case 'f' => if spec.length == BigL then format.Max10Exp() + 8 else 312
    case 'F' => if spec.length == BigL then format.Max10Exp() + 8 else 312
    case 'e' => 8
    case 'E' => 8
    case _ => 32
  }

  ghost function HexRoom(spec: FormatSpec, format: LongDouble): nat { if spec.length == BigL then (format.MantDig() + 2) / 4 else 13 }

  ghost function LargestPrecision(spec: FormatSpec, format: LongDouble): nat {
    if spec.length == BigL then format.MantDig() - format.MinExp() else 1074
  }

  ghost function LargestRoom(spec: FormatSpec, format: LongDouble): nat {
    LargestPrecision(spec, format) + 8 + if spec.length == BigL then format.Max10Exp() + 8 else 312
  }

  ghost predicate FloatingRoom(spec: FormatSpec, args: seq<Arg>, format: LongDouble, room: nat, rest: seq<Arg>) {
    exists l: Layout ::
      && LaidOut(spec, args, l) && rest == Behind(l.args)
      && var places := PlacesOf(spec, l.precision);
         var body := FrontRoom(spec, format) + 8 + if places < 0 then HexRoom(spec, format) else places;
         && places <= LargestPrecision(spec, format) && body <= LargestRoom(spec, format)
         && room == Max(l.width, body + 1)
  }

  /** The estimator gives the conversion this room and leaves these arguments. */
  ghost predicate ConversionRoom(spec: FormatSpec, args: seq<Arg>, env: Environment, room: nat, rest: seq<Arg>) {
    if spec.conversion in "duoxXbB" then IntegerRoom(spec, args, room, rest)
    else if spec.conversion in "fFeEgGaA" then FloatingRoom(spec, args, env.longDouble, room, rest)
    else if spec.conversion == 'c' then FixedRoom(spec, args, 1, room, rest)
    else if spec.conversion == 's' then StringRoom(spec, args, env.nullText, room, rest)
    else if spec.conversion == 'p' then FixedRoom(spec, args, 18, room, rest)
    else if spec.conversion == 'n' then FirstBits(args) != 0 && room == 0 && rest == Behind(args)
    else spec.conversion == '%' && room == 1 && rest == args
  }

  // ---- integers ------------------------------------------------------------------------------------

  /** The table of the estimator has the digits of the largest magnitude, in every base and type. */
  lemma TableIsExact(spec: FormatSpec)
    requires IsInteger(spec.conversion)
    ensures MaxDigits(spec.conversion, BitsOf(spec.length)) == |NumberText(LargestMagnitude(spec), NamedBase(spec.conversion), false)|
  {
    hide NumberText;
    hide Pow;
    hide MaxDigits;
    var bits, n := BitsOf(spec.length), LargestMagnitude(spec);
    ModulusIsPower(bits);
    HalfModulus(bits);
    BasesAgree(spec.conversion);
    var digits := MaxDigits(spec.conversion, bits);
    MagnitudeBound(spec.conversion, bits, n);
    TableIsTight(spec.conversion, bits, n);
    NumberTextLength(n, NamedBase(spec.conversion), false, digits);
    NumberTextAtLeast(n, NamedBase(spec.conversion), false, digits - 1);
  }

  /** A number of at least base^k has more than k digits. */
  lemma {:induction false} NumberTextAtLeast(n: nat, base: nat, upper: bool, k: nat)
    requires IsBase(base) && n >= Pow(base, k)
    ensures |NumberText(n, base, upper)| > k
  {
    if k > 0 {
      AtLeastBase(base, k);
      DivGe(n, base, Pow(base, k - 1));
      NumberTextAtLeast(Quotient(n, base), base, upper, k - 1);
    }
  }

  lemma AtLeastBase(base: nat, k: nat)
    requires k > 0 && base > 1
    ensures Pow(base, k) >= base && Pow(base, k) == Pow(base, k - 1) * base
  {
    PowMono(base, 0, k - 1);
    MulMono(1, Pow(base, k - 1), base);
  }

  lemma TableIsTight(conversion: char, bits: nat, n: nat)
    requires IsInteger(conversion) && (bits == 8 || bits == 16 || bits == 32 || bits == 64)
    requires n == if conversion == 'd' then Pow(2, bits - 1) else Pow(2, bits) - 1
    ensures n >= Pow(NamedBase(conversion), MaxDigits(conversion, bits) - 1)
  {
    var k := MaxDigits(conversion, bits) - 1;
    ModulusIsPower(bits);
    HalfModulus(bits);
    if conversion == 'd' || conversion == 'u' {
      DecimalPowers();
    } else {
      var step := if conversion == 'o' then 3 else if conversion == 'x' || conversion == 'X' then 4 else 1;
      StepPower(step);
      PowPow(2, step, k);
      PowStrict(2, step * k, bits);
    }
  }

  lemma StepPower(step: nat)
    requires step == 1 || step == 3 || step == 4
    ensures Pow(2, step) == if step == 1 then 2 else if step == 3 then 8 else 16
  {
  }

  lemma DecimalPowers()
    ensures Pow(10, 2) == 100 && Pow(10, 4) == 1_0000 && Pow(10, 9) == 10_0000_0000
    ensures Pow(10, 18) == 100_0000_0000_0000_0000 && Pow(10, 19) == 1000_0000_0000_0000_0000
  {
    assert Pow(10, 2) == 100;
    assert Pow(10, 4) == 1_0000;
    PowAdd(10, 4, 5);
    assert Pow(10, 5) == 10_0000;
    PowAdd(10, 9, 9);
    assert Pow(10, 19) == 10 * Pow(10, 18);
  }

  lemma IntegerRoomIs(spec: FormatSpec, args: seq<Arg>, room: nat, rest: seq<Arg>)
    requires IsInteger(spec.conversion)
    ensures IntegerRoom(spec, args, room, rest) <==>
      LoadBoth(spec, args).Ok? && var l := LoadBoth(spec, args).value; room == IntegerEstimate(l.spec) && rest == Rest(l.args)
  {
    hide LoadBoth;
    hide LaidOut;
    hide WidthRefused;
    hide MaxDigits;
    hide NumberText;
    LoadedBoth(spec, args);
    TableIsExact(spec);
    if LoadBoth(spec, args).Ok? {
      var l := LoadBoth(spec, args).value;
      NextIs(l.args);
      SameMark(spec, l.spec);
      forall m: Layout | LaidOut(spec, args, m) ensures m == LayoutOf(l) { LaidOutUnique(spec, args, m, LayoutOf(l)); }
    } else {
      forall m: Layout | LaidOut(spec, args, m) ensures false { LaidOutUnique(spec, args, m, m); }
    }
  }

  lemma SameMark(spec: FormatSpec, loaded: FormatSpec)
    requires IsInteger(spec.conversion) && SameOtherwise(spec, loaded)
    ensures MaxPrefix(loaded) == MarkRoom(spec)
  {
  }

  // ---- the other kinds ---------------------------------------------------------------------------

  lemma FixedRoomIs(spec: FormatSpec, args: seq<Arg>, size: nat, room: nat, rest: seq<Arg>)
    ensures FixedRoom(spec, args, size, room, rest) <==>
      LoadWidth(spec, args).Ok? && var l := LoadWidth(spec, args).value; room == Max(size, l.spec.width) && rest == Rest(l.args)
  {
    hide LoadWidth;
    hide WidthTaken;
    hide WidthRefused;
    WidthIs(spec, args);
    if LoadWidth(spec, args).Ok? {
      var l := LoadWidth(spec, args).value;
      NextIs(l.args);
      assert WidthTaken(spec, args, l.spec.width, l.spec.flags.left, l.args);
    }
  }

  /** The width that is taken is the one that is loaded. */
  lemma WidthIs(spec: FormatSpec, args: seq<Arg>)
    ensures forall width: int, left: bool, middle: seq<Arg> :: WidthTaken(spec, args, width, left, middle) <==>
      LoadWidth(spec, args).Ok? && var l := LoadWidth(spec, args).value; width == l.spec.width && left == l.spec.flags.left && middle == l.args
  {
    hide LoadWidth;
    hide WidthTaken;
    hide WidthRefused;
    LoadedWidth(spec, args);
    forall width: int, left: bool, middle: seq<Arg> | WidthTaken(spec, args, width, left, middle)
      ensures LoadWidth(spec, args).Ok? && var l := LoadWidth(spec, args).value; width == l.spec.width && left == l.spec.flags.left && middle == l.args
    {
      WidthUnique(spec, args, width, left, middle, width, left, middle);
      var l := LoadWidth(spec, args).value;
      WidthUnique(spec, args, width, left, middle, l.spec.width, l.spec.flags.left, l.args);
    }
  }

  /** The prefix up to the terminator is as long as strlen says. */
  lemma LengthIs(content: string, text: string)
    ensures LongestPrefix(content, text, None) <==> content == text[..StrLen(text)]
  {
    var n := StrLen(text);
    if LongestPrefix(content, text, None) {
      if |content| < n { NoTerminatorAt(text, n, |content|); }
      if n < |content| { ByteIn(content, text, n); }
      assert content == text[..|content|];
    }
  }

  lemma NoTerminatorAt(text: string, n: nat, k: nat)
    requires k < n <= |text| && '\0' !in text[..n]
    ensures text[k] != '\0'
  {
    assert text[..n][k] == text[k];
  }

  lemma ByteIn(content: string, text: string, k: nat)
    requires content <= text && k < |content|
    ensures text[k] in content
  {
    assert content[k] == text[k];
  }

  lemma StringRoomIs(spec: FormatSpec, args: seq<Arg>, nullText: string, room: nat, rest: seq<Arg>)
    ensures StringRoom(spec, args, nullText, room, rest) <==>
      && LoadString(spec, args).Ok?
      && var l := LoadString(spec, args).value;
         var length := StringEstimate(Next(l.args), spec.precisionKind.PrecisionArg?, l.spec, nullText);
         length.Ok? && room == Max(length.value, l.spec.width) && rest == Rest(l.args)
  {
    hide LoadWidth;
    hide WidthTaken;
    hide TwosComplement;
    hide LongestPrefix;
    hide StrLen;
    WidthIs(spec, args);
    LoadedWidth(spec, args);
    if LoadWidth(spec, args).Ok? {
      var w := LoadWidth(spec, args).value;
      NextIs(w.args);
      NextIs(Behind(w.args));
      TextIs(w.args, nullText);
      TextIs(Behind(w.args), nullText);
      forall content: string ensures LongestPrefix(content, StringArgument(w.args, nullText), None)
                             <==> content == StringArgument(w.args, nullText)[..StrLen(StringArgument(w.args, nullText))] {
        LengthIs(content, StringArgument(w.args, nullText));
      }
      forall n: int | TwosComplement(32, FirstBits(w.args), n) ensures n == NextInt32(w.args) {
        TwosComplementUnique(32, FirstBits(w.args), n, NextInt32(w.args));
      }
    }
  }

  lemma SizesAre(spec: FormatSpec, format: LongDouble)
    requires IsFloat(spec.conversion)
    ensures FloatPrefix(spec, format) == FrontRoom(spec, format) && FloatLimit(spec, format) == LargestRoom(spec, format)
    ensures (if spec.length.BigL? then format.MaxHexDigits() else 13) == HexRoom(spec, format)
    ensures (if spec.length.BigL? then format.MaxDecimalPrecision() else DOUBLE_MAX_DECIMAL_PRECISION) == LargestPrecision(spec, format)
  {
  }

  lemma NeedsBoth(spec: FormatSpec, args: seq<Arg>, format: LongDouble)
    ensures LoadFloat(spec, args, format).Ok? ==> LoadBoth(spec, args).Ok?
  {
    hide LoadBoth;
  }

  lemma SameSizes(spec: FormatSpec, loaded: FormatSpec, format: LongDouble)
    requires loaded.conversion == spec.conversion && loaded.length == spec.length
    ensures FloatPrefix(loaded, format) == FloatPrefix(spec, format)
  {
  }

  lemma FloatingRoomIs(spec: FormatSpec, args: seq<Arg>, env: Environment, room: nat, rest: seq<Arg>)
    requires IsFloat(spec.conversion)
    ensures FloatingRoom(spec, args, env.longDouble, room, rest) <==>
      EstimateOf(spec, args, env) == Ok(Estimated(room, rest))
  {
    hide LoadBoth;
    hide LaidOut;
    hide WidthRefused;
    hide PlacesOf;
    hide FrontRoom;
    hide HexRoom;
    hide LargestPrecision;
    hide LargestRoom;
    hide FloatPrefix;
    hide FloatLimit;
    hide LoadFloat;
    LoadedBoth(spec, args);
    NeedsBoth(spec, args, env.longDouble);
    SizesAre(spec, env.longDouble);
    if LoadBoth(spec, args).Ok? {
      var b := LoadBoth(spec, args).value;
      NextIs(b.args);
      LoadedPlaces(spec, args, env.longDouble);
      if LoadFloat(spec, args, env.longDouble).Ok? { SameSizes(spec, LoadFloat(spec, args, env.longDouble).value.spec, env.longDouble); }
      forall m: Layout | LaidOut(spec, args, m) ensures m == LayoutOf(b) { LaidOutUnique(spec, args, m, LayoutOf(b)); }
    } else {
      forall m: Layout | LaidOut(spec, args, m) ensures false { LaidOutUnique(spec, args, m, m); }
    }
  }

  lemma LoadedPlaces(spec: FormatSpec, args: seq<Arg>, format: LongDouble)
    requires IsFloat(spec.conversion) && LoadBoth(spec, args).Ok?
    ensures var b, l := LoadBoth(spec, args).value, LoadFloat(spec, args, format);
            var places := PlacesOf(spec, LayoutOf(b).precision);
            && (l.Ok? <==> places <= if spec.length.BigL? then format.MaxDecimalPrecision() else DOUBLE_MAX_DECIMAL_PRECISION)
            && (l.Ok? ==> l.value.spec.precision == places && l.value.args == b.args && l.value.spec.width == b.spec.width
                          && l.value.spec.conversion == spec.conversion && l.value.spec.length == spec.length)
  {
    hide LoadBoth;
    LettersAre(spec.conversion);
    LoadedBoth(spec, args);
  }

  /** For every conversion: the estimator gives exactly that room, and fails exactly when there is none. */
  lemma EstimateIsRoom(spec: FormatSpec, args: seq<Arg>, env: Environment, room: nat, rest: seq<Arg>)
    ensures EstimateOf(spec, args, env) == Ok(Estimated(room, rest)) <==> ConversionRoom(spec, args, env, room, rest)
  {
    hide LoadBoth;
    hide LoadWidth;
    hide LoadString;
    hide LoadFloat;
    hide StringEstimate;
    hide IntegerEstimate;
    hide IntegerRoom;
    hide FixedRoom;
    hide StringRoom;
    hide FloatingRoom;
    KindsAre(spec.conversion);
    if IsInteger(spec.conversion) {
      IntegerRoomIs(spec, args, room, rest);
    } else if IsFloat(spec.conversion) {
      FloatingRoomIs(spec, args, env, room, rest);
    } else if spec.conversion == 'c' {
      FixedRoomIs(spec, args, 1, room, rest);
    } else if spec.conversion == 's' {
      StringRoomIs(spec, args, env.nullText, room, rest);
    } else if spec.conversion == 'p' {
      FixedRoomIs(spec, args, 18, room, rest);
    } else {
      NextIs(args);
    }
  }

  // ---- whole formats ---------------------------------------------------------------------------

  ghost function Sum(rooms: seq<nat>): nat { if rooms == [] then 0 else rooms[0] + Sum(rooms[1..]) }

  ghost function LiteralLength(segments: seq<Segment>): nat {
    if segments == [] then 0 else |segments[0].literal| + LiteralLength(segments[1..])
  }

  /** Every conversion has its room, each taking its arguments from where the one before left off. */
  ghost predicate RoomsOf(segments: seq<Segment>, args: seq<Arg>, env: Environment, rooms: seq<nat>)
    decreases |segments|
  {
    && |rooms| == |segments|
    && (segments != [] ==> exists rest: seq<Arg> ::
          ConversionRoom(segments[0].spec, args, env, rooms[0], rest) && RoomsOf(segments[1..], rest, env, rooms[1..]))
  }

  /** The literals and the rooms of the conversions sum up to the estimate, which fits an int32. */
  ghost predicate Estimates(total: nat, segments: seq<Segment>, tail: string, args: seq<Arg>, env: Environment, n: nat) {
    n <= INT32_MAX && exists rooms: seq<nat> ::
      RoomsOf(segments, args, env, rooms) && n == total + LiteralLength(segments) + |tail| + Sum(rooms)
  }

  lemma NoRooms(args: seq<Arg>, env: Environment)
    ensures RoomsOf([], args, env, []) && LiteralLength([]) == 0 && Sum([]) == 0
    ensures forall rooms: seq<nat> :: RoomsOf([], args, env, rooms) ==> rooms == []
  {
  }

  /** One conversion in front. */
  lemma RoomInFront(segments: seq<Segment>, args: seq<Arg>, env: Environment, room: nat, rest: seq<Arg>, rooms: seq<nat>)
    requires segments != [] && ConversionRoom(segments[0].spec, args, env, room, rest) && RoomsOf(segments[1..], rest, env, rooms)
    ensures RoomsOf(segments, args, env, [room] + rooms) && Sum([room] + rooms) == room + Sum(rooms)
  {
    hide ConversionRoom;
    assert ([room] + rooms)[1..] == rooms;
  }

  lemma FirstRoom(segments: seq<Segment>, args: seq<Arg>, env: Environment, rooms: seq<nat>)
    requires segments != [] && RoomsOf(segments, args, env, rooms)
    ensures var e := EstimateOf(segments[0].spec, args, env);
            && rooms != [] && e.Ok? && e.value.length == rooms[0] && Sum(rooms) == rooms[0] + Sum(rooms[1..])
            && RoomsOf(segments[1..], e.value.args, env, rooms[1..])
  {
    hide ConversionRoom;
    hide EstimateOf;
    var rest: seq<Arg> :| ConversionRoom(segments[0].spec, args, env, rooms[0], rest) && RoomsOf(segments[1..], rest, env, rooms[1..]);
    EstimateIsRoom(segments[0].spec, args, env, rooms[0], rest);
  }

  /** An estimate is given exactly when every conversion has room and everything together fits an int32. */
  lemma {:induction false} EstimateIsSum(total: nat, segments: seq<Segment>, tail: string, args: seq<Arg>, env: Environment, n: nat)
    ensures EstimateFrom(total, segments, tail, args, env) == Ok(n) <==> Estimates(total, segments, tail, args, env, n)
    decreases |segments|
  {
    hide EstimateOf;
    hide ConversionRoom;
    hide RoomsOf;
    if segments == [] {
      NoRooms(args, env);
    } else {
      if EstimateFrom(total, segments, tail, args, env) == Ok(n) { SumOfEstimate(total, segments, tail, args, env, n); }
      if Estimates(total, segments, tail, args, env, n) { EstimateOfSum(total, segments, tail, args, env, n); }
    }
  }

  lemma {:induction false} SumOfEstimate(total: nat, segments: seq<Segment>, tail: string, args: seq<Arg>, env: Environment, n: nat)
    requires segments != [] && EstimateFrom(total, segments, tail, args, env) == Ok(n)
    ensures Estimates(total, segments, tail, args, env, n)
    decreases |segments|, 0
  {
    hide EstimateOf;
    hide ConversionRoom;
    hide RoomsOf;
    var e := EstimateOf(segments[0].spec, args, env).value;
    EstimateIsRoom(segments[0].spec, args, env, e.length, e.args);
    var next := total + |segments[0].literal| + e.length;
    EstimateIsSum(next, segments[1..], tail, e.args, env, n);
    var rooms: seq<nat> :| RoomsOf(segments[1..], e.args, env, rooms) && n == next + LiteralLength(segments[1..]) + |tail| + Sum(rooms);
    RoomInFront(segments, args, env, e.length, e.args, rooms);
  }

  lemma {:induction false} EstimateOfSum(total: nat, segments: seq<Segment>, tail: string, args: seq<Arg>, env: Environment, n: nat)
    requires segments != [] && Estimates(total, segments, tail, args, env, n)
    ensures EstimateFrom(total, segments, tail, args, env) == Ok(n)
    decreases |segments|, 0
  {
    hide EstimateOf;
    hide ConversionRoom;
    hide RoomsOf;
    var rooms: seq<nat> :| RoomsOf(segments, args, env, rooms) && n == total + LiteralLength(segments) + |tail| + Sum(rooms);
    FirstRoom(segments, args, env, rooms);
    var e := EstimateOf(segments[0].spec, args, env).value;
    var next := total + |segments[0].literal| + e.length;
    assert Estimates(next, segments[1..], tail, e.args, env, n);
    EstimateIsSum(next, segments[1..], tail, e.args, env, n);
  }

  /** The estimate of a format: it parses, and its segments have that estimate. */
  ghost predicate FormatEstimates(format: string, args: seq<Arg>, env: Environment, n: nat) {
    SegmentsFrom(format, 0).Ok?
    && Estimates(0, SegmentsFrom(format, 0).value.specs, SegmentsFrom(format, 0).value.tail, args, env, n)
  }

  /** Without a percent sign the format is printed as it is. */
  lemma PlainFormat(format: string, args: seq<Arg>, env: Environment)
    requires '%' !in format && |format| <= INT32_MAX
    ensures SegmentsFrom(format, 0) == Ok(Segments([], format)) && FormatEstimates(format, args, env, |format|)
  {
    NoRooms(args, env);
    assert format[0..] == format;
    assert NextPercent(format, 0) == |format|;
    assert Estimates(0, [], format, args, env, |format|);
  }
}
