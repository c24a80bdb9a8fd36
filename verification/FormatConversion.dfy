/**
 One conversion of the formatter (cbase/fmt.c): the estimator and the executor load the same arguments,
 and what the executor writes is never longer than the estimate.
 */
module FormatConversion {
  import opened Powers
  import opened Results
  import opened IntegerText
  import opened BinaryFloat
  import opened RyuTexts
  import opened FormatFloats
  import opened FormatSink
  import opened FormatSpec
  import opened FormatInteger
  import opened FormatIntegerFacts

  // ---- arguments ------------------------------------------------------------------------

  function Next(args: seq<Arg>): Arg {
    if args == [] then NullText else args[0]
  }

  function Rest(args: seq<Arg>): seq<Arg> {
    if args == [] then [] else args[1..]
  }

  function Raw(arg: Arg): nat {
    match arg
    case Word32(bits) => bits
    case Word64(bits) => bits
    case Address(address) => address
    case _ => 0
  }

  function NextInt32(args: seq<Arg>): int { SignedValue(32, Raw(Next(args))) }

  const INT32_MIN: int := -0x8000_0000

  datatype Loaded = Loaded(spec: FormatSpec, args: seq<Arg>)

  /** fmt_load_dynamic_width: a negative width means left-justified. */
  function LoadWidth(spec: FormatSpec, args: seq<Arg>): Result<Loaded> {
    if spec.widthKind.WidthArg? then
      var width := NextInt32(args);
      if width == INT32_MIN then Err(EOVERFLOW)
      else if width < 0 then
        Ok(Loaded(spec.(flags := spec.flags.(left := true), width := -width, widthKind := WidthLiteral), Rest(args)))
      else Ok(Loaded(spec.(width := width, widthKind := WidthLiteral), Rest(args)))
    else Ok(Loaded(spec, args))
  }

  /** fmt_load_dynamic_width_precision: a negative precision means none. */
  function LoadBoth(spec: FormatSpec, args: seq<Arg>): Result<Loaded> {
    var l :- LoadWidth(spec, args);
    if spec.precisionKind.PrecisionArg? then
      var precision := NextInt32(l.args);
      if precision < 0 then Ok(Loaded(l.spec.(precision := 0, precisionKind := PrecisionNone), Rest(l.args)))
      else Ok(Loaded(l.spec.(precision := precision, precisionKind := PrecisionLiteral), Rest(l.args)))
    else Ok(l)
  }

  /** fmt_load_float_width_precision, and precision 1 in place of 0 for the general style. */
  function LoadFloat(spec: FormatSpec, args: seq<Arg>, format: LongDouble): Result<Loaded> {
    var l :- LoadBoth(spec, args);
    var precision :=
      if HasPrecision(l.spec) then l.spec.precision else if IsHex(spec.conversion) then -1 else 6;
    var kind := if !HasPrecision(l.spec) && !IsHex(spec.conversion) then PrecisionLiteral else l.spec.precisionKind;
    var most := if spec.length.BigL? then format.MaxDecimalPrecision() else DOUBLE_MAX_DECIMAL_PRECISION;
    if precision > most then Err(ERANGE)
    else
      var used := if IsGeneral(spec.conversion) && precision == 0 then 1 else precision;
      Ok(Loaded(l.spec.(precision := used, precisionKind := kind), l.args))
  }

  // ---- strings ---------------------------------------------------------------------------

  /** strlen32: where the first terminator stands. */
  function StrLen(bytes: string): (n: nat)
    ensures n <= |bytes| && '\0' !in bytes[..n] && (n < |bytes| ==> bytes[n] == '\0')
  {
    if bytes == [] || bytes[0] == '\0' then 0
    else
      var n := StrLen(bytes[1..]);
      assert bytes[..n + 1] == [bytes[0]] + bytes[1..][..n];
      n + 1
  }

  function AtMost(bytes: string, n: int): (s: string)
    ensures |s| <= Max(n, 0) && s <= bytes
  {
    if n <= 0 then "" else if n <= |bytes| then bytes[..n] else bytes
  }

  /** The bytes `%s` writes: exactly as many as a dynamic precision says, otherwise up to the terminator. */
  function StringBytes(arg: Arg, exact: bool, spec: FormatSpec, nullText: string): Result<string> {
    if exact then
      match arg
      case Text(bytes) => Ok(AtMost(bytes, spec.precision))
      case _ => if spec.precision > 0 then Err(EINVAL) else Ok("")
    else
      var bytes := match arg case Text(bytes) => bytes case _ => nullText;
      var text := bytes[..StrLen(bytes)];
      Ok(if HasPrecision(spec) then AtMost(text, spec.precision) else text)
  }

  // ---- the pieces of the other fields --------------------------------------------------------

  /** fmt_write_padded_bytes */
  function PaddedPieces(spec: FormatSpec, data: string): (pieces: seq<string>)
    ensures |pieces| == 3
  {
    var spaces := Copies(' ', PadLength(spec.width, |data|));
    [if spec.flags.left then "" else spaces, data, if spec.flags.left then spaces else ""]
  }

  lemma PaddedLength(spec: FormatSpec, data: string)
    ensures |Joined(PaddedPieces(spec, data))| == Max(|data|, spec.width)
  {
    var p := PaddedPieces(spec, data);
    JoinFrom(p, 0);
    JoinFrom(p, 1);
    JoinFrom(p, 2);
    JoinNone(p);
    assert p[0..] == p;
  }

  /** A pointer is its address in base 16, always marked. */
  ghost function PointerPieces(spec: FormatSpec, address: nat): seq<string> {
    var digits := NumberText(address, 16, false);
    Field(spec.flags.left, PadLength(spec.width, 2 + |digits|), "0x", 0, 0, digits)
  }

  function Sign(spec: FormatSpec, negative: bool): (s: string)
    ensures |s| <= 1
  {
    if negative then "-" else if spec.flags.sign then "+" else if spec.flags.space then " " else ""
  }

  /** How much of a hexadecimal body is its mark. */
  function MarkLength(spec: FormatSpec, body: string): (n: nat)
    ensures n <= |body| && n <= 2
  {
    if IsHex(spec.conversion) && |body| >= 2 && body[0] == '0' && (body[1] == 'x' || body[1] == 'X') then 2 else 0
  }

  /** fmt_write_float_sign */
  function FloatPieces(spec: FormatSpec, sign: string, body: string): (pieces: seq<string>)
    ensures |pieces| == 6
  {
    var inner := |sign| + |body|;
    var zeroPad := if spec.flags.zero && !spec.flags.left then PadLength(spec.width, inner) else 0;
    var spaces := PadLength(spec.width, inner + zeroPad);
    var mark := MarkLength(spec, body);
    FloatField(spec.flags.left, spaces, sign, body[..mark], zeroPad, body[mark..])
  }

  function FloatField(left: bool, spaces: nat, sign: string, mark: string, zeroPad: nat, rest: string): (pieces: seq<string>)
    ensures |pieces| == 6
  {
    [if left then "" else Copies(' ', spaces), sign, mark, Copies('0', zeroPad), rest, if left then Copies(' ', spaces) else ""]
  }

  lemma FloatLength(spec: FormatSpec, sign: string, body: string)
    ensures |Joined(FloatPieces(spec, sign, body))| == Max(|sign| + |body|, spec.width)
  {
    JoinSix(FloatPieces(spec, sign, body));
  }

  // ---- what a conversion does -----------------------------------------------------------------

  datatype Action = Write(pieces: seq<string>) | Store(address: nat, length: Length)

  datatype Planned = Planned(action: Action, args: seq<Arg>)

  /** The branches of fmt_execute_spec: what is written or stored, and the arguments that are left. */
  ghost function ActionOf(spec: FormatSpec, args: seq<Arg>, env: Environment): Result<Planned> {
    if IsInteger(spec.conversion) then
      var l :- LoadBoth(spec, args);
      Ok(Planned(Write(IntegerPieces(l.spec, ReadValue(l.spec, Raw(Next(l.args))))), Rest(l.args)))
    else if spec.conversion == 'c' then
      var l :- LoadWidth(spec, args);
      Ok(Planned(Write(PaddedPieces(l.spec, [(Raw(Next(l.args)) % 256) as char])), Rest(l.args)))
    else if spec.conversion == 's' then StringAction(spec, args, env)
    else if spec.conversion == 'p' then
      var l :- LoadWidth(spec, args);
      Ok(Planned(Write(PointerPieces(l.spec, Raw(Next(l.args)) % Modulus(64))), Rest(l.args)))
    else if spec.conversion == 'n' then Ok(Planned(Store(Raw(Next(args)), spec.length), Rest(args)))
    else if IsFloat(spec.conversion) then
      var l :- LoadFloat(spec, args, env.longDouble);
      var body :- FloatBody(l.spec, Next(l.args), env);
      Ok(Planned(Write(FloatPieces(l.spec, Sign(l.spec, FloatNegative(l.spec, Next(l.args), env)), body)), Rest(l.args)))
    else if spec.conversion == '%' then Ok(Planned(Write(["%"]), args))
    else Err(ENOSYS)
  }

  function LoadString(spec: FormatSpec, args: seq<Arg>): Result<Loaded> {
    var l :- LoadWidth(spec, args);
    if spec.precisionKind.PrecisionArg? then
      var precision := NextInt32(l.args);
      if precision < 0 then Err(EINVAL)
      else Ok(Loaded(l.spec.(precision := precision, precisionKind := PrecisionLiteral), Rest(l.args)))
    else Ok(l)
  }

  function StringAction(spec: FormatSpec, args: seq<Arg>, env: Environment): Result<Planned> {
    var l :- LoadString(spec, args);
    var bytes :- StringBytes(Next(l.args), spec.precisionKind.PrecisionArg?, l.spec, env.nullText);
    Ok(Planned(Write(PaddedPieces(l.spec, bytes)), Rest(l.args)))
  }

  // ---- the estimate -----------------------------------------------------------------------------

  datatype Estimated = Estimated(length: nat, args: seq<Arg>)

  /** fmt_estimate_spec */
  function EstimateOf(spec: FormatSpec, args: seq<Arg>, env: Environment): Result<Estimated> {
    if IsInteger(spec.conversion) then
      var l :- LoadBoth(spec, args);
      Ok(Estimated(IntegerEstimate(l.spec), Rest(l.args)))
    else if spec.conversion == 'c' then
      var l :- LoadWidth(spec, args);
      Ok(Estimated(Max(1, l.spec.width), Rest(l.args)))
    else if spec.conversion == 's' then
      var l :- LoadString(spec, args);
      var length :- StringEstimate(Next(l.args), spec.precisionKind.PrecisionArg?, l.spec, env.nullText);
      Ok(Estimated(Max(length, l.spec.width), Rest(l.args)))
    else if spec.conversion == 'p' then
      var l :- LoadWidth(spec, args);
      Ok(Estimated(Max(18, l.spec.width), Rest(l.args)))
    else if spec.conversion == 'n' then
      if Raw(Next(args)) == 0 then Err(EINVAL) else Ok(Estimated(0, Rest(args)))
    else if IsFloat(spec.conversion) then
      var l :- LoadFloat(spec, args, env.longDouble);
      var room := FloatRoom(l.spec, env.longDouble);
      if room > FloatLimit(spec, env.longDouble) then Err(EOVERFLOW)
      else Ok(Estimated(Max(Max(room + 1, l.spec.width), 0), Rest(l.args)))
    else if spec.conversion == '%' then Ok(Estimated(1, args))
    else Err(ENOSYS)
  }

  function StringEstimate(arg: Arg, exact: bool, spec: FormatSpec, nullText: string): Result<nat> {
    if exact then if !arg.Text? && spec.precision > 0 then Err(EINVAL) else Ok(Max(spec.precision, 0))
    else if HasPrecision(spec) then Ok(Max(spec.precision, 0))
    else Ok(StrLen(match arg case Text(bytes) => bytes case _ => nullText))
  }

  /** Where the estimator accepts a conversion, the executor writes no more than estimated and takes the same arguments. */
  ghost predicate Bounded(spec: FormatSpec, args: seq<Arg>, env: Environment) {
    var estimate := EstimateOf(spec, args, env);
    var does := ActionOf(spec, args, env);
    estimate.Ok? && does.Ok? ==>
      && does.value.args == estimate.value.args
      && (does.value.action.Write? ==> |Joined(does.value.action.pieces)| <= estimate.value.length)
  }

  lemma EstimateBounds(spec: FormatSpec, args: seq<Arg>, env: Environment)
    requires RyuBounded(env.ryu)
    ensures Bounded(spec, args, env)
  {
    if IsInteger(spec.conversion) {
      IntegerBounded(spec, args, env);
    } else if spec.conversion == 's' {
      StringBounded(spec, args, env);
    } else if spec.conversion == 'c' {
      CharBounded(spec, args, env);
    } else if spec.conversion == 'p' {
      PointerBounded(spec, args, env);
    } else if IsFloat(spec.conversion) {
      FloatBounded(spec, args, env);
    } else if spec.conversion == '%' {
      JoinOne("%");
    }
  }

  lemma JoinOne(s: string)
    ensures Joined([s]) == s
  {
    assert [s][1..] == [];
    assert s + "" == s;
  }

  lemma LoadKeepsKind(spec: FormatSpec, args: seq<Arg>, format: LongDouble)
    ensures LoadWidth(spec, args).Ok? ==> var s := LoadWidth(spec, args).value.spec; s.conversion == spec.conversion
    ensures LoadBoth(spec, args).Ok? ==> var s := LoadBoth(spec, args).value.spec; s.conversion == spec.conversion
    ensures LoadFloat(spec, args, format).Ok? ==>
      var s := LoadFloat(spec, args, format).value.spec; s.conversion == spec.conversion && s.length == spec.length
  {
  }

  lemma IntegerBounded(spec: FormatSpec, args: seq<Arg>, env: Environment)
    requires IsInteger(spec.conversion)
    ensures Bounded(spec, args, env)
  {
    hide Joined;
    LoadKeepsKind(spec, args, env.longDouble);
    var l := LoadBoth(spec, args);
    if l.Ok? { IntegerEstimateBounds(l.value.spec, Raw(Next(l.value.args))); }
  }

  lemma CharBounded(spec: FormatSpec, args: seq<Arg>, env: Environment)
    requires spec.conversion == 'c'
    ensures Bounded(spec, args, env)
  {
    hide Joined;
    var l := LoadWidth(spec, args);
    if l.Ok? { PaddedLength(l.value.spec, [(Raw(Next(l.value.args)) % 256) as char]); }
  }

  lemma StringBounded(spec: FormatSpec, args: seq<Arg>, env: Environment)
    requires spec.conversion == 's'
    ensures Bounded(spec, args, env)
  {
    hide Joined;
    var l := LoadString(spec, args);
    if l.Ok? {
      var bytes := StringBytes(Next(l.value.args), spec.precisionKind.PrecisionArg?, l.value.spec, env.nullText);
      if bytes.Ok? { PaddedLength(l.value.spec, bytes.value); }
    }
  }

  lemma PointerBounded(spec: FormatSpec, args: seq<Arg>, env: Environment)
    requires spec.conversion == 'p'
    ensures Bounded(spec, args, env)
  {
    hide Joined;
    var l := LoadWidth(spec, args);
    if l.Ok? { PointerLength(l.value.spec, Raw(Next(l.value.args)) % Modulus(64)); }
  }

  lemma PointerLength(spec: FormatSpec, address: nat)
    requires address < Modulus(64)
    ensures |Joined(PointerPieces(spec, address))| <= Max(18, spec.width)
  {
    TwoTo64();
    PowPow(2, 4, 16);
    assert Pow(2, 4) == 16;
    NumberTextLength(address, 16, false, 16);
    JoinSix(PointerPieces(spec, address));
  }

  lemma FloatBounded(spec: FormatSpec, args: seq<Arg>, env: Environment)
    requires IsFloat(spec.conversion) && RyuBounded(env.ryu)
    ensures Bounded(spec, args, env)
  {
    hide LoadBoth;
    hide Joined;
    hide FloatBody;
    hide FloatPieces;
    hide FloatNegative;
    hide RyuBounded;
    LoadKeepsKind(spec, args, env.longDouble);
    var l := LoadFloat(spec, args, env.longDouble);
    if l.Ok? {
      var arg := Next(l.value.args);
      FloatBodyFits(l.value.spec, arg, env);
      var body := FloatBody(l.value.spec, arg, env);
      if body.Ok? { FloatLength(l.value.spec, Sign(l.value.spec, FloatNegative(l.value.spec, arg, env)), body.value); }
    }
  }
}
