/** The executor of one conversion (fmt_execute_spec in cbase/fmt.c), proved against what the conversion does. */
module FormatExecute {
  import opened Powers
  import opened Results
  import opened IntegerText
  import opened Words
  import opened BinaryFloat
  import opened FormatFloats
  import opened FormatSink
  import opened FormatSpec
  import opened FormatInteger
  import opened FormatConversion
  import opened FormatArguments
  import opened FormatMeaning

  /** A count written through a `%n` pointer. */
  datatype Stored = Stored(address: nat, count: nat)

  /** What a conversion leaves: the stream, the remaining arguments or an error, and the counts it stored. */
  datatype Outcome = Outcome(stream: Stream, result: Result<seq<Arg>>, stores: seq<Stored>)

  function StoreLimit(length: Length): nat {
    match length
    case HH => 0x7F
    case W8 => 0x7F
    case H => 0x7FFF
    case W16 => 0x7FFF
    case LL => 0x7FFF_FFFF_FFFF_FFFF
    case W64 => 0x7FFF_FFFF_FFFF_FFFF
    case _ => INT32_MAX
  }

  /** The largest value of the signed type a count goes to. */
  lemma StoreLimitIs(length: Length)
    ensures StoreLimit(length) == Pow(2, BitsOf(length) - 1) - 1
  {
    hide Pow;
    CountPowers();
  }

  lemma CountPowers()
    ensures Pow(2, 7) == 0x80 && Pow(2, 15) == 0x8000 && Pow(2, 31) == 0x8000_0000 && Pow(2, 63) == 0x8000_0000_0000_0000
  {
    SmallModuli();
    TwoTo64();
    BaseIsTwoTo32();
    hide Pow;
    HalfPower(8);
    HalfPower(16);
    HalfPower(32);
    HalfPower(64);
  }

  lemma HalfPower(n: nat)
    requires n > 0
    ensures 2 * Pow(2, n - 1) == Pow(2, n)
  {
  }

  /** fmt_store_count: the overflow of the target type is found before a NULL pointer. */
  function StoreStatus(length: Length, count: nat, address: nat): Result<()> {
    if count > StoreLimit(length) then Err(EOVERFLOW) else if address == 0 then Err(EINVAL) else Ok(())
  }

  ghost function Executed(s: Stream, writeCount: bool, spec: FormatSpec, args: seq<Arg>, env: Environment): Outcome {
    match ActionOf(spec, args, env)
    case Err(errno) => Outcome(s, Err(errno), [])
    case Ok(Planned(Write(pieces), rest)) =>
      var after := PutAll(s, pieces);
      Outcome(after, if after.overflow then Err(EOVERFLOW) else Ok(rest), [])
    case Ok(Planned(Store(address, length), rest)) =>
      if s.overflow then Outcome(s, Err(EOVERFLOW), [])
      else
        match StoreStatus(length, |s.text|, address)
        case Err(errno) => Outcome(s, Err(errno), [])
        case Ok(_) => Outcome(s, Ok(rest), if writeCount then [Stored(address, |s.text|)] else [])
  }

  /** A conversion that succeeds has appended what it is to show. */
  lemma ExecutedShows(s: Stream, writeCount: bool, spec: FormatSpec, args: seq<Arg>, env: Environment)
    requires |s.text| <= INT32_MAX && spec.conversion != 'n'
    ensures var done := Executed(s, writeCount, spec, args, env);
            done.result.Ok? ==>
              s.text <= done.stream.text && ConversionShown(spec, args, env, done.stream.text[|s.text|..], done.result.value)
  {
    hide ActionOf;
    hide ConversionShown;
    OnlyCountsStore(spec, args, env);
    var does := ActionOf(spec, args, env);
    if does.Ok? {
      ActionShows(spec, args, env);
      PutAllWhole(s, does.value.action.pieces);
      var text := Joined(does.value.action.pieces);
      assert (s.text + text)[|s.text|..] == text;
    }
  }

  lemma OnlyCountsStore(spec: FormatSpec, args: seq<Arg>, env: Environment)
    ensures ActionOf(spec, args, env).Ok? && spec.conversion != 'n' ==> ActionOf(spec, args, env).value.action.Write?
  {
    hide LoadBoth;
    hide LoadWidth;
    hide LoadFloat;
    hide FloatBody;
    hide IntegerPieces;
    hide ReadValue;
    hide PointerPieces;
    hide PaddedPieces;
    hide FloatPieces;
  }

  /** Sizes the code asserts for every write. */
  ghost predicate Sized(args: seq<Arg>) {
    forall i :: 0 <= i < |args| && args[i].Text? ==> |args[i].bytes| < INT32_MAX
  }

  ghost predicate EnvironmentSized(env: Environment) {
    |env.nullText| < INT32_MAX
  }

  /** fmt_write_padded_bytes */
  method WritePadded(sink: FormatSink, spec: FormatSpec, data: string)
    requires sink.Valid() && |data| < INT32_MAX
    requires sink.unchecked ==> |PutAll(sink.stream, PaddedPieces(spec, data)).text| < sink.capacity
    modifies sink`written, sink`total, sink`failed, sink`stream, sink.buffer
    ensures sink.Valid() && sink.stream == PutAll(old(sink.stream), PaddedPieces(spec, data))
    ensures sink.buffer[sink.capacity..] == old(sink.buffer[sink.capacity..])
  {
    hide PutAll;
    ghost var pieces := PaddedPieces(spec, data);
    ghost var target := PutAll(sink.stream, pieces);
    var spaces := PadLength(spec.width, |data|);
    assert pieces[0..] == pieces;
    WriteSpaces(sink, !spec.flags.left, spaces, pieces, 0, target);
    WritePiece(sink, data, pieces, 1, target);
    WriteSpaces(sink, spec.flags.left, spaces, pieces, 2, target);
    PutNone(sink.stream, pieces);
  }

  lemma FloatFieldPieces(left: bool, spaces: nat, sign: string, mark: string, zeroPad: nat, rest: string)
    ensures var pieces := FloatField(left, spaces, sign, mark, zeroPad, rest);
            && |pieces| == 6 && pieces[0..] == pieces
            && pieces[0] == (if !left then Copies(' ', spaces) else "") && pieces[5] == (if left then Copies(' ', spaces) else "")
            && pieces[1] == sign && pieces[2] == mark && pieces[3] == Copies('0', zeroPad) && pieces[4] == rest
  {
  }

  /** The six writes of a floating point field. */
  method WriteFloatField(sink: FormatSink, left: bool, spaces: nat, sign: string, mark: string, zeroPad: nat, rest: string)
    requires sink.Valid() && |sign| <= 1 && |mark| <= 2 && |rest| < INT32_MAX
    requires sink.unchecked ==>
      |PutAll(sink.stream, FloatField(left, spaces, sign, mark, zeroPad, rest)).text| < sink.capacity
    modifies sink`written, sink`total, sink`failed, sink`stream, sink.buffer
    ensures sink.Valid() && sink.stream == PutAll(old(sink.stream), FloatField(left, spaces, sign, mark, zeroPad, rest))
    ensures sink.buffer[sink.capacity..] == old(sink.buffer[sink.capacity..])
  {
    hide PutAll;
    hide FloatField;
    FloatFieldPieces(left, spaces, sign, mark, zeroPad, rest);
    ghost var pieces := FloatField(left, spaces, sign, mark, zeroPad, rest);
    ghost var target := PutAll(sink.stream, pieces);
    WriteSpaces(sink, !left, spaces, pieces, 0, target);
    WritePiece(sink, sign, pieces, 1, target);
    WritePiece(sink, mark, pieces, 2, target);
    WriteCopies(sink, '0', zeroPad, pieces, 3, target);
    WritePiece(sink, rest, pieces, 4, target);
    WriteSpaces(sink, left, spaces, pieces, 5, target);
    PutNone(sink.stream, pieces);
  }

  /** fmt_write_float_sign */
  method WriteFloat(sink: FormatSink, spec: FormatSpec, sign: string, body: string)
    requires sink.Valid() && |sign| <= 1 && |body| < INT32_MAX
    requires sink.unchecked ==> |PutAll(sink.stream, FloatPieces(spec, sign, body)).text| < sink.capacity
    modifies sink`written, sink`total, sink`failed, sink`stream, sink.buffer
    ensures sink.Valid() && sink.stream == PutAll(old(sink.stream), FloatPieces(spec, sign, body))
    ensures sink.buffer[sink.capacity..] == old(sink.buffer[sink.capacity..])
  {
    hide PutAll;
    hide FloatField;
    var inner := |sign| + |body|;
    var zeroPad := if spec.flags.zero && !spec.flags.left then PadLength(spec.width, inner) else 0;
    var mark := MarkLength(spec, body);
    WriteFloatField(sink, spec.flags.left, PadLength(spec.width, inner + zeroPad), sign, body[..mark], zeroPad, body[mark..]);
  }

  /** The pointer branch. */
  method WritePointer(sink: FormatSink, spec: FormatSpec, address: nat)
    requires sink.Valid() && address < 0x1_0000_0000_0000_0000
    requires sink.unchecked ==> |PutAll(sink.stream, PointerPieces(spec, address)).text| < sink.capacity
    modifies sink`written, sink`total, sink`failed, sink`stream, sink.buffer
    ensures sink.Valid() && sink.stream == PutAll(old(sink.stream), PointerPieces(spec, address))
    ensures sink.buffer[sink.capacity..] == old(sink.buffer[sink.capacity..])
  {
    hide PutAll;
    hide Field;
    var buffer := new char[64];
    var len := IntegerDigits(buffer, address, 16, false);
    WriteField(sink, spec.flags.left, PadLength(spec.width, 2 + len), "0x", 0, 0, buffer[..len]);
  }

  /** The bytes `%s` writes are no longer than what they come from. */
  lemma StringSized(arg: Arg, exact: bool, spec: FormatSpec, nullText: string)
    requires |nullText| < INT32_MAX && (arg.Text? ==> |arg.bytes| < INT32_MAX)
    ensures var bytes := StringBytes(arg, exact, spec, nullText); bytes.Ok? ==> |bytes.value| < INT32_MAX
  {
  }

  lemma NextSized(args: seq<Arg>)
    requires Sized(args)
    ensures Sized(Rest(args)) && (Next(args).Text? ==> |Next(args).bytes| < INT32_MAX)
  {
    var rest := Rest(args);
    forall i | 0 <= i < |rest| && rest[i].Text? ensures |rest[i].bytes| < INT32_MAX {
      assert rest[i] == args[i + 1];
    }
  }

  lemma LoadedSized(spec: FormatSpec, args: seq<Arg>, format: LongDouble)
    requires Sized(args)
    ensures LoadWidth(spec, args).Ok? ==> Sized(LoadWidth(spec, args).value.args)
    ensures LoadBoth(spec, args).Ok? ==> Sized(LoadBoth(spec, args).value.args)
    ensures LoadString(spec, args).Ok? ==> Sized(LoadString(spec, args).value.args)
    ensures LoadFloat(spec, args, format).Ok? ==> Sized(LoadFloat(spec, args, format).value.args)
  {
    hide Sized;
    NextSized(args);
    NextSized(Rest(args));
  }

  lemma TextLimit(sink: FormatSink)
    requires sink.Valid()
    ensures |sink.stream.text| <= INT32_MAX
  {
  }

  method ExecuteString(sink: FormatSink, spec: FormatSpec, args: seq<Arg>, env: Environment) returns (r: Result<seq<Arg>>)
    requires sink.Valid() && Sized(args) && EnvironmentSized(env) && spec.conversion == 's'
    requires sink.unchecked ==> |Executed(sink.stream, sink.writeCount, spec, args, env).stream.text| < sink.capacity
    modifies sink`written, sink`total, sink`failed, sink`stream, sink.buffer
    ensures sink.Valid() && Outcome(sink.stream, r, []) == Executed(old(sink.stream), sink.writeCount, spec, args, env)
    ensures sink.buffer[sink.capacity..] == old(sink.buffer[sink.capacity..])
    ensures r.Ok? ==>
      old(sink.stream.text) <= sink.stream.text
      && StringShown(spec, args, env.nullText, sink.stream.text[|old(sink.stream.text)|..], r.value)
    ensures StringDenied(spec, args) ==>
      r == Err(if WidthRefused(spec, args) then EOVERFLOW else EINVAL) && sink.stream == old(sink.stream)
    ensures !StringDenied(spec, args) ==> (r.Err? <==> sink.stream.overflow)
  {
    hide PutAll;
    hide PaddedPieces;
    hide StringShown;
    hide StringDenied;
    hide WidthRefused;
    hide LoadString;
    hide StringBytes;
    hide Executed;
    TextLimit(sink);
    StringDone(sink.stream, sink.writeCount, spec, args, env);
    StringDoes(sink.stream, sink.writeCount, spec, args, env);
    LoadedSized(spec, args, env.longDouble);
    var l :- LoadString(spec, args);
    NextSized(l.args);
    StringSized(Next(l.args), spec.precisionKind.PrecisionArg?, l.spec, env.nullText);
    var bytes :- StringBytes(Next(l.args), spec.precisionKind.PrecisionArg?, l.spec, env.nullText);
    WritePadded(sink, l.spec, bytes);
    return if sink.failed then Err(EOVERFLOW) else Ok(Rest(l.args));
  }

  /** What a string conversion leaves, step by step, and what that means. */
  lemma StringDone(s: Stream, writeCount: bool, spec: FormatSpec, args: seq<Arg>, env: Environment)
    requires |s.text| <= INT32_MAX && spec.conversion == 's'
    ensures var done, l := Executed(s, writeCount, spec, args, env), LoadString(spec, args);
            && (l.Err? ==> done == Outcome(s, Err(l.errno), []))
            && (l.Ok? ==>
                  var bytes := StringBytes(Next(l.value.args), spec.precisionKind.PrecisionArg?, l.value.spec, env.nullText);
                  && (bytes.Err? ==> done == Outcome(s, Err(bytes.errno), []))
                  && (bytes.Ok? ==>
                        var after := PutAll(s, PaddedPieces(l.value.spec, bytes.value));
                        done == Outcome(after, if after.overflow then Err(EOVERFLOW) else Ok(Rest(l.value.args)), [])))
  {
    hide PutAll;
    hide PaddedPieces;
    hide LoadString;
    hide StringBytes;
  }

  lemma StringDoes(s: Stream, writeCount: bool, spec: FormatSpec, args: seq<Arg>, env: Environment)
    requires |s.text| <= INT32_MAX && spec.conversion == 's'
    ensures var done := Executed(s, writeCount, spec, args, env);
            && (done.result.Ok? ==>
                  s.text <= done.stream.text && StringShown(spec, args, env.nullText, done.stream.text[|s.text|..], done.result.value))
            && (StringDenied(spec, args) ==>
                  done.stream == s && done.result == Err(if WidthRefused(spec, args) then EOVERFLOW else EINVAL))
            && (!StringDenied(spec, args) ==> (done.result.Err? <==> done.stream.overflow))
  {
    hide PutAll;
    hide StringShown;
    hide StringDenied;
    hide WidthRefused;
    hide StringAction;
    hide Executed;
    StringRefused(spec, args, env);
    ExecutedShows(s, writeCount, spec, args, env);
    ExecutedString(s, writeCount, spec, args, env);
  }

  lemma ExecutedString(s: Stream, writeCount: bool, spec: FormatSpec, args: seq<Arg>, env: Environment)
    requires spec.conversion == 's'
    ensures var done, does := Executed(s, writeCount, spec, args, env), StringAction(spec, args, env);
            && (does.Err? ==> done.stream == s && done.result == Err(does.errno))
            && (does.Ok? ==> (done.result.Err? <==> done.stream.overflow))
  {
    hide LoadString;
    hide StringBytes;
    hide PaddedPieces;
    hide PutAll;
  }

  method ExecuteInteger(sink: FormatSink, spec: FormatSpec, args: seq<Arg>, env: Environment) returns (r: Result<seq<Arg>>)
    requires sink.Valid() && Sized(args) && EnvironmentSized(env) && IsInteger(spec.conversion)
    requires sink.unchecked ==> |Executed(sink.stream, sink.writeCount, spec, args, env).stream.text| < sink.capacity
    modifies sink`written, sink`total, sink`failed, sink`stream, sink.buffer
    ensures sink.Valid() && Outcome(sink.stream, r, []) == Executed(old(sink.stream), sink.writeCount, spec, args, env)
    ensures sink.buffer[sink.capacity..] == old(sink.buffer[sink.capacity..])
  {
    hide PutAll;
    hide IntegerPieces;
    var l :- LoadBoth(spec, args);
    ValueSized(l.spec, Raw(Next(l.args)));
    WriteInteger(sink, l.spec, ReadValue(l.spec, Raw(Next(l.args))));
    return if sink.failed then Err(EOVERFLOW) else Ok(Rest(l.args));
  }

  lemma ValueSized(spec: FormatSpec, raw: nat)
    ensures ReadValue(spec, raw).magnitude < 0x1_0000_0000_0000_0000
  {
  }

  method ExecuteChar(sink: FormatSink, spec: FormatSpec, args: seq<Arg>, env: Environment) returns (r: Result<seq<Arg>>)
    requires sink.Valid() && Sized(args) && EnvironmentSized(env) && spec.conversion == 'c'
    requires sink.unchecked ==> |Executed(sink.stream, sink.writeCount, spec, args, env).stream.text| < sink.capacity
    modifies sink`written, sink`total, sink`failed, sink`stream, sink.buffer
    ensures sink.Valid() && Outcome(sink.stream, r, []) == Executed(old(sink.stream), sink.writeCount, spec, args, env)
    ensures sink.buffer[sink.capacity..] == old(sink.buffer[sink.capacity..])
  {
    hide PutAll;
    hide PaddedPieces;
    var l :- LoadWidth(spec, args);
    WritePadded(sink, l.spec, [(Raw(Next(l.args)) % 256) as char]);
    return if sink.failed then Err(EOVERFLOW) else Ok(Rest(l.args));
  }

  method ExecutePointer(sink: FormatSink, spec: FormatSpec, args: seq<Arg>, env: Environment) returns (r: Result<seq<Arg>>)
    requires sink.Valid() && Sized(args) && EnvironmentSized(env) && spec.conversion == 'p'
    requires sink.unchecked ==> |Executed(sink.stream, sink.writeCount, spec, args, env).stream.text| < sink.capacity
    modifies sink`written, sink`total, sink`failed, sink`stream, sink.buffer
    ensures sink.Valid() && Outcome(sink.stream, r, []) == Executed(old(sink.stream), sink.writeCount, spec, args, env)
    ensures sink.buffer[sink.capacity..] == old(sink.buffer[sink.capacity..])
  {
    hide PutAll;
    hide PointerPieces;
    var l :- LoadWidth(spec, args);
    WritePointer(sink, l.spec, Raw(Next(l.args)) % Modulus(64));
    return if sink.failed then Err(EOVERFLOW) else Ok(Rest(l.args));
  }

  method ExecuteFloat(sink: FormatSink, spec: FormatSpec, args: seq<Arg>, env: Environment) returns (r: Result<seq<Arg>>)
    requires sink.Valid() && Sized(args) && EnvironmentSized(env) && IsFloat(spec.conversion)
    requires sink.unchecked ==> |Executed(sink.stream, sink.writeCount, spec, args, env).stream.text| < sink.capacity
    modifies sink`written, sink`total, sink`failed, sink`stream, sink.buffer
    ensures sink.Valid() && Outcome(sink.stream, r, []) == Executed(old(sink.stream), sink.writeCount, spec, args, env)
    ensures sink.buffer[sink.capacity..] == old(sink.buffer[sink.capacity..])
  {
    hide PutAll;
    hide FloatPieces;
    hide LoadBoth;
    hide FloatBody;
    var l :- LoadFloat(spec, args, env.longDouble);
    var body :- GenerateBody(l.spec, Next(l.args), env);
    WriteFloat(sink, l.spec, Sign(l.spec, FloatNegative(l.spec, Next(l.args), env)), body);
    return if sink.failed then Err(EOVERFLOW) else Ok(Rest(l.args));
  }

  /** fmt_store_count, behind the check of the sink's status. */
  method ExecuteCount(sink: FormatSink, spec: FormatSpec, args: seq<Arg>, env: Environment)
    returns (r: Result<seq<Arg>>, stores: seq<Stored>)
    requires sink.Valid() && spec.conversion == 'n'
    ensures Outcome(sink.stream, r, stores) == Executed(sink.stream, sink.writeCount, spec, args, env)
    ensures r.Ok? <==>
      !sink.stream.overflow && Raw(Next(args)) != 0 && |sink.stream.text| < Pow(2, BitsOf(spec.length) - 1)
    ensures r.Err? ==>
      r.errno == if sink.stream.overflow || |sink.stream.text| >= Pow(2, BitsOf(spec.length) - 1) then EOVERFLOW else EINVAL
    ensures r.Ok? ==> r.value == Rest(args)
    ensures stores == if r.Ok? && sink.writeCount then [Stored(Raw(Next(args)), |sink.stream.text|)] else []
  {
    StoreLimitIs(spec.length);
    if sink.failed { return Err(EOVERFLOW), []; }
    var address := Raw(Next(args));
    var status := StoreStatus(spec.length, sink.total, address);
    if status.Err? { return Err(status.errno), []; }
    return Ok(Rest(args)), if sink.writeCount then [Stored(address, sink.total)] else [];
  }

  /** fmt_execute_spec */
  method ExecuteSpec(sink: FormatSink, spec: FormatSpec, args: seq<Arg>, env: Environment)
    returns (r: Result<seq<Arg>>, stores: seq<Stored>)
    requires sink.Valid() && Sized(args) && EnvironmentSized(env)
    requires sink.unchecked ==> |Executed(sink.stream, sink.writeCount, spec, args, env).stream.text| < sink.capacity
    modifies sink`written, sink`total, sink`failed, sink`stream, sink.buffer
    ensures sink.Valid() && Outcome(sink.stream, r, stores) == Executed(old(sink.stream), sink.writeCount, spec, args, env)
    ensures sink.buffer[sink.capacity..] == old(sink.buffer[sink.capacity..])
    ensures r.Ok? && spec.conversion != 'n' ==>
      old(sink.stream.text) <= sink.stream.text
      && ConversionShown(spec, args, env, sink.stream.text[|old(sink.stream.text)|..], r.value)
  {
    hide Executed;
    hide ConversionShown;
    TextLimit(sink);
    if spec.conversion != 'n' { ExecutedShows(sink.stream, sink.writeCount, spec, args, env); }
    stores := [];
    if IsInteger(spec.conversion) {
      r := ExecuteInteger(sink, spec, args, env);
    } else if spec.conversion == 'c' {
      r := ExecuteChar(sink, spec, args, env);
    } else if spec.conversion == 's' {
      r := ExecuteString(sink, spec, args, env);
    } else if spec.conversion == 'p' {
      r := ExecutePointer(sink, spec, args, env);
    } else if spec.conversion == 'n' {
      r, stores := ExecuteCount(sink, spec, args, env);
    } else if IsFloat(spec.conversion) {
      r := ExecuteFloat(sink, spec, args, env);
    } else if spec.conversion == '%' {
      PercentDoes(sink.stream, sink.writeCount, spec, args, env);
      sink.WriteByte('%');
      r := if sink.failed then Err(EOVERFLOW) else Ok(args);
    } else {
      UnknownDoes(sink.stream, sink.writeCount, spec, args, env);
      r := Err(ENOSYS);
    }
  }

  lemma PercentDoes(s: Stream, writeCount: bool, spec: FormatSpec, args: seq<Arg>, env: Environment)
    requires spec.conversion == '%'
    ensures var after := Put(s, "%");
            Executed(s, writeCount, spec, args, env) == Outcome(after, if after.overflow then Err(EOVERFLOW) else Ok(args), [])
  {
    assert ["%"][1..] == [];
  }

  lemma UnknownDoes(s: Stream, writeCount: bool, spec: FormatSpec, args: seq<Arg>, env: Environment)
    requires !IsInteger(spec.conversion) && !IsFloat(spec.conversion) && spec.conversion !in "cspn%"
    ensures Executed(s, writeCount, spec, args, env) == Outcome(s, Err(ENOSYS), [])
  {
  }
}
