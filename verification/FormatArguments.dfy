/** What the loaders take from the argument list (cbase/fmt.c), said of the bits of the arguments. */
module FormatArguments {
  import opened Powers
  import opened Results
  import opened IntegerText
  import opened Words
  import opened FormatSpec
  import opened FormatGrammar
  import opened FormatInteger
  import opened FormatFloats
  import opened FormatConversion

  // ---- one argument ---------------------------------------------------------------------------

  /** The bits of the next argument; floating point, text and nothing at all have none. */
  ghost function FirstBits(args: seq<Arg>): nat {
    if args == [] then 0 else match args[0]
      case Word32(bits) => bits
      case Word64(bits) => bits
      case Address(address) => address
      case _ => 0
  }

  ghost function Behind(args: seq<Arg>): seq<Arg> { if |args| <= 1 then [] else args[1..] }

  /** v is the signed number of that many bits that `raw` stands for in two's complement. */
  ghost predicate TwosComplement(bits: nat, raw: nat, v: int)
    requires bits > 0
  {
    0 - Pow(2, bits - 1) <= v < Pow(2, bits - 1) && (raw - v) % Pow(2, bits) == 0
  }

  lemma TwosComplementUnique(bits: nat, raw: nat, v: int, w: int)
    requires bits > 0 && TwosComplement(bits, raw, v) && TwosComplement(bits, raw, w)
    ensures v == w
  {
    var m := Pow(2, bits);
    assert m == 2 * Pow(2, bits - 1);
    hide Pow;
    SameRemainder(raw - v, raw - w, m);
  }

  lemma SameRemainder(a: int, b: int, m: nat)
    requires m > 0 && a % m == 0 && b % m == 0 && 0 - m < a - b < m
    ensures a == b
  {
    DivMod(a, m);
    DivMod(b, m);
    MulDist(m, a / m, 0 - b / m);
    var q := a / m - b / m;
    assert a - b == q * m;
    if q > 0 { MulMono(1, q, m); }
    if q < 0 { MulMono(q, -1, m); }
  }

  /** The cast to a signed type of 8, 16, 32 or 64 bits. */
  lemma SignedValueIs(bits: nat, raw: nat)
    requires bits == 8 || bits == 16 || bits == 32 || bits == 64
    ensures TwosComplement(bits, raw, SignedValue(bits, raw))
  {
    ModulusIsPower(bits);
    HalfModulus(bits);
    hide Pow;
    CastKeeps(raw, Modulus(bits), SignedValue(bits, raw));
  }

  lemma HalfModulus(bits: nat)
    requires bits == 8 || bits == 16 || bits == 32 || bits == 64
    ensures Pow(2, bits) == 2 * Pow(2, bits - 1)
  {
  }

  lemma CastKeeps(raw: nat, m: nat, v: int)
    requires m > 0 && (v == raw % m || v == raw % m - m)
    ensures (raw - v) % m == 0
  {
    DivMod(raw, m);
    var q := if v == raw % m then raw / m else raw / m + 1;
    MulDist(m, raw / m, 1);
    DivModUnique(raw - v, m, q, 0);
  }

  /** The number of bits a length names: by its letters, or by the number behind the w. */
  lemma BitsAreNamed(t: string, length: Length)
    requires LengthReads(t, length) && !length.BigL?
    ensures t == "hh" ==> BitsOf(length) == 8
    ensures t == "h" ==> BitsOf(length) == 16
    ensures t == "" ==> BitsOf(length) == 32
    ensures t == "ll" ==> BitsOf(length) == 64
    ensures t != "" && t[0] == 'w' ==> NumberReads(t[1..], BitsOf(length))
  {
  }

  // ---- width and precision ----------------------------------------------------------------------

  /** A width is literal, or the next argument: negative means left-justified. */
  ghost predicate WidthTaken(spec: FormatSpec, args: seq<Arg>, width: int, left: bool, rest: seq<Arg>) {
    if spec.widthKind.WidthArg?
    then exists v: int ::
      && TwosComplement(32, FirstBits(args), v) && v > 0 - Pow(2, 31)
      && width == Abs(v) && left == (spec.flags.left || v < 0) && rest == Behind(args)
    else width == spec.width && left == spec.flags.left && rest == args
  }

  /** The one width that is refused: it has no positive counterpart. */
  ghost predicate WidthRefused(spec: FormatSpec, args: seq<Arg>) {
    spec.widthKind.WidthArg? && TwosComplement(32, FirstBits(args), 0 - Pow(2, 31))
  }

  /** A precision is literal, missing, or the next argument: negative means missing. */
  ghost predicate PrecisionTaken(spec: FormatSpec, args: seq<Arg>, precision: Option<int>, rest: seq<Arg>) {
    match spec.precisionKind
    case PrecisionNone => precision == None && rest == args
    case PrecisionLiteral => precision == Some(spec.precision) && rest == args
    case PrecisionArg =>
      rest == Behind(args) && exists v: int :: TwosComplement(32, FirstBits(args), v) && precision == if v < 0 then None else Some(v)
  }

  /** How a field is laid out, and the arguments behind its width and precision. */
  datatype Layout = Layout(left: bool, width: int, precision: Option<int>, args: seq<Arg>)

  ghost predicate LaidOut(spec: FormatSpec, args: seq<Arg>, l: Layout) {
    exists middle: seq<Arg> :: WidthTaken(spec, args, l.width, l.left, middle) && PrecisionTaken(spec, middle, l.precision, l.args)
  }

  /** The layout a loaded specification stands for. */
  ghost function LayoutOf(l: Loaded): Layout {
    Layout(l.spec.flags.left, l.spec.width, if l.spec.precisionKind.PrecisionNone? then None else Some(l.spec.precision), l.args)
  }

  lemma NextIs(args: seq<Arg>)
    ensures Raw(Next(args)) == FirstBits(args) && Rest(args) == Behind(args)
    ensures TwosComplement(32, FirstBits(args), NextInt32(args))
  {
    SignedValueIs(32, FirstBits(args));
    if |args| == 1 { assert args[1..] == []; }
  }

  lemma IntLimits()
    ensures Pow(2, 31) == 0x8000_0000
  {
    BaseIsTwoTo32();
    assert Pow(2, 32) == 2 * Pow(2, 31);
  }

  /** Nothing but width, precision and the left flag changes. */
  ghost predicate SameOtherwise(spec: FormatSpec, loaded: FormatSpec) {
    && loaded.conversion == spec.conversion && loaded.length == spec.length
    && loaded.flags == spec.flags.(left := loaded.flags.left)
  }

  lemma LoadedWidth(spec: FormatSpec, args: seq<Arg>)
    ensures LoadWidth(spec, args).Err? <==> WidthRefused(spec, args)
    ensures LoadWidth(spec, args).Err? ==> LoadWidth(spec, args) == Err(EOVERFLOW)
    ensures LoadWidth(spec, args).Ok? ==>
      var l := LoadWidth(spec, args).value;
      && WidthTaken(spec, args, l.spec.width, l.spec.flags.left, l.args) && SameOtherwise(spec, l.spec)
      && l.spec.precisionKind == spec.precisionKind && l.spec.precision == spec.precision
  {
    NextIs(args);
    IntLimits();
    hide Pow;
    hide TwosComplement;
    hide SignedValue;
    if spec.widthKind.WidthArg? && TwosComplement(32, FirstBits(args), 0 - Pow(2, 31)) {
      TwosComplementUnique(32, FirstBits(args), 0 - Pow(2, 31), NextInt32(args));
    }
    SignedRange(args);
  }

  lemma SignedRange(args: seq<Arg>)
    ensures INT32_MIN <= NextInt32(args)
  {
  }

  lemma LoadedBoth(spec: FormatSpec, args: seq<Arg>)
    ensures LoadBoth(spec, args).Err? <==> WidthRefused(spec, args)
    ensures LoadBoth(spec, args).Err? ==> LoadBoth(spec, args) == Err(EOVERFLOW)
    ensures LoadBoth(spec, args).Ok? ==>
      var l := LoadBoth(spec, args).value; LaidOut(spec, args, LayoutOf(l)) && SameOtherwise(spec, l.spec) && !l.spec.precisionKind.PrecisionArg?
  {
    hide LoadWidth;
    hide WidthTaken;
    hide TwosComplement;
    hide SignedValue;
    LoadedWidth(spec, args);
    var w := LoadWidth(spec, args);
    if w.Ok? {
      NextIs(w.value.args);
      var l := LoadBoth(spec, args).value;
      assert PrecisionTaken(spec, w.value.args, LayoutOf(l).precision, l.args);
      assert WidthTaken(spec, args, LayoutOf(l).width, LayoutOf(l).left, w.value.args);
    }
  }

  /** The layout is the only one. */
  lemma LaidOutUnique(spec: FormatSpec, args: seq<Arg>, l: Layout, m: Layout)
    requires LaidOut(spec, args, l) && LaidOut(spec, args, m)
    ensures l == m && !WidthRefused(spec, args)
  {
    hide TwosComplement;
    var a: seq<Arg> :| WidthTaken(spec, args, l.width, l.left, a) && PrecisionTaken(spec, a, l.precision, l.args);
    var b: seq<Arg> :| WidthTaken(spec, args, m.width, m.left, b) && PrecisionTaken(spec, b, m.precision, m.args);
    WidthUnique(spec, args, l.width, l.left, a, m.width, m.left, b);
    if spec.precisionKind.PrecisionArg? {
      var v: int :| TwosComplement(32, FirstBits(a), v) && l.precision == if v < 0 then None else Some(v);
      var w: int :| TwosComplement(32, FirstBits(a), w) && m.precision == if w < 0 then None else Some(w);
      TwosComplementUnique(32, FirstBits(a), v, w);
    }
  }

  lemma WidthUnique(spec: FormatSpec, args: seq<Arg>, width: int, left: bool, a: seq<Arg>, width': int, left': bool, b: seq<Arg>)
    requires WidthTaken(spec, args, width, left, a) && WidthTaken(spec, args, width', left', b)
    ensures width == width' && left == left' && a == b && !WidthRefused(spec, args)
  {
    hide TwosComplement;
    hide Pow;
    if spec.widthKind.WidthArg? {
      var v: int :| TwosComplement(32, FirstBits(args), v) && v > 0 - Pow(2, 31)
        && width == Abs(v) && left == (spec.flags.left || v < 0) && a == Behind(args);
      var w: int :| TwosComplement(32, FirstBits(args), w) && w > 0 - Pow(2, 31)
        && width' == Abs(w) && left' == (spec.flags.left || w < 0) && b == Behind(args);
      TwosComplementUnique(32, FirstBits(args), v, w);
      if WidthRefused(spec, args) { TwosComplementUnique(32, FirstBits(args), v, 0 - Pow(2, 31)); }
    }
  }
}
