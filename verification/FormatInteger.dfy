/** Integer conversions (fmt_write_integer and its parts in cbase/fmt.c): what they write, how long it is, how it reads back. */
module FormatInteger {
  import opened Powers
  import opened IntegerText
  import opened Words
  import opened FormatSink
  import opened FormatSpec

  /** A variadic argument; words are raw bits, addresses are 0 for NULL. */
  datatype Arg =
    | Word32(bits: nat)
    | Word64(bits: nat)
    | Text(bytes: string)
    | NullText
    | Address(address: nat)
    | Double(value: nat)
    | LongDouble(value: nat)

  datatype IntegerValue = IntegerValue(magnitude: nat, negative: bool)

  function BitsOf(length: Length): (bits: nat)
    ensures bits == 8 || bits == 16 || bits == 32 || bits == 64
  {
    match length
    case HH => 8
    case W8 => 8
    case H => 16
    case W16 => 16
    case LL => 64
    case W64 => 64
    case _ => 32
  }

  function Modulus(bits: nat): nat {
    if bits == 8 then 0x100 else if bits == 16 then 0x1_0000 else if bits == 64 then 0x1_0000_0000_0000_0000
    else 0x1_0000_0000
  }

  lemma ModulusIsPower(bits: nat)
    requires bits == 8 || bits == 16 || bits == 32 || bits == 64
    ensures Modulus(bits) == Pow(2, bits)
  {
    TwoTo64();
    BaseIsTwoTo32();
    SmallModuli();
  }

  lemma SmallModuli()
    ensures Pow(2, 8) == 0x100 && Pow(2, 16) == 0x1_0000
  {
    PowAdd(2, 8, 8);
    assert Pow(2, 8) == 0x100;
  }

  /** The C cast of the argument to the signed type the length names. */
  function SignedValue(bits: nat, raw: nat): int {
    var m := raw % Modulus(bits);
    if m >= Modulus(bits) / 2 then m - Modulus(bits) else m
  }

  /** fmt_read_signed_integer and fmt_read_unsigned_integer */
  function ReadValue(spec: FormatSpec, raw: nat): IntegerValue {
    var bits := BitsOf(spec.length);
    if spec.conversion == 'd' then
      var v := SignedValue(bits, raw);
      if v < 0 then IntegerValue(0 - (v + 1) + 1, true) else IntegerValue(v, false)
    else IntegerValue(raw % Modulus(bits), false)
  }

  function BaseOf(conversion: char): (base: nat)
    ensures IsBase(base)
  {
    if conversion == 'b' || conversion == 'B' then 2 else if conversion == 'o' then 8
    else if conversion == 'x' || conversion == 'X' then 16 else 10
  }

  predicate IsUpper(conversion: char) { conversion == 'X' || conversion == 'B' }

  /** fmt_pad_len */
  function PadLength(width: int, used: nat): (n: nat)
    ensures used + n == if width > used then width else used
  {
    if width > used then width - used else 0
  }

  // ---- the pieces of a field -------------------------------------------------------------

  /** No digits at all for zero with precision zero. */
  ghost function Digits(spec: FormatSpec, value: IntegerValue): string {
    if value.magnitude == 0 && HasPrecision(spec) && spec.precision == 0 then ""
    else NumberText(value.magnitude, BaseOf(spec.conversion), IsUpper(spec.conversion))
  }

  /** The zeros a precision asks for. */
  function PrecisionZeros(spec: FormatSpec, digitLength: nat): (n: nat)
    ensures digitLength + n == if HasPrecision(spec) && spec.precision > digitLength then spec.precision else digitLength
  {
    if HasPrecision(spec) && spec.precision > digitLength then spec.precision - digitLength else 0
  }

  /** fmt_integer_prefix: a sign, or the mark of the base. */
  function Prefix(spec: FormatSpec, value: IntegerValue, digitLength: nat, zeros: nat): (p: string)
    ensures |p| <= 2
  {
    if spec.conversion == 'd' then
      if value.negative then "-" else if spec.flags.sign then "+" else if spec.flags.space then " " else ""
    else if !spec.flags.alternate then ""
    else if spec.conversion == 'o' then
      if value.magnitude == 0 && digitLength == 0 then "0"
      else if value.magnitude != 0 && zeros == 0 then "0"
      else ""
    else if value.magnitude == 0 then ""
    else if spec.conversion == 'x' then "0x"
    else if spec.conversion == 'X' then "0X"
    else if spec.conversion == 'b' then "0b"
    else if spec.conversion == 'B' then "0B"
    else ""
  }

  /**
   Which sign or mark it is: of a signed number the minus, or what the flags ask for with + before the space; of
   any other with # the letter of the base, but not for zero, and a single 0 in base 8 unless the digits begin
   with one.
   */
  lemma PrefixSays(spec: FormatSpec, value: IntegerValue, digitLength: nat, zeros: nat)
    ensures var p := Prefix(spec, value, digitLength, zeros);
            && (p == "-" <==> spec.conversion == 'd' && value.negative)
            && (p == "+" <==> spec.conversion == 'd' && !value.negative && spec.flags.sign)
            && (p == " " <==> spec.conversion == 'd' && !value.negative && !spec.flags.sign && spec.flags.space)
            && (|p| == 2 <==> spec.conversion in "xXbB" && spec.flags.alternate && value.magnitude != 0)
            && (|p| == 2 ==> p == ['0', spec.conversion])
            && (p == "0" <==> spec.conversion == 'o' && spec.flags.alternate
                              && if value.magnitude == 0 then digitLength == 0 else zeros == 0)
            && (p == "" || p == "-" || p == "+" || p == " " || p == "0" || |p| == 2)
  {
    var p := Prefix(spec, value, digitLength, zeros);
    var marked := spec.flags.alternate && value.magnitude != 0;
    if spec.conversion == 'd' || !spec.flags.alternate {
      assert |p| <= 1;
    } else if spec.conversion == 'o' || value.magnitude == 0 {
      assert p == "0" || p == "";
    } else {
      assert p == "" || p[0] == '0';
    }
  }

  predicate ZeroPadded(spec: FormatSpec) { spec.flags.zero && !spec.flags.left && !HasPrecision(spec) }

  /** How the field is filled: zeros between prefix and digits, spaces outside. */
  function ZeroPad(spec: FormatSpec, inner: nat): (n: nat)
    ensures n == 0 || inner + n == spec.width
  {
    if ZeroPadded(spec) then PadLength(spec.width, inner) else 0
  }

  /** The writes of an integer field, some of them possibly empty. */
  function Field(left: bool, spaces: nat, prefix: string, zeroPad: nat, zeros: nat, digits: string): (pieces: seq<string>)
    ensures |pieces| == 6
  {
    [if left then "" else Copies(' ', spaces), prefix, Copies('0', zeroPad), Copies('0', zeros), digits,
     if left then Copies(' ', spaces) else ""]
  }

  ghost function IntegerPieces(spec: FormatSpec, value: IntegerValue): (pieces: seq<string>)
    ensures |pieces| == 6
  {
    var digits := Digits(spec, value);
    var zeros := PrecisionZeros(spec, |digits|);
    var prefix := Prefix(spec, value, |digits|, zeros);
    var inner := |prefix| + zeros + |digits|;
    var zeroPad := ZeroPad(spec, inner);
    Field(spec.flags.left, PadLength(spec.width, inner + zeroPad), prefix, zeroPad, zeros, digits)
  }

  lemma JoinFrom(p: seq<string>, k: nat)
    requires k < |p|
    ensures Joined(p[k..]) == p[k] + Joined(p[k + 1..])
  {
    assert p[k..][1..] == p[k + 1..];
  }

  lemma JoinSix(p: seq<string>)
    requires |p| == 6
    ensures Joined(p) == p[0] + (p[1] + (p[2] + (p[3] + (p[4] + p[5]))))
  {
    hide Joined;
    JoinFrom(p, 0);
    JoinFrom(p, 1);
    JoinFrom(p, 2);
    JoinFrom(p, 3);
    JoinFrom(p, 4);
    JoinFrom(p, 5);
    JoinNone(p);
    assert p[0..] == p && p[5] + "" == p[5];
  }

  lemma JoinNone(p: seq<string>)
    ensures Joined(p[|p|..]) == ""
  {
  }

  /** A field is as long as its content, or as wide as asked. */
  lemma FieldLength(spec: FormatSpec, value: IntegerValue)
    ensures var digits := Digits(spec, value);
            var zeros := PrecisionZeros(spec, |digits|);
            var inner := |Prefix(spec, value, |digits|, zeros)| + zeros + |digits|;
            |Joined(IntegerPieces(spec, value))| == if spec.width > inner then spec.width else inner
  {
    JoinSix(IntegerPieces(spec, value));
  }

  // ---- the writer --------------------------------------------------------------------------

  /** Where the writes of a conversion stand: what is still to come leads to the target. */
  lemma NextPiece(s: Stream, pieces: seq<string>, k: nat, target: Stream)
    requires k < |pieces| && PutAll(s, pieces[k..]) == target
    ensures PutAll(Put(s, pieces[k]), pieces[k + 1..]) == target
    ensures |Put(s, pieces[k]).text| <= |target.text|
    ensures pieces[k] == "" ==> Put(s, pieces[k]) == s || |s.text| > INT32_MAX
  {
    assert pieces[k..][1..] == pieces[k + 1..];
    assert s.text + "" == s.text;
  }

  /** One write of a conversion, skipped when there is nothing to write. */
  method WritePiece(sink: FormatSink, data: string, ghost pieces: seq<string>, ghost k: nat, ghost target: Stream)
    requires sink.Valid() && k < |pieces| && data == pieces[k] && |data| < INT32_MAX
    requires PutAll(sink.stream, pieces[k..]) == target && (sink.unchecked ==> |target.text| < sink.capacity)
    modifies sink`written, sink`total, sink`failed, sink`stream, sink.buffer
    ensures sink.Valid() && PutAll(sink.stream, pieces[k + 1..]) == target
    ensures sink.buffer[sink.capacity..] == old(sink.buffer[sink.capacity..])
  {
    NextPiece(sink.stream, pieces, k, target);
    if |data| > 0 {
      sink.Write(data);
    }
  }

  method WriteCopies(sink: FormatSink, byte: char, len: nat, ghost pieces: seq<string>, ghost k: nat, ghost target: Stream)
    requires sink.Valid() && k < |pieces| && pieces[k] == Copies(byte, len)
    requires PutAll(sink.stream, pieces[k..]) == target && (sink.unchecked ==> |target.text| < sink.capacity)
    modifies sink`written, sink`total, sink`failed, sink`stream, sink.buffer
    ensures sink.Valid() && PutAll(sink.stream, pieces[k + 1..]) == target
    ensures sink.buffer[sink.capacity..] == old(sink.buffer[sink.capacity..])
  {
    NextPiece(sink.stream, pieces, k, target);
    sink.WriteRepeat(byte, len);
  }

  /** The spaces on one side of a field. */
  method WriteSpaces(sink: FormatSink, here: bool, len: nat, ghost pieces: seq<string>, ghost k: nat, ghost target: Stream)
    requires sink.Valid() && k < |pieces| && pieces[k] == (if here then Copies(' ', len) else "")
    requires PutAll(sink.stream, pieces[k..]) == target && (sink.unchecked ==> |target.text| < sink.capacity)
    modifies sink`written, sink`total, sink`failed, sink`stream, sink.buffer
    ensures sink.Valid() && PutAll(sink.stream, pieces[k + 1..]) == target
    ensures sink.buffer[sink.capacity..] == old(sink.buffer[sink.capacity..])
  {
    if here {
      WriteCopies(sink, ' ', len, pieces, k, target);
    } else {
      NextPiece(sink.stream, pieces, k, target);
    }
  }

  lemma FieldPieces(left: bool, spaces: nat, prefix: string, zeroPad: nat, zeros: nat, digits: string)
    ensures var pieces := Field(left, spaces, prefix, zeroPad, zeros, digits);
            && |pieces| == 6 && pieces[0..] == pieces
            && pieces[0] == (if !left then Copies(' ', spaces) else "") && pieces[5] == (if left then Copies(' ', spaces) else "")
            && pieces[1] == prefix && pieces[2] == Copies('0', zeroPad) && pieces[3] == Copies('0', zeros) && pieces[4] == digits
  {
  }

  /** The six writes of an integer field. */
  method WriteField(sink: FormatSink, left: bool, spaces: nat, prefix: string, zeroPad: nat, zeros: nat, digits: string)
    requires sink.Valid() && |prefix| <= 2 && |digits| <= 64
    requires sink.unchecked ==>
      |PutAll(sink.stream, Field(left, spaces, prefix, zeroPad, zeros, digits)).text| < sink.capacity
    modifies sink`written, sink`total, sink`failed, sink`stream, sink.buffer
    ensures sink.Valid() && sink.stream == PutAll(old(sink.stream), Field(left, spaces, prefix, zeroPad, zeros, digits))
    ensures sink.buffer[sink.capacity..] == old(sink.buffer[sink.capacity..])
  {
    hide PutAll;
    hide Field;
    FieldPieces(left, spaces, prefix, zeroPad, zeros, digits);
    ghost var pieces := Field(left, spaces, prefix, zeroPad, zeros, digits);
    ghost var target := PutAll(sink.stream, pieces);
    WriteSpaces(sink, !left, spaces, pieces, 0, target);
    WritePiece(sink, prefix, pieces, 1, target);
    WriteCopies(sink, '0', zeroPad, pieces, 2, target);
    WriteCopies(sink, '0', zeros, pieces, 3, target);
    WritePiece(sink, digits, pieces, 4, target);
    WriteSpaces(sink, left, spaces, pieces, 5, target);
    PutNone(sink.stream, pieces);
  }

  lemma PutNone(s: Stream, pieces: seq<string>)
    ensures PutAll(s, pieces[|pieces|..]) == s
  {
  }

  /** fmt_write_integer */
  method WriteInteger(sink: FormatSink, spec: FormatSpec, value: IntegerValue)
    requires sink.Valid() && value.magnitude < 0x1_0000_0000_0000_0000
    requires sink.unchecked ==> |PutAll(sink.stream, IntegerPieces(spec, value)).text| < sink.capacity
    modifies sink`written, sink`total, sink`failed, sink`stream, sink.buffer
    ensures sink.Valid() && sink.stream == PutAll(old(sink.stream), IntegerPieces(spec, value))
    ensures sink.buffer[sink.capacity..] == old(sink.buffer[sink.capacity..])
  {
    hide PutAll;
    hide Field;
    var digits := "";
    if !(value.magnitude == 0 && HasPrecision(spec) && spec.precision == 0) {
      var buffer := new char[64];
      var len := IntegerDigits(buffer, value.magnitude, BaseOf(spec.conversion), IsUpper(spec.conversion));
      digits := buffer[..len];
    }
    assert digits == Digits(spec, value);
    var zeros := PrecisionZeros(spec, |digits|);
    var prefix := Prefix(spec, value, |digits|, zeros);
    var inner := |prefix| + zeros + |digits|;
    var zeroPad := ZeroPad(spec, inner);
    var spaces := PadLength(spec.width, inner + zeroPad);
    WriteField(sink, spec.flags.left, spaces, prefix, zeroPad, zeros, digits);
  }
}
