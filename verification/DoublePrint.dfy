/**
 The decimal conversions of a `double` (cbase/fmt.c): the texts of the two Ryu printers without their sign, with
 the point that `#` asks for, in upper case, and chosen between and stripped for `%g`.
 */
module DoublePrint {
  import opened Powers
  import opened Results
  import opened Decimal
  import opened BigUInt
  import opened BinaryFloat
  import opened Magnitude
  import opened FixedStyle
  import opened SignificantDigits
  import opened ExpText
  import opened GeneralStyle
  import opened LongDoublePrint
  import opened FloatBits

  /** d2fixed_buffered_n and d2exp_buffered_n: the text for the bits of a `double` and a precision. */
  datatype Ryu = Ryu(fixed: (nat, nat) -> string, exp: (nat, nat) -> string)

  // ---- the changes to a text ------------------------------------------------------------------

  ghost function Unsigned(t: string): string {
    if t != "" && t[0] == '-' then t[1..] else t
  }

  /** The last point before the exponent letter, or -1, and where that letter is. */
  ghost function PointedAt(t: string, point: int, letter: nat): string
    requires letter <= |t|
  {
    if point >= 0 then t else t[..letter] + "." + t[letter..]
  }

  /** t with a point in front of its exponent, or at its end, unless there is one. */
  ghost function Pointed(t: string): string {
    SplitExists(t);
    var point: int, letter: nat :| SplitsAt(t, point, letter);
    PointedAt(t, point, letter)
  }

  lemma PointedIs(t: string, point: int, letter: nat)
    requires SplitsAt(t, point, letter)
    ensures Pointed(t) == PointedAt(t, point, letter)
  {
    SplitExists(t);
    var point': int, letter': nat :| SplitsAt(t, point', letter') && Pointed(t) == PointedAt(t, point', letter');
    SplitUnique(t, point, letter, point', letter');
  }

  ghost function Uppercased(t: string): (u: string)
    ensures |u| == |t|
  {
    seq(|t|, i requires 0 <= i < |t| => if t[i] == 'e' then 'E' else t[i])
  }

  /** A Ryu text must be shorter than the buffer, and so must the text with its point. */
  ghost function PointedIfFits(t: string, capacity: nat, alternate: bool): Result<string> {
    if alternate && Pointed(t) != t && |t| + 1 >= capacity then Err(EOVERFLOW) else Ok(if alternate then Pointed(t) else t)
  }

  ghost function PlainBody(text: string, capacity: nat, alternate: bool, upper: bool): Result<string> {
    if text == "" || |text| >= capacity then Err(EOVERFLOW)
    else
      var t :- PointedIfFits(Unsigned(text), capacity, alternate);
      Ok(if upper then Uppercased(t) else t)
  }

  /** `%g`: by the exponent that `%e` printed. */
  ghost function GeneralDouble(ryu: Ryu, raw: nat, significant: nat, capacity: nat, alternate: bool, upper: bool): Result<string>
    requires significant > 0
  {
    var t :- PlainBody(ryu.exp(raw, significant - 1), capacity, alternate, upper);
    var x :- ParsedExponent(t);
    var chosen :- if -4 <= x < significant then PlainBody(ryu.fixed(raw, significant - (x + 1)), capacity, alternate, upper) else Ok(t);
    Ok(if alternate then chosen else Stripped(chosen))
  }

  ghost function DoubleBody(ryu: Ryu, raw: nat, style: DecimalStyle, precision: nat, capacity: nat, alternate: bool, upper: bool):
    Result<string>
  {
    match style
    case FixedConversion => PlainBody(ryu.fixed(raw, precision), capacity, alternate, upper)
    case ExpConversion => PlainBody(ryu.exp(raw, precision), capacity, alternate, upper)
    case GeneralConversion => GeneralDouble(ryu, raw, Significant(precision), capacity, alternate, upper)
  }

  // ---- in place ---------------------------------------------------------------------------------

  /** fmt_float_force_decimal_point */
  method ForceDecimalPoint(body: array<char>, bodyLen: nat, capacity: nat) returns (r: Result<nat>)
    requires bodyLen < capacity <= body.Length
    modifies body
    ensures BodyInBuffer(PointedIfFits(old(body[..bodyLen]), capacity, true), r, body[..])
  {
    ghost var t := body[..bodyLen];
    var point, letter := FindPointAndLetter(body, bodyLen);
    PointedIs(t, point, letter);
    if point >= 0 { return Ok(bodyLen); }
    assert |Pointed(t)| == bodyLen + 1;
    if bodyLen + 1 >= capacity { return Err(EOVERFLOW); }
    MemMove(body, letter + 1, letter, bodyLen - letter);
    body[letter] := '.';
    assert body[..letter] == t[..letter] && body[letter + 1..bodyLen + 1] == t[letter..];
    assert body[..bodyLen + 1] == body[..letter] + [body[letter]] + body[letter + 1..bodyLen + 1];
    return Ok(bodyLen + 1);
  }

  /** fmt_float_uppercase_body */
  method UppercaseBody(body: array<char>, bodyLen: nat)
    requires bodyLen <= body.Length
    modifies body
    ensures body[..bodyLen] == Uppercased(old(body[..bodyLen]))
    ensures body[bodyLen..] == old(body[bodyLen..])
  {
    ghost var t := body[..];
    for i := 0 to bodyLen
      invariant body[i..] == t[i..] && body[..i] == Uppercased(t[..bodyLen])[..i]
    {
      assert body[i] == t[i];
      if body[i] == 'e' { body[i] := 'E'; }
      assert body[..i + 1] == body[..i] + [body[i]];
      assert t[i..][1..] == t[i + 1..];
    }
    assert t[..bodyLen] == old(body[..bodyLen]);
  }

  /** The end of fmt_float_generate_body: what becomes of the text that was printed. */
  method GeneratePlainBody(text: string, buffer: array<char>, capacity: nat, alternate: bool, upper: bool) returns (r: Result<nat>)
    requires capacity <= buffer.Length
    modifies buffer
    ensures BodyInBuffer(PlainBody(text, capacity, alternate, upper), r, buffer[..])
  {
    hide Pointed;
    hide Uppercased;
    var len := |text|;
    if len <= 0 || len >= capacity { return Err(EOVERFLOW); }
    forall i | 0 <= i < len { buffer[i] := text[i]; }
    assert buffer[..len] == text;
    if buffer[0] == '-' {
      MemMove(buffer, 0, 1, len - 1);
      len := len - 1;
    }
    assert buffer[..len] == Unsigned(text);
    if alternate {
      var pointed := ForceDecimalPoint(buffer, len, capacity);
      if pointed.Err? { return Err(pointed.errno); }
      len := pointed.value;
    }
    if upper { UppercaseBody(buffer, len); }
    return Ok(len);
  }

  /** fmt_float_generate_general_body */
  method GenerateGeneralDouble(ryu: Ryu, raw: nat, significant: nat, buffer: array<char>, capacity: nat, alternate: bool, upper: bool)
    returns (r: Result<nat>)
    requires significant > 0 && capacity <= buffer.Length
    modifies buffer
    ensures BodyInBuffer(GeneralDouble(ryu, raw, significant, capacity, alternate, upper), r, buffer[..])
  {
    hide PlainBody;
    hide ParsedExponent;
    hide Stripped;
    hide StrippedAt;
    hide SplitsAt;
    var len :- GeneratePlainBody(ryu.exp(raw, significant - 1), buffer, capacity, alternate, upper);
    var exponent :- ParseDecimalExponent(buffer, len);
    if -4 <= exponent < significant {
      len :- GeneratePlainBody(ryu.fixed(raw, significant - (exponent + 1)), buffer, capacity, alternate, upper);
    }
    if !alternate {
      ghost var point, letter;
      len, point, letter := StripTrailingZeros(buffer, len);
    }
    return Ok(len);
  }

  /** fmt_float_generate_body, for a finite value and a decimal conversion */
  method GenerateDoubleBody(ryu: Ryu, raw: nat, style: DecimalStyle, precision: nat, buffer: array<char>, capacity: nat,
                            alternate: bool, upper: bool) returns (r: Result<nat>)
    requires capacity <= buffer.Length
    modifies buffer
    ensures BodyInBuffer(DoubleBody(ryu, raw, style, precision, capacity, alternate, upper), r, buffer[..])
  {
    hide PlainBody;
    hide GeneralDouble;
    match style
    case FixedConversion => r := GeneratePlainBody(ryu.fixed(raw, precision), buffer, capacity, alternate, upper);
    case ExpConversion => r := GeneratePlainBody(ryu.exp(raw, precision), buffer, capacity, alternate, upper);
    case GeneralConversion =>
      r := GenerateGeneralDouble(ryu, raw, Significant(precision), buffer, capacity, alternate, upper);
  }
}
