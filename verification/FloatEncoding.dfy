/**
 The binary interchange formats and the x87 format, written down the other way round: the bits of a number from
 its sign, significand and exponent. Decoding them gives the number back, and no other bits do.
 */
module FloatEncoding {
  import opened Powers
  import opened BinaryFloat
  import opened FloatBits

  /** What the lowest bit of the exponent field counts. */
  ghost function FieldUnit(format: LongDouble): nat {
    match format
    case Binary64 => TWO_TO_52
    case X87 => TWO_TO_64
    case Binary128 => TWO_TO_64 * TWO_TO_48
  }

  /** One more than the largest exponent field. */
  ghost function FieldEnd(format: LongDouble): nat { if format.Binary64? then 0x800 else 0x8000 }

  /** The exponent field in its place. */
  ghost function AtField(format: LongDouble, field: nat): nat {
    match format
    case Binary64 => field * TWO_TO_52
    case X87 => field * TWO_TO_64
    case Binary128 => field * (TWO_TO_64 * TWO_TO_48)
  }

  ghost function SignUnit(format: LongDouble): nat { FieldUnit(format) * FieldEnd(format) }

  /** The significand of 1. */
  ghost function Unit(format: LongDouble): nat {
    match format
    case Binary64 => TWO_TO_52
    case X87 => TWO_TO_63
    case Binary128 => TWO_TO_64 * TWO_TO_48
  }

  /** The exponent of the smallest numbers, one unit of which is the smallest subnormal. */
  ghost function LeastExponent(format: LongDouble): int { format.MinExp() - format.MantDig() }

  /** significand * 2^exponent is a number of the format, in the one way it is written there. */
  ghost predicate Representable(format: LongDouble, significand: nat, exponent: int) {
    && significand < 2 * Unit(format)
    && LeastExponent(format) <= exponent <= format.MaxExp() - format.MantDig()
    && (significand < Unit(format) ==> exponent == LeastExponent(format))
  }

  /** Sign, exponent field and the significand, whose top bit is only stored in the x87 format. */
  ghost function Encode(format: LongDouble, negative: bool, significand: nat, exponent: int): nat
    requires Representable(format, significand, exponent)
  {
    var normal := significand >= Unit(format);
    (if negative then SignUnit(format) else 0)
    + AtField(format, if normal then exponent - LeastExponent(format) + 1 else 0)
    + if normal && !format.X87? then significand - Unit(format) else significand
  }

  /** The decoded number is significand * 2^exponent with that sign. */
  ghost predicate Is(parts: FormatBinaryFloat, negative: bool, significand: nat, exponent: int) {
    && parts.negative == negative && parts.Significand() == significand && (parts.zero <==> significand == 0)
    && (significand > 0 ==> parts.binaryExponent == exponent)
  }

  /** Every number of the format is what its bits decode to. */
  lemma EncodedDecodes(format: LongDouble, negative: bool, significand: nat, exponent: int)
    requires Representable(format, significand, exponent)
    ensures var value := Decode(format, Encode(format, negative, significand, exponent));
            value.Number? && Is(value.parts, negative, significand, exponent)
  {
    match format
    case Binary64 => Encoded64(negative, significand, exponent);
    case X87 => EncodedX87(negative, significand, exponent);
    case Binary128 => Encoded128(negative, significand, exponent);
  }

  lemma Encoded64(negative: bool, significand: nat, exponent: int)
    requires Representable(Binary64, significand, exponent)
    ensures var value := Decode(Binary64, Encode(Binary64, negative, significand, exponent));
            value.Number? && Is(value.parts, negative, significand, exponent)
  {
    var field: nat := if significand >= TWO_TO_52 then exponent + 1075 else 0;
    var fraction: nat := if significand >= TWO_TO_52 then significand - TWO_TO_52 else significand;
    Encode64(if negative then 1 else 0, field, fraction);
    hide Encode;
    Fields64(if negative then 1 else 0, field, fraction);
  }

  lemma Fields64(sign: nat, field: nat, fraction: nat)
    requires sign < 2 && field < 0x800 && fraction < TWO_TO_52
    ensures var raw := sign * TWO_TO_63 + field * TWO_TO_52 + fraction;
            raw % TWO_TO_52 == fraction && raw / TWO_TO_52 % 0x800 == field && raw / TWO_TO_63 % 2 == sign
  {
  }

  lemma EncodedX87(negative: bool, significand: nat, exponent: int)
    requires Representable(X87, significand, exponent)
    ensures var value := Decode(X87, Encode(X87, negative, significand, exponent));
            value.Number? && Is(value.parts, negative, significand, exponent)
  {
    var field: nat := if significand >= TWO_TO_63 then exponent + 16446 else 0;
    EncodeX87(if negative then 1 else 0, field, significand);
    hide Encode;
    FieldsX87(if negative then 1 else 0, field, significand);
  }

  lemma FieldsX87(sign: nat, field: nat, significand: nat)
    requires sign < 2 && field < 0x8000 && significand < TWO_TO_64
    ensures var raw := sign * (TWO_TO_64 * 0x8000) + field * TWO_TO_64 + significand;
            raw % TWO_TO_64 == significand && raw / TWO_TO_64 % 0x8000 == field && raw / TWO_TO_64 / 0x8000 % 2 == sign
  {
  }

  lemma Encoded128(negative: bool, significand: nat, exponent: int)
    requires Representable(Binary128, significand, exponent)
    ensures var value := Decode(Binary128, Encode(Binary128, negative, significand, exponent));
            value.Number? && Is(value.parts, negative, significand, exponent)
  {
    var unit := TWO_TO_64 * TWO_TO_48;
    var field: nat := if significand >= unit then exponent + 16495 else 0;
    var fraction: nat := if significand >= unit then significand - unit else significand;
    Encode128(if negative then 1 else 0, field, fraction);
    hide Encode;
    Fields128(if negative then 1 else 0, field, fraction);
    Halves128(fraction);
  }

  lemma Fields128(sign: nat, field: nat, fraction: nat)
    requires sign < 2 && field < 0x8000 && fraction < TWO_TO_64 * TWO_TO_48
    ensures var raw := sign * (TWO_TO_64 * TWO_TO_48 * 0x8000) + field * (TWO_TO_64 * TWO_TO_48) + fraction;
            && raw % TWO_TO_64 == fraction % TWO_TO_64 && raw / TWO_TO_64 % TWO_TO_48 == fraction / TWO_TO_64
            && raw / TWO_TO_64 / TWO_TO_48 % 0x8000 == field && raw / TWO_TO_64 / TWO_TO_63 % 2 == sign
  {
  }

  lemma Halves128(fraction: nat)
    ensures fraction == fraction % TWO_TO_64 + fraction / TWO_TO_64 * TWO_TO_64
  {
  }

  /** A number of the x87 format with the top bit of its significand set but an exponent field of zero. */
  ghost predicate PseudoDenormal(format: LongDouble, raw: nat) {
    format.X87? && raw / TWO_TO_64 % 0x8000 == 0 && raw % TWO_TO_64 >= TWO_TO_63
  }

  /** All other bits that decode to a number are the ones that number is written with. */
  lemma DecodedEncodes(format: LongDouble, raw: nat)
    requires raw < 2 * SignUnit(format) && Decode(format, raw).Number? && !PseudoDenormal(format, raw)
    ensures var parts := Decode(format, raw).parts;
            var exponent := if parts.zero then LeastExponent(format) else parts.binaryExponent;
            && Representable(format, parts.Significand(), exponent)
            && raw == Encode(format, parts.negative, parts.Significand(), exponent)
  {
    hide Decode;
    hide Encode;
    hide Representable;
    match format
    case Binary64 => Decoded64(raw);
    case X87 => DecodedX87(raw);
    case Binary128 => Decoded128(raw);
  }

  /** The bits are those the decoded number is written with. */
  ghost predicate WrittenAs(format: LongDouble, raw: nat, parts: FormatBinaryFloat) {
    var exponent := if parts.zero then LeastExponent(format) else parts.binaryExponent;
    && Representable(format, parts.Significand(), exponent)
    && raw == Encode(format, parts.negative, parts.Significand(), exponent)
  }

  lemma Decoded64(raw: nat)
    requires raw < 2 * TWO_TO_63 && Decode(Binary64, raw).Number?
    ensures WrittenAs(Binary64, raw, Decode(Binary64, raw).parts)
  {
    Split64(raw);
    var sign, field, fraction := raw / TWO_TO_63 % 2, raw / TWO_TO_52 % 0x800, raw % TWO_TO_52;
    assert IsNegative(Binary64, raw) <==> sign == 1;
    Written64(raw, sign, field, fraction);
  }

  lemma Together(format: LongDouble, raw: nat, parts: FormatBinaryFloat, negative: bool, significand: nat, exponent: int)
    requires Representable(format, significand, exponent) && raw == Encode(format, negative, significand, exponent)
    requires Is(parts, negative, significand, exponent) && (significand == 0 ==> exponent == LeastExponent(format))
    ensures WrittenAs(format, raw, parts)
  {
    hide Encode;
    hide Representable;
  }

  lemma Fields64Are(sign: nat, field: nat, fraction: nat)
    requires sign < 2 && field < 0x800 && fraction < TWO_TO_52 && Decode64(fraction, field, sign == 1).Number?
    ensures field < 0x7FF
    ensures Is(Decode64(fraction, field, sign == 1).parts, sign == 1, (if field == 0 then fraction else TWO_TO_52 + fraction), (if field == 0 then -1074 else field - 1075))
  {
  }

  lemma Written64(raw: nat, sign: nat, field: nat, fraction: nat)
    requires sign < 2 && field < 0x800 && fraction < TWO_TO_52
    requires raw == sign * TWO_TO_63 + field * TWO_TO_52 + fraction
    requires Decode64(fraction, field, sign == 1).Number?
    ensures WrittenAs(Binary64, raw, Decode64(fraction, field, sign == 1).parts)
  {
    hide Encode;
    hide Representable;
    hide LeastExponent;
    hide Is;
    Fields64Are(sign, field, fraction);
    Encode64(sign, field, fraction);
    Together(Binary64, raw, Decode64(fraction, field, sign == 1).parts, sign == 1, (if field == 0 then fraction else TWO_TO_52 + fraction), (if field == 0 then -1074 else field - 1075));
  }

  lemma Encode64(sign: nat, field: nat, fraction: nat)
    requires sign < 2 && field < 0x7FF && fraction < TWO_TO_52
    ensures var exponent := if field == 0 then -1074 else field - 1075;
            var significand := if field == 0 then fraction else TWO_TO_52 + fraction;
            && Representable(Binary64, significand, exponent) && LeastExponent(Binary64) == -1074
            && Encode(Binary64, sign == 1, significand, exponent) == sign * TWO_TO_63 + field * TWO_TO_52 + fraction
  {
  }

  lemma DecodedX87(raw: nat)
    requires raw < 2 * (TWO_TO_64 * 0x8000) && Decode(X87, raw).Number? && !PseudoDenormal(X87, raw)
    ensures WrittenAs(X87, raw, Decode(X87, raw).parts)
  {
    SplitX87(raw);
    var sign, field, significand := raw / TWO_TO_64 / 0x8000 % 2, raw / TWO_TO_64 % 0x8000, raw % TWO_TO_64;
    assert IsNegative(X87, raw) <==> sign == 1;
    WrittenX87(raw, sign, field, significand);
  }

  lemma FieldsX87Are(sign: nat, field: nat, significand: nat)
    requires sign < 2 && field < 0x8000 && significand < TWO_TO_64 && (field == 0 ==> significand < TWO_TO_63) && DecodeX87(significand, field, sign == 1).Number?
    ensures field < 0x7FFF && (field != 0 ==> significand >= TWO_TO_63)
    ensures Is(DecodeX87(significand, field, sign == 1).parts, sign == 1, significand, (if field == 0 then -16445 else field - 16446))
  {
  }

  lemma WrittenX87(raw: nat, sign: nat, field: nat, significand: nat)
    requires sign < 2 && field < 0x8000 && significand < TWO_TO_64 && (field == 0 ==> significand < TWO_TO_63)
    requires raw == sign * (TWO_TO_64 * 0x8000) + field * TWO_TO_64 + significand
    requires DecodeX87(significand, field, sign == 1).Number?
    ensures WrittenAs(X87, raw, DecodeX87(significand, field, sign == 1).parts)
  {
    hide Encode;
    hide Representable;
    hide LeastExponent;
    hide Is;
    FieldsX87Are(sign, field, significand);
    EncodeX87(sign, field, significand);
    Together(X87, raw, DecodeX87(significand, field, sign == 1).parts, sign == 1, significand, (if field == 0 then -16445 else field - 16446));
  }

  lemma EncodeX87(sign: nat, field: nat, significand: nat)
    requires sign < 2 && field < 0x7FFF && significand < TWO_TO_64 && (field == 0 <==> significand < TWO_TO_63)
    ensures var exponent := if field == 0 then -16445 else field - 16446;
            && Representable(X87, significand, exponent) && LeastExponent(X87) == -16445
            && Encode(X87, sign == 1, significand, exponent) == sign * (TWO_TO_64 * 0x8000) + field * TWO_TO_64 + significand
  {
  }

  lemma Decoded128(raw: nat)
    requires raw < 2 * (TWO_TO_64 * TWO_TO_48 * 0x8000) && Decode(Binary128, raw).Number?
    ensures WrittenAs(Binary128, raw, Decode(Binary128, raw).parts)
  {
    Split128(raw);
    var sign, field := raw / TWO_TO_64 / TWO_TO_63 % 2, raw / TWO_TO_64 / TWO_TO_48 % 0x8000;
    var high, low := raw / TWO_TO_64 % TWO_TO_48, raw % TWO_TO_64;
    assert IsNegative(Binary128, raw) <==> sign == 1;
    Written128(raw, sign, field, high, low);
  }

  lemma Fields128Are(sign: nat, field: nat, high: nat, low: nat)
    requires sign < 2 && field < 0x8000 && high < TWO_TO_48 && low < TWO_TO_64 && Decode128(low, high, field, sign == 1).Number?
    ensures field < 0x7FFF
    ensures Is(Decode128(low, high, field, sign == 1).parts, sign == 1, (low + high * TWO_TO_64 + if field == 0 then 0 else TWO_TO_64 * TWO_TO_48), (if field == 0 then -16494 else field - 16495))
  {
  }

  lemma Written128(raw: nat, sign: nat, field: nat, high: nat, low: nat)
    requires sign < 2 && field < 0x8000 && high < TWO_TO_48 && low < TWO_TO_64
    requires raw == sign * (TWO_TO_64 * TWO_TO_48 * 0x8000) + field * (TWO_TO_64 * TWO_TO_48) + high * TWO_TO_64 + low
    requires Decode128(low, high, field, sign == 1).Number?
    ensures WrittenAs(Binary128, raw, Decode128(low, high, field, sign == 1).parts)
  {
    hide Encode;
    hide Representable;
    hide LeastExponent;
    hide Is;
    Fields128Are(sign, field, high, low);
    Encode128(sign, field, low + high * TWO_TO_64);
    Together(Binary128, raw, Decode128(low, high, field, sign == 1).parts, sign == 1, (low + high * TWO_TO_64 + if field == 0 then 0 else TWO_TO_64 * TWO_TO_48), (if field == 0 then -16494 else field - 16495));
  }

  lemma Encode128(sign: nat, field: nat, fraction: nat)
    requires sign < 2 && field < 0x7FFF && fraction < TWO_TO_64 * TWO_TO_48
    ensures var exponent := if field == 0 then -16494 else field - 16495;
            var significand := fraction + if field == 0 then 0 else TWO_TO_64 * TWO_TO_48;
            && Representable(Binary128, significand, exponent) && LeastExponent(Binary128) == -16494
            && Encode(Binary128, sign == 1, significand, exponent)
               == sign * (TWO_TO_64 * TWO_TO_48 * 0x8000) + field * (TWO_TO_64 * TWO_TO_48) + fraction
  {
  }

  lemma Split64(raw: nat)
    requires raw < 2 * TWO_TO_63
    ensures raw == raw / TWO_TO_63 % 2 * TWO_TO_63 + raw / TWO_TO_52 % 0x800 * TWO_TO_52 + raw % TWO_TO_52
  {
  }

  lemma SplitX87(raw: nat)
    requires raw < 2 * (TWO_TO_64 * 0x8000)
    ensures raw == raw / TWO_TO_64 / 0x8000 % 2 * (TWO_TO_64 * 0x8000) + raw / TWO_TO_64 % 0x8000 * TWO_TO_64 + raw % TWO_TO_64
  {
  }

  lemma Split128(raw: nat)
    requires raw < 2 * (TWO_TO_64 * TWO_TO_48 * 0x8000)
    ensures raw == raw / TWO_TO_64 / TWO_TO_63 % 2 * (TWO_TO_64 * TWO_TO_48 * 0x8000)
                   + raw / TWO_TO_64 / TWO_TO_48 % 0x8000 * (TWO_TO_64 * TWO_TO_48)
                   + raw / TWO_TO_64 % TWO_TO_48 * TWO_TO_64 + raw % TWO_TO_64
  {
  }

  /** With the exponent field all ones the bits are an infinity or, with any fraction bit set, no number. */
  lemma SpecialBits(format: LongDouble, raw: nat)
    requires raw / FieldUnit(format) % FieldEnd(format) == FieldEnd(format) - 1
    ensures Decode(format, raw) == if raw % Unit(format) == 0 then Infinite else NotANumber
  {
    if format.Binary128? { TopField128(raw); }
    if format.X87? { StoredBit(raw); }
  }

  lemma TopField128(raw: nat)
    ensures raw / (TWO_TO_64 * TWO_TO_48) == raw / TWO_TO_64 / TWO_TO_48
    ensures raw % (TWO_TO_64 * TWO_TO_48) == 0 <==> raw % TWO_TO_64 == 0 && raw / TWO_TO_64 % TWO_TO_48 == 0
  {
  }

  lemma StoredBit(raw: nat)
    ensures raw % TWO_TO_64 % TWO_TO_63 == raw % TWO_TO_63
  {
  }

  /** The bits of 1. */
  ghost function OneBits(format: LongDouble): nat {
    match format
    case Binary64 => 0x3FF0_0000_0000_0000
    case X87 => 0x3FFF_8000_0000_0000_0000
    case Binary128 => 0x3FFF_0000_0000_0000_0000_0000_0000_0000
  }

  /** They decode to the value 1, whatever the format. */
  lemma OneIsOne(format: LongDouble)
    ensures var value := Decode(format, OneBits(format));
            value.Number? && !value.parts.negative && value.parts.Num(0) == value.parts.Den(0)
  {
    hide Pow;
    OneParts(format);
    hide Decode;
    PowersOfUnits();
    PowersOfNothing();
  }

  lemma OneParts(format: LongDouble)
    ensures Decode(format, OneBits(format)) ==
      Number(match format
             case Binary64 => FormatBinaryFloat(TWO_TO_52, 0, -52, 53, false, false)
             case X87 => FormatBinaryFloat(TWO_TO_63, 0, -63, 64, false, false)
             case Binary128 => FormatBinaryFloat(0, TWO_TO_48, -112, 113, false, false))
  {
  }

  lemma PowersOfUnits()
    ensures Pow(2, 52) == TWO_TO_52 && Pow(2, 63) == TWO_TO_63 && Pow(2, 112) == TWO_TO_64 * TWO_TO_48
  {
    hide Pow;
    LargePowers();
    SixteenBits();
    PowAdd(2, 52, 1);
    PowAdd(2, 63, 1);
    PowAdd(2, 112, 1);
  }

  lemma PowersOfNothing()
    ensures Pow(2, 0) == 1 && Pow(10, 0) == 1
  {
  }

  /** Raising a nonzero exponent field by one doubles the number. */
  lemma FieldUpDoubles(format: LongDouble, raw: nat)
    requires raw < 2 * SignUnit(format) && Decode(format, raw).Number?
    requires 0 < raw / FieldUnit(format) % FieldEnd(format) < FieldEnd(format) - 2
    ensures var parts, value := Decode(format, raw).parts, Decode(format, raw + FieldUnit(format));
            value.Number? && Is(value.parts, parts.negative, parts.Significand(), parts.binaryExponent + 1)
  {
    if format.Binary128? {
      TopField128(raw);
      NextField128(raw);
    } else if format.X87? {
      NextFieldX87(raw);
    } else {
      NextField64(raw);
    }
  }

  lemma NextField64(raw: nat)
    requires raw / TWO_TO_52 % 0x800 < 0x7FF
    ensures var up := raw + TWO_TO_52;
            up % TWO_TO_52 == raw % TWO_TO_52 && up / TWO_TO_52 % 0x800 == raw / TWO_TO_52 % 0x800 + 1 && up / TWO_TO_63 % 2 == raw / TWO_TO_63 % 2
  {
  }

  lemma NextFieldX87(raw: nat)
    requires raw / TWO_TO_64 % 0x8000 < 0x7FFF
    ensures var up := raw + TWO_TO_64;
            && up % TWO_TO_64 == raw % TWO_TO_64 && up / TWO_TO_64 % 0x8000 == raw / TWO_TO_64 % 0x8000 + 1
            && up / TWO_TO_64 / 0x8000 % 2 == raw / TWO_TO_64 / 0x8000 % 2
  {
  }

  lemma NextField128(raw: nat)
    requires raw / TWO_TO_64 / TWO_TO_48 % 0x8000 < 0x7FFF
    ensures var up := raw + TWO_TO_64 * TWO_TO_48;
            && up % TWO_TO_64 == raw % TWO_TO_64 && up / TWO_TO_64 % TWO_TO_48 == raw / TWO_TO_64 % TWO_TO_48
            && up / TWO_TO_64 / TWO_TO_48 % 0x8000 == raw / TWO_TO_64 / TWO_TO_48 % 0x8000 + 1
            && up / TWO_TO_64 / TWO_TO_63 % 2 == raw / TWO_TO_64 / TWO_TO_63 % 2
  {
    MoveUp(raw, TWO_TO_48);
    NextFieldHigh(raw / TWO_TO_64);
  }

  lemma MoveUp(n: nat, k: nat)
    ensures (n + TWO_TO_64 * k) % TWO_TO_64 == n % TWO_TO_64 && (n + TWO_TO_64 * k) / TWO_TO_64 == n / TWO_TO_64 + k
  {
  }

  lemma NextFieldHigh(high: nat)
    requires high / TWO_TO_48 % 0x8000 < 0x7FFF
    ensures var up := high + TWO_TO_48;
            && up % TWO_TO_48 == high % TWO_TO_48 && up / TWO_TO_48 % 0x8000 == high / TWO_TO_48 % 0x8000 + 1
            && up / TWO_TO_63 % 2 == high / TWO_TO_63 % 2
  {
  }
}
