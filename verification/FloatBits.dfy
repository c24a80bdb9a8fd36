/** The bits of `double` and `long double` arguments, and the values they stand for (cbase/fmt.c). */
module FloatBits {
  import opened Powers
  import opened Words
  import opened BinaryFloat

  /** An encoding that stands for nothing is refused by the decoder. */
  datatype FloatValue = NotANumber | Infinite | Invalid | Number(parts: FormatBinaryFloat)

  const TWO_TO_48: nat := 0x1_0000_0000_0000
  const TWO_TO_52: nat := 0x10_0000_0000_0000
  const TWO_TO_63: nat := 0x8000_0000_0000_0000
  const TWO_TO_64: nat := 0x1_0000_0000_0000_0000

  /** signbit */
  function IsNegative(format: LongDouble, raw: nat): bool {
    match format
    case Binary64 => raw / TWO_TO_63 % 2 == 1
    case X87 => raw / TWO_TO_64 / 0x8000 % 2 == 1
    case Binary128 => raw / TWO_TO_64 / TWO_TO_63 % 2 == 1
  }

  /** isnan, isinf, and fmt_decompose_ldouble for a `long double` of the format. */
  function Decode(format: LongDouble, raw: nat): FloatValue {
    match format
    case Binary64 => Decode64(raw % TWO_TO_52, raw / TWO_TO_52 % 0x800, IsNegative(format, raw))
    case X87 => DecodeX87(raw % TWO_TO_64, raw / TWO_TO_64 % 0x8000, IsNegative(format, raw))
    case Binary128 =>
      Decode128(raw % TWO_TO_64, raw / TWO_TO_64 % TWO_TO_48, raw / TWO_TO_64 / TWO_TO_48 % 0x8000, IsNegative(format, raw))
  }

  function ZeroParts(negative: bool, precisionBits: nat): FormatBinaryFloat {
    FormatBinaryFloat(0, 0, 0, precisionBits, negative, true)
  }

  /** fmt_decode_binary64_ldouble */
  function Decode64(fraction: nat, exponentBits: nat, negative: bool): FloatValue
    requires fraction < TWO_TO_52 && exponentBits < 0x800
  {
    if exponentBits == 0x7FF then (if fraction != 0 then NotANumber else Infinite)
    else if exponentBits == 0 && fraction == 0 then Number(ZeroParts(negative, 53))
    else if exponentBits == 0 then Number(FormatBinaryFloat(fraction, 0, 1 - 1023 - 52, 53, negative, false))
    else Number(FormatBinaryFloat(TWO_TO_52 + fraction, 0, exponentBits - 1023 - 52, 53, negative, false))
  }

  /** fmt_decode_x87_ldouble: the bit before the point is stored, and must be set unless the exponent is zero. */
  function DecodeX87(significand: nat, exponentBits: nat, negative: bool): FloatValue
    requires significand < TWO_TO_64 && exponentBits < 0x8000
  {
    if exponentBits == 0x7FFF then (if significand % TWO_TO_63 != 0 then NotANumber else Infinite)
    else if exponentBits == 0 && significand == 0 then Number(ZeroParts(negative, 64))
    else if exponentBits != 0 && significand < TWO_TO_63 then Invalid
    else Number(FormatBinaryFloat(significand, 0, (if exponentBits == 0 then 1 else exponentBits) - 16383 - 63, 64, negative, false))
  }

  /** fmt_decode_binary128_ldouble */
  function Decode128(low: nat, fractionHigh: nat, exponentBits: nat, negative: bool): FloatValue
    requires low < TWO_TO_64 && fractionHigh < TWO_TO_48 && exponentBits < 0x8000
  {
    if exponentBits == 0x7FFF then (if fractionHigh != 0 || low != 0 then NotANumber else Infinite)
    else if exponentBits == 0 && fractionHigh == 0 && low == 0 then Number(ZeroParts(negative, 113))
    else if exponentBits == 0 then Number(FormatBinaryFloat(low, fractionHigh, 1 - 16383 - 112, 113, negative, false))
    else Number(FormatBinaryFloat(low, TWO_TO_48 + fractionHigh, exponentBits - 16383 - 112, 113, negative, false))
  }

  /** Whatever the bits, a value that decodes is a finite one of its format. */
  lemma DecodedIsFinite(format: LongDouble, raw: nat)
    ensures Decode(format, raw).Number? ==>
      Decode(format, raw).parts.Finite(format) && Decode(format, raw).parts.precisionBits == format.MantDig()
  {
    LargePowers();
  }

  lemma LargePowers()
    ensures Pow(2, 53) == 2 * TWO_TO_52 && Pow(2, 64) == TWO_TO_64 && Pow(2, 113) == TWO_TO_64 * (2 * TWO_TO_48)
  {
    hide Pow;
    BaseIsTwoTo32();
    PowAdd(2, 32, 32);
    SixteenBits();
    PowAdd(2, 32, 16);
    PowAdd(2, 48, 5);
    PowAdd(2, 64, 48);
    PowAdd(2, 112, 1);
  }

  lemma SixteenBits()
    ensures Pow(2, 1) == 2 && Pow(2, 5) == 32 && Pow(2, 16) == 0x1_0000
  {
    assert Pow(2, 4) == 16;
    assert Pow(2, 8) == 256 by { PowAdd(2, 4, 4); }
    PowAdd(2, 8, 8);
  }
}
