/** How long the texts of the three decimal styles get. */
module TextLengths {
  import opened Powers
  import opened Decimal
  import opened Rounding
  import opened BinaryFloat
  import opened Magnitude
  import opened FixedStyle
  import opened SignificantDigits
  import opened ExpText
  import opened ExpRoom
  import opened GeneralStyle
  import opened LongDoublePrint

  /** How long fixed style can get for a number of at most `digits` digits. */
  lemma FixedLength(t: string, n: nat, precision: nat, alternate: bool, digits: nat)
    requires ReadsAsFixed(t, n, precision, alternate) && n < Pow(10, digits)
    ensures |t| <= 1 + precision + Max(1, digits - precision)
  {
    var whole, fraction :| PartsRead(t, whole, fraction, n, precision, alternate);
    if whole[0] != '0' {
      var all := whole + fraction;
      assert all[0] == whole[0];
      DecUnique(all);
      if digits > 0 { DecLengthIs(n, digits); } else { DecLength(n); }
    }
  }

  lemma ExpLength(t: string, m: nat, precision: nat, exponent: int, alternate: bool, upper: bool)
    requires ReadsAsExp(t, m, precision, exponent, alternate, upper) && Abs(exponent) < 10000
    ensures |t| <= precision + 8
  {
    var lead, fraction :| ExpPartsRead(t, lead, fraction, m, precision, exponent, alternate, upper);
    ExponentLength(exponent);
    assert |ExponentText(exponent, upper)| == |ExponentText(exponent, false)|;
  }

  /** Stripping zeros off a number leaves one that is no larger. */
  lemma TrimmedIsSmaller(n': nat, p': nat, n: nat, p: nat, alternate: bool)
    requires Trimmed(n', p', n, p, alternate)
    ensures n' <= n && p' <= p
  {
    if !alternate { MulMono(1, Pow(10, p - p'), n'); }
  }

  lemma GeneralLength(t: string, mantissa: nat, exponent: int, significant: nat, alternate: bool, upper: bool)
    requires significant > 0 && ReadsAsGeneral(t, mantissa, exponent, significant, alternate, upper)
    requires mantissa < Pow(10, significant) && Abs(exponent) < 10000
    ensures |t| <= significant + 7
  {
    hide Trimmed;
    hide ReadsAsFixed;
    hide ReadsAsExp;
    hide Pow;
    if -4 <= exponent < significant {
      var n: nat, p: nat :|
        ReadsAsFixed(t, n, p, alternate) && Trimmed(n, p, mantissa, significant - 1 - exponent, alternate);
      TrimmedFixedLength(t, n, p, mantissa, significant - 1 - exponent, significant, alternate);
    } else {
      var m: nat, p: nat :| ReadsAsExp(t, m, p, exponent, alternate, upper) && Trimmed(m, p, mantissa, significant - 1, alternate);
      TrimmedIsSmaller(m, p, mantissa, significant - 1, alternate);
      ExpLength(t, m, p, exponent, alternate, upper);
    }
  }

  lemma TrimmedFixedLength(t: string, n: nat, p: nat, mantissa: nat, places: nat, significant: nat, alternate: bool)
    requires ReadsAsFixed(t, n, p, alternate) && Trimmed(n, p, mantissa, places, alternate)
    requires mantissa < Pow(10, significant) && significant > 0 && places <= significant + 3
    ensures |t| <= significant + 7
  {
    TrimmedIsSmaller(n, p, mantissa, places, alternate);
    FixedLength(t, n, p, alternate, significant);
  }

  /** No printed exponent has more than four digits. */
  lemma ExponentRange(format: LongDouble, parts: FormatBinaryFloat, e: int, precision: nat)
    requires parts.Finite(format) && !parts.zero && InDecade(parts, e)
    ensures Abs(ExpExponent(parts, e, precision)) < 10000
    ensures ExpMantissa(parts, e, precision) < Pow(10, precision + 1)
  {
    DecadeRange(format, parts, e);
    PrintedIsNearest(parts, e, precision);
  }

  lemma FixedBodyLength(format: LongDouble, parts: FormatBinaryFloat, precision: nat, alternate: bool, t: string)
    requires parts.Finite(format) && ReadsAsFixed(t, FixedNumber(parts, precision), precision, alternate)
    ensures |t| <= format.MaxFixedPrefix() + 8 + precision
  {
    var digits := format.Max10Exp() + 1 + precision;
    if parts.zero {
      ZeroNumber(parts, precision);
    } else {
      FixedNumberBelow(format, parts, precision);
      DecLength(FixedNumber(parts, precision));
      PowMono(10, |Dec(FixedNumber(parts, precision))|, digits);
    }
    FixedLength(t, FixedNumber(parts, precision), precision, alternate, digits);
  }

  lemma ZeroNumber(parts: FormatBinaryFloat, precision: nat)
    requires parts.Consistent() && parts.zero
    ensures FixedNumber(parts, precision) == 0
  {
    assert parts.Num(precision) == 0 by { ZeroTimes(Pow(2, Max(parts.binaryExponent, 0)), Pow(10, precision)); }
    ZeroRounds(parts.Den(precision));
  }

  lemma ZeroTimes(a: nat, b: nat)
    ensures 0 * a * b == 0
  {
  }

  lemma ZeroRounds(d: nat)
    requires d > 0
    ensures RoundHalfEven(0, d) == 0
  {
  }

  lemma ExpBodyLength(format: LongDouble, parts: FormatBinaryFloat, e: int, precision: nat, alternate: bool, upper: bool, t: string)
    requires parts.Finite(format) && (!parts.zero ==> InDecade(parts, e))
    requires Denotes(t, ExpConversion, parts, e, precision, alternate, upper)
    ensures |t| <= precision + 8
  {
    if parts.zero {
      ExpLength(t, 0, precision, 0, alternate, upper);
    } else {
      ExponentRange(format, parts, e, precision);
      ExpLength(t, ExpMantissa(parts, e, precision), precision, ExpExponent(parts, e, precision), alternate, upper);
    }
  }

  lemma GeneralBodyLength(format: LongDouble, parts: FormatBinaryFloat, e: int, significant: nat, alternate: bool, upper: bool, t: string)
    requires parts.Finite(format) && (!parts.zero ==> InDecade(parts, e)) && significant > 0
    requires ReadsAsGeneral(t, GeneralMantissa(parts, e, significant), GeneralExponent(parts, e, significant), significant,
                            alternate, upper)
    ensures |t| <= significant + 7
  {
    if !parts.zero { ExponentRange(format, parts, e, significant - 1); }
    GeneralLength(t, GeneralMantissa(parts, e, significant), GeneralExponent(parts, e, significant), significant, alternate, upper);
  }
}
