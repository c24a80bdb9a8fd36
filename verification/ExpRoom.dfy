/** `%Le` cannot run out of room. */
module ExpRoom {
  import opened Powers
  import opened Words
  import opened Decimal
  import opened BigUInt
  import opened Rounding
  import opened BinaryFloat
  import opened Magnitude
  import opened FixedStyle
  import opened ExpStyle
  import opened SignificantDigits
  import opened ExpText

  lemma {:induction false} FiveBelowTwo(p: nat)
    ensures Pow(5, p) <= Pow(2, (7 * p + 2) / 3)
  {
    SmallFives();
    if p >= 3 {
      FiveBelowTwo(p - 3);
      var k := (7 * (p - 3) + 2) / 3;
      PowAdd(5, 3, p - 3);
      PowAdd(2, 7, k);
      assert (7 * p + 2) / 3 == 7 + k;
      MulMono(125, 128, Pow(5, p - 3));
      MulMono(Pow(5, p - 3), Pow(2, k), 128);
    } else {
      assert p == 0 || p == 1 || p == 2;
    }
  }

  lemma SmallFives()
    ensures Pow(5, 0) == 1 && Pow(5, 1) == 5 && Pow(5, 2) == 25 && Pow(5, 3) == 125
    ensures Pow(2, 0) == 1 && Pow(2, 3) == 8 && Pow(2, 5) == 32 && Pow(2, 7) == 128
  {
    PowAdd(2, 3, 4);
  }

  /** 10^LeastDecade is below the smallest subnormal. */
  function LeastDecade(format: LongDouble): int {
    match format case Binary64 => -324 case X87 => -4952 case Binary128 => -4966
  }

  lemma LeastValue(format: LongDouble, least: nat)
    requires least == 0 - LeastDecade(format)
    ensures Pow(2, format.MaxDecimalPrecision()) < Pow(10, least)
  {
    match format
    case Binary64 => LeastPowers(11, 16, 51);
    case X87 => LeastPowers(176, 24, 77);
    case Binary128 => LeastPowers(177, 10, 33);
  }

  lemma LeastPowers(k: nat, restTen: nat, restTwo: nat)
    requires (restTen == 16 && restTwo == 51) || (restTen == 24 && restTwo == 77) || (restTen == 10 && restTwo == 33)
    ensures Pow(10, 28 * k + restTen) > Pow(2, 93 * k + restTwo)
  {
    TwentyEightDigits();
    Remainders();
    Scale(k, restTen, restTwo);
  }

  lemma Remainders()
    ensures Pow(10, 16) > Pow(2, 51) && Pow(10, 24) > Pow(2, 77) && Pow(10, 10) > Pow(2, 33)
  {
    SmallPowers();
    MediumPowers();
    PowAdd(10, 3, 7);
    PowAdd(10, 7, 7); PowAdd(10, 2, 14); PowAdd(10, 10, 14);
    PowAdd(2, 13, 20); PowAdd(2, 20, 20); PowAdd(2, 4, 7); PowAdd(2, 11, 40);
    PowAdd(2, 4, 33); PowAdd(2, 37, 40);
  }

  /** Every finite nonzero value lies within the decades of its format. */
  lemma DecadeRange(format: LongDouble, parts: FormatBinaryFloat, e: int)
    requires parts.Finite(format) && !parts.zero && InDecade(parts, e)
    ensures LeastDecade(format) <= e <= format.Max10Exp()
  {
    NotTooLarge(format, parts);
    NotTooSmall(format, parts);
    DecadeTells(parts, e, format.Max10Exp() + 1);
    DecadeTells(parts, e, LeastDecade(format));
  }

  lemma NotTooLarge(format: LongDouble, parts: FormatBinaryFloat)
    requires parts.Finite(format) && !parts.zero
    ensures !AtLeastTenTo(parts, format.Max10Exp() + 1)
  {
    var top := format.Max10Exp() + 1;
    BelowTwoToMaxExp(format, parts);
    LargestValue(format);
    assert Max(-(-top), 0) == top && Max(-top, 0) == 0;
    assert Pow(10, 0) == 1;
    MulMono(1, Pow(2, Max(-parts.binaryExponent, 0)), Pow(10, top));
  }

  lemma NotTooSmall(format: LongDouble, parts: FormatBinaryFloat)
    requires parts.Finite(format) && !parts.zero
    ensures AtLeastTenTo(parts, LeastDecade(format))
  {
    var least: nat := 0 - LeastDecade(format);
    LeastValue(format, least);
    assert Max(0 - LeastDecade(format), 0) == least && Max(LeastDecade(format), 0) == 0;
    assert Pow(10, 0) == 1;
    hide Pow;
    PowMono(2, Max(-parts.binaryExponent, 0), format.MaxDecimalPrecision());
    MulMono(1, Pow(2, Max(parts.binaryExponent, 0)), parts.Significand());
    MulMono(1, parts.Significand() * Pow(2, Max(parts.binaryExponent, 0)), Pow(10, least));
  }

  /** A value in decade e times 10^places is below 10^c. */
  lemma ScaledBelowTen(parts: FormatBinaryFloat, e: int, places: nat, c: nat)
    requires InDecade(parts, e) && c == Max(places + e + 1, 0)
    ensures parts.Num(places) < Pow(10, c) * parts.Den(places)
  {
    if places + e + 1 >= 0 {
      AtLeastAtScale(parts, -(e + 1), c, places);
    } else {
      DecadeTells(parts, e, -(places as int));
      assert Pow(10, 0) == 1;
    }
  }

  /** Scaling a value in decade e needs no more bits than the product with 5^places or the result. */
  lemma ScaledBits(format: LongDouble, parts: FormatBinaryFloat, e: int, places: nat, c: nat, bits: nat)
    requires parts.Finite(format) && !parts.zero && InDecade(parts, e) && c == Max(places + e + 1, 0)
    requires bits >= (10 * c + 2) / 3 && bits >= format.MantDig() + (7 * places + 2) / 3
    ensures BoundedBy(parts, places, bits)
  {
    if parts.binaryExponent + places >= 0 {
      ResultBits(parts, e, places, c, bits);
    } else {
      ProductBits(format, parts, places, bits);
    }
  }

  lemma ResultBits(parts: FormatBinaryFloat, e: int, places: nat, c: nat, bits: nat)
    requires InDecade(parts, e) && c == Max(places + e + 1, 0)
    requires bits >= (10 * c + 2) / 3 && parts.binaryExponent + places >= 0
    ensures BoundedBy(parts, places, bits)
  {
    var n := parts.Significand() * Pow(5, places) * Pow(2, parts.binaryExponent + places);
    ScaledUp(parts, places);
    ScaledBelowTen(parts, e, places, c);
    MulCancelLt(n, Pow(10, c), parts.Den(places));
    TenBelowTwo(c);
    PowMono(2, (10 * c + 2) / 3, bits);
  }

  lemma ProductBits(format: LongDouble, parts: FormatBinaryFloat, places: nat, bits: nat)
    requires parts.Finite(format) && parts.binaryExponent + places < 0
    requires bits >= format.MantDig() + (7 * places + 2) / 3
    ensures BoundedBy(parts, places, bits)
  {
    var k := (7 * places + 2) / 3;
    FiveBelowTwo(places);
    ProductBelow(parts.Significand(), Pow(2, format.MantDig()), Pow(5, places), Pow(2, k));
    PowAdd(2, format.MantDig(), k);
    PowMono(2, format.MantDig() + k, bits);
    NoShift(parts.Significand() * Pow(5, places), parts.binaryExponent + places);
  }

  lemma ProductBelow(a: nat, b: nat, c: nat, d: nat)
    requires a < b && 0 < c <= d
    ensures a * c < b * d
  {
    ProductExceeds(d, b, c, a);
  }

  lemma NoShift(n: nat, shift: int)
    requires shift < 0
    ensures n * Pow(2, Max(shift, 0)) == n
  {
  }

  lemma WindowRoom(format: LongDouble, parts: FormatBinaryFloat, e: int)
    requires parts.Finite(format) && !parts.zero && InDecade(parts, e)
    ensures WindowFits(parts, e, format.BigUIntMaxWords())
  {
    DecadeRange(format, parts, e);
    var words := format.BigUIntMaxWords();
    forall places: nat | Abs(places + e) <= 15
      ensures Fits(parts, places, words)
    {
      var bits := 32 * words - 31;
      ScaledBits(format, parts, e, places, Max(places + e + 1, 0), bits);
    }
  }

  /**
   `%Le` cannot run out of room: for every finite nonzero value and every precision that is not
   refused, all bignums fit the words and all characters fit the buffer.
   */
  lemma ExpNeverOverflows(format: LongDouble, parts: FormatBinaryFloat, e: int, precision: nat)
    requires parts.Finite(format) && !parts.zero && InDecade(parts, e)
    requires precision <= format.MaxDecimalPrecision()
    ensures ExpBodyFits(parts, e, precision, format.BigUIntMaxWords(), format.PrintfBufferSize())
    ensures Abs(e) < INT32_MAX && precision + 6 <= format.PrintfBufferSize()
  {
    DecadeRange(format, parts, e);
    WindowRoom(format, parts, e);
    DigitsRoom(format, parts, e, precision + 1);
    ExponentLength(ExpExponent(parts, e, precision));
    assert format.Binary64? || format.X87? || format.Binary128?;
  }

  lemma DigitsRoom(format: LongDouble, parts: FormatBinaryFloat, e: int, count: nat)
    requires parts.Finite(format) && !parts.zero && InDecade(parts, e)
    requires 0 < count <= format.MaxDecimalPrecision() + 1
    ensures ExpFits(parts, e, count, format.BigUIntMaxWords(), format.PrintfBufferSize())
  {
    DecadeRange(format, parts, e);
    ExponentOfInteger(parts, e);
    FixedNeverOverflows(format, parts, 0);
    if count - 1 - e > 0 { PlacesRoom(format, parts, e, count, count - 1 - e); }
    assert format.Binary64? || format.X87? || format.Binary128?;
  }

  lemma PlacesRoom(format: LongDouble, parts: FormatBinaryFloat, e: int, count: nat, places: nat)
    requires parts.Finite(format) && !parts.zero && InDecade(parts, e)
    requires 0 < count <= format.MaxDecimalPrecision() + 1 && places == count - 1 - e
    ensures Fits(parts, places, format.BigUIntMaxWords()) && Pow(10, count) < Pow(BASE, format.BigUIntMaxWords())
  {
    DecadeRange(format, parts, e);
    var words := format.BigUIntMaxWords();
    var bits := 32 * words - 31;
    ScaledBits(format, parts, e, places, count, bits);
    TenBelowTwo(count);
    PowStrict(2, (10 * count + 2) / 3, 32 * words);
    BasePower(words);
  }

  lemma ExponentLength(x: int)
    requires Abs(x) < 10000
    ensures |ExponentText(x, false)| <= 6
  {
    SmallPowers();
    PowAdd(10, 1, 3);
    DecLengthIs(Abs(x), 4);
  }
}
