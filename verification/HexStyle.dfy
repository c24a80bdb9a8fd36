/** `%a`: the significand in hexadecimal, rounded to a number of places, and the binary exponent (cbase/fmt.c). */
module HexStyle {
  import opened Powers
  import opened Results
  import opened Bits
  import opened Decimal
  import opened IntegerText
  import opened BigUInt
  import opened Rounding
  import opened BinaryFloat
  import opened SignificantDigits
  import opened ExpText

  // ---- hexadecimal digits -----------------------------------------------------------------

  /** The last k hexadecimal digits of n, with leading zeros. */
  ghost function HexPad(n: nat, k: nat, upper: bool): (s: string)
    ensures |s| == k
  {
    if k == 0 then "" else HexPad(n / 16, k - 1, upper) + [DigitTable(n % 16, upper)]
  }

  lemma {:induction false} HexPadAt(n: nat, k: nat, upper: bool, i: nat)
    requires i < k
    ensures HexPad(n, k, upper)[i] == DigitTable(n / Pow(16, k - 1 - i) % 16, upper)
  {
    if i < k - 1 {
      HexPadAt(n / 16, k - 1, upper, i);
      DivDiv(n, 16, Pow(16, k - 2 - i));
    }
  }

  lemma {:induction false} HexPadReads(n: nat, k: nat, upper: bool)
    ensures DigitsIn(HexPad(n, k, upper), 16) && ReadIn(HexPad(n, k, upper), 16) == n % Pow(16, k)
  {
    hide ReadIn;
    hide TableValue;
    hide DigitTable;
    if k == 0 {
      NothingReads();
    } else {
      HexPadReads(n / 16, k - 1, upper);
      TableRoundTrip(n % 16, upper);
      IntegerText.ReadSnoc(HexPad(n / 16, k - 1, upper), DigitTable(n % 16, upper), 16);
      SplitLastHex(n, Pow(16, k - 1));
    }
  }

  lemma NothingReads()
    ensures DigitsIn("", 16) && ReadIn("", 16) == 0
  {
  }

  lemma SplitLastHex(n: nat, p: nat)
    requires p > 0
    ensures n % (16 * p) == 16 * (n / 16 % p) + n % 16
  {
    DivMod(n / 16, p);
    var q, r := n / 16 / p, n / 16 % p;
    assert n == q * (16 * p) + (16 * r + n % 16) by { MulAssoc(q, 16, p); MulAssoc(16, q, p); }
    DivModUnique(n, 16 * p, q, 16 * r + n % 16);
  }

  /** Cutting the last c digits divides. */
  lemma {:induction false} HexPadPrefix(n: nat, k: nat, c: nat, upper: bool)
    requires c <= k
    ensures HexPad(n, k, upper)[..k - c] == HexPad(n / Pow(16, c), k - c, upper)
  {
    if c == 0 {
      assert HexPad(n, k, upper)[..k] == HexPad(n, k, upper);
    } else {
      HexPadPrefix(n / 16, k - 1, c - 1, upper);
      DivDiv(n, 16, Pow(16, c - 1));
      assert HexPad(n, k, upper)[..k - c] == HexPad(n / 16, k - 1, upper)[..k - c];
    }
  }

  /** Multiplying appends zeros. */
  lemma {:induction false} HexPadJoin(n: nat, k: nat, c: nat, upper: bool)
    ensures HexPad(n * Pow(16, c), k + c, upper) == HexPad(n, k, upper) + Zeros(c)
  {
    if c == 0 {
      assert Zeros(0) == "";
    } else {
      HexPadJoin(n, k, c - 1, upper);
      TimesSixteen(n, c);
      HexPadSixteenfold(n * Pow(16, c - 1), k + c, upper);
      assert Zeros(c) == Zeros(c - 1) + ['0'];
    }
  }

  lemma HexPadSixteenfold(m: nat, k: nat, upper: bool)
    requires k > 0
    ensures HexPad(16 * m, k, upper) == HexPad(m, k - 1, upper) + ['0']
  {
    assert 16 * m / 16 == m && 16 * m % 16 == 0;
  }

  /** All digits are zeros exactly for a multiple. */
  lemma {:induction false} HexPadZero(n: nat, k: nat, upper: bool)
    ensures AllAre(HexPad(n, k, upper), '0') <==> n % Pow(16, k) == 0
  {
    if k > 0 {
      HexPadZero(n / 16, k - 1, upper);
      SplitLastHex(n, Pow(16, k - 1));
      TableRoundTrip(n % 16, upper);
      var s := HexPad(n / 16, k - 1, upper);
      assert forall i :: 0 <= i < k - 1 ==> (s + [DigitTable(n % 16, upper)])[i] == s[i];
      assert (s + [DigitTable(n % 16, upper)])[k - 1] == DigitTable(n % 16, upper);
    }
  }

  /** Digits to the left do not matter. */
  lemma HexPadSame(high: nat, n: nat, k: nat, upper: bool)
    ensures HexPad(high * Pow(16, k) + n, k, upper) == HexPad(n, k, upper)
  {
    hide HexPad;
    hide DigitTable;
    var m := high * Pow(16, k) + n;
    forall i | 0 <= i < k ensures HexPad(m, k, upper)[i] == HexPad(n, k, upper)[i] {
      HexPadAt(m, k, upper, i);
      HexPadAt(n, k, upper, i);
      SameHexDigit(high, n, k, i);
    }
    assert HexPad(m, k, upper) == HexPad(n, k, upper);
  }

  lemma SameHexDigit(high: nat, n: nat, k: nat, i: nat)
    requires i < k
    ensures (high * Pow(16, k) + n) / Pow(16, k - 1 - i) % 16 == n / Pow(16, k - 1 - i) % 16
  {
    hide Pow;
    var d, p, h := Pow(16, k - 1 - i), Pow(16, i + 1), high * Pow(16, i);
    TimesSixteen(high, i + 1);
    PowAdd(16, i + 1, k - 1 - i);
    assert high * Pow(16, k) == 16 * h * d by { MulAssoc(high, p, d); }
    SameLowHex(n, h, d);
  }

  lemma TimesSixteen(n: nat, c: nat)
    requires c > 0
    ensures n * Pow(16, c) == 16 * (n * Pow(16, c - 1))
  {
    MulAssoc(n, 16, Pow(16, c - 1));
    MulAssoc(16, n, Pow(16, c - 1));
  }

  lemma SameLowHex(n: nat, h: nat, d: nat)
    requires d > 0
    ensures 0 <= 16 * h * d + n && (16 * h * d + n) / d % 16 == n / d % 16
  {
    DivMod(n, d);
    MulDist(d, 16 * h, n / d);
    MulMono(0, 16 * h, d);
    DivModUnique(16 * h * d + n, d, 16 * h + n / d, n % d);
  }

  // ---- the number ---------------------------------------------------------------------------

  /** Hexadecimal places behind the first bit. */
  function HexDigitCount(parts: FormatBinaryFloat): nat {
    if parts.precisionBits == 0 then 0 else (parts.precisionBits - 1 + 3) / 4
  }

  /** What a decoded value satisfies. */
  ghost predicate HexOk(parts: FormatBinaryFloat) {
    0 < parts.precisionBits <= 128 && parts.Consistent() && parts.Significand() < Pow(2, parts.precisionBits)
  }

  /** All digits as one number: the significand, with the bits that fill up the last digit. */
  ghost function HexNumber(parts: FormatBinaryFloat): nat
    requires parts.precisionBits > 0
  {
    parts.Significand() * Pow(2, 4 * HexDigitCount(parts) - (parts.precisionBits - 1))
  }

  function HexExponent(parts: FormatBinaryFloat): int {
    if parts.zero then 0 else parts.binaryExponent + parts.precisionBits - 1
  }

  /** The first digit is a bit. */
  lemma HexNumberBelow(parts: FormatBinaryFloat)
    requires HexOk(parts)
    ensures HexNumber(parts) < 2 * Pow(16, HexDigitCount(parts)) && HexNumber(parts) / Pow(16, HexDigitCount(parts)) < 2
  {
    var a, fb := HexDigitCount(parts), parts.precisionBits - 1;
    SixteenIsTwoTo4(a);
    PowAdd(2, fb, 4 * a - fb);
    var t := Pow(2, 4 * a - fb);
    assert parts.Significand() < 2 * Pow(2, fb);
    MulStrict(parts.Significand(), 2 * Pow(2, fb), t);
    MulAssoc(2, Pow(2, fb), t);
    DivLt(HexNumber(parts), Pow(16, a), 2);
  }

  lemma MulStrict(a: nat, b: nat, c: nat)
    requires a < b && c > 0
    ensures a * c < b * c
  {
  }

  lemma SixteenIsTwoTo4(a: nat)
    ensures Pow(2, 4 * a) == Pow(16, a)
  {
    PowPow(2, 4, a);
    assert Pow(2, 4) == 16;
  }

  /** Without a precision: as many places as it takes to lose nothing. */
  function TrimmedPlaces(n: nat, a: nat): (p: nat)
    ensures p <= a
  {
    if a > 0 && n % 16 == 0 then TrimmedPlaces(n / 16, a - 1) else a
  }

  lemma {:induction false} TrimmedLosesNothing(n: nat, a: nat)
    ensures n % Pow(16, a - TrimmedPlaces(n, a)) == 0
    ensures TrimmedPlaces(n, a) > 0 ==> n / Pow(16, a - TrimmedPlaces(n, a)) % 16 != 0
    decreases a
  {
    if a > 0 && n % 16 == 0 {
      TrimmedLosesNothing(n / 16, a - 1);
      var c := a - 1 - TrimmedPlaces(n / 16, a - 1);
      DivDiv(n, 16, Pow(16, c));
      SplitLastHex(n, Pow(16, c));
    }
  }

  ghost function HexPlaces(parts: FormatBinaryFloat, precision: int): nat
    requires parts.precisionBits > 0
  {
    if precision >= 0 then precision else TrimmedPlaces(HexNumber(parts), HexDigitCount(parts))
  }

  /** The digits printed, as one number: rounded to nearest, ties to even, or with zeros behind them. */
  ghost function PrintedHex(n: nat, a: nat, places: nat): nat {
    if places < a then RoundHalfEven(n, Pow(16, a - places)) else n * Pow(16, places - a)
  }

  lemma PrintedHexBelow(n: nat, a: nat, places: nat)
    requires n < 2 * Pow(16, a)
    ensures PrintedHex(n, a, places) <= 2 * Pow(16, places) && PrintedHex(n, a, places) / Pow(16, places) <= 2
  {
    var m := PrintedHex(n, a, places);
    if places < a {
      PowAdd(16, places, a - places);
      MulAssoc(2, Pow(16, places), Pow(16, a - places));
      RoundingIsMonotone(n, Pow(16, a - places), 2 * Pow(16, places));
    } else {
      PowAdd(16, a, places - a);
      MulMono(n, 2 * Pow(16, a), Pow(16, places - a));
      MulAssoc(2, Pow(16, a), Pow(16, places - a));
    }
    assert m < 3 * Pow(16, places);
    DivLt(m, Pow(16, places), 3);
  }

  // ---- the text -------------------------------------------------------------------------------

  ghost function HexExponentText(exponent: int, upper: bool): string {
    [if upper then 'P' else 'p', if exponent < 0 then '-' else '+'] + Dec(Abs(exponent))
  }

  function HexMark(upper: bool): string { if upper then "0X" else "0x" }

  function Point(places: nat, alternate: bool): string { if places > 0 || alternate then "." else "" }

  ghost function HexText(n: nat, places: nat, exponent: int, alternate: bool, upper: bool): string
    requires n / Pow(16, places) < 16
  {
    HexMark(upper) + [DigitTable(n / Pow(16, places), upper)] + Point(places, alternate) + HexPad(n, places, upper)
    + HexExponentText(exponent, upper)
  }

  /** The text of |value| in hexadecimal style. */
  ghost function HexBody(parts: FormatBinaryFloat, precision: int, alternate: bool, upper: bool): string
    requires HexOk(parts)
  {
    var a, places := HexDigitCount(parts), HexPlaces(parts, precision);
    HexNumberBelow(parts);
    PrintedHexBelow(HexNumber(parts), a, places);
    HexText(PrintedHex(HexNumber(parts), a, places), places, HexExponent(parts), alternate, upper)
  }

  // ---- what it reads as ---------------------------------------------------------------------

  /** t is the mark, one digit, the point, exactly `places` digits, and a binary exponent; the digits denote n. */
  ghost predicate ReadsAsHex(t: string, n: nat, places: nat, exponent: int, alternate: bool, upper: bool) {
    exists lead: char, fraction: string :: HexPartsRead(t, lead, fraction, n, places, exponent, alternate, upper)
  }

  ghost predicate HexPartsRead(t: string, lead: char, fraction: string, n: nat, places: nat, exponent: int, alternate: bool, upper: bool) {
    && t == (if upper then "0X" else "0x") + [lead] + (if places > 0 || alternate then "." else "") + fraction
            + HexExponentText(exponent, upper)
    && |fraction| == places && DigitsIn([lead] + fraction, 16) && ReadIn([lead] + fraction, 16) == n
  }

  lemma HexTextReads(n: nat, places: nat, exponent: int, alternate: bool, upper: bool)
    requires n / Pow(16, places) < 16
    ensures ReadsAsHex(HexText(n, places, exponent, alternate, upper), n, places, exponent, alternate, upper)
  {
    hide HexPad;
    hide ReadIn;
    hide DigitTable;
    hide TableValue;
    hide Dec;
    hide Pow;
    var lead, fraction := DigitTable(n / Pow(16, places), upper), HexPad(n, places, upper);
    TableRoundTrip(n / Pow(16, places), upper);
    HexPadReads(n, places, upper);
    ReadBehind(lead, fraction);
    DivMod(n, Pow(16, places));
    assert HexPartsRead(HexText(n, places, exponent, alternate, upper), lead, fraction, n, places, exponent, alternate, upper);
  }

  lemma {:induction false} ReadBehind(lead: char, s: string)
    requires TableValue(lead) < 16 && DigitsIn(s, 16)
    ensures DigitsIn([lead] + s, 16) && ReadIn([lead] + s, 16) == TableValue(lead) * Pow(16, |s|) + ReadIn(s, 16)
  {
    hide ReadIn;
    hide TableValue;
    var n := |s| - 1;
    if s == "" {
      assert [lead] + s == [lead];
      ReadOneIn(lead, 16);
      NothingReads();
    } else {
      ReadBehind(lead, s[..n]);
      assert s == s[..n] + [s[n]];
      IntegerText.ReadSnoc(s[..n], s[n], 16);
      assert [lead] + s == ([lead] + s[..n]) + [s[n]];
      IntegerText.ReadSnoc([lead] + s[..n], s[n], 16);
      var v, p := TableValue(lead), Pow(16, n);
      assert 16 * (v * p) == v * (16 * p) by { MulAssoc(16, v, p); MulAssoc(v, 16, p); }
    }
  }

  /**
   What `%a` prints: with a precision the nearest number with that many places, ties to even, which is the
   value itself from the digits of the format on; without one the value itself, with as few places as it takes.
   */
  lemma HexBodyReads(parts: FormatBinaryFloat, precision: int, alternate: bool, upper: bool)
    requires HexOk(parts)
    ensures
      var a, places, number := HexDigitCount(parts), HexPlaces(parts, precision), HexNumber(parts);
      var n := PrintedHex(number, a, places);
      && ReadsAsHex(HexBody(parts, precision, alternate, upper), n, places, HexExponent(parts), alternate, upper)
      && (places <= a ==> RoundsHalfEven(n, number, Pow(16, a - places)))
      && (places >= a ==> n == number * Pow(16, places - a))
      && (precision < 0 ==> places <= a && n * Pow(16, a - places) == number && (places > 0 ==> n % 16 != 0))
  {
    var a, places, number := HexDigitCount(parts), HexPlaces(parts, precision), HexNumber(parts);
    HexNumberBelow(parts);
    PrintedHexBelow(number, a, places);
    HexTextReads(PrintedHex(number, a, places), places, HexExponent(parts), alternate, upper);
    if places <= a { RoundedIsNearest(number, Pow(16, a - places)); }
    if places == a { WholeRounds(number); }
    if precision < 0 {
      TrimmedLosesNothing(number, a);
      MultipleRounds(number, Pow(16, a - places));
    }
  }

  lemma WholeRounds(n: nat)
    ensures n * Pow(16, 0) == n && RoundsHalfEven(n, n, Pow(16, 0))
  {
    RoundedIsNearest(n, 1);
    MultipleRounds(n, 1);
  }

  lemma MultipleRounds(n: nat, d: nat)
    requires d > 0 && n % d == 0
    ensures RoundHalfEven(n, d) == n / d && n / d * d == n
  {
    DivMod(n, d);
  }

  /** Place values: the last printed digit counts 2^(exponent - 4 places), so the digits denote |value|. */
  lemma HexNumberIsValue(parts: FormatBinaryFloat)
    requires HexOk(parts)
    ensures var shift: nat := 4 * HexDigitCount(parts) - (parts.precisionBits - 1);
            !parts.zero ==>
              && HexNumber(parts) == parts.Significand() * Pow(2, shift)
              && HexExponent(parts) - 4 * HexDigitCount(parts) == parts.binaryExponent - shift
    ensures parts.zero ==> HexNumber(parts) == 0 && HexExponent(parts) == 0
  {
  }

  lemma HexBodyLength(parts: FormatBinaryFloat, precision: int, alternate: bool, upper: bool)
    requires HexOk(parts) && Abs(HexExponent(parts)) < 100000
    ensures |HexBody(parts, precision, alternate, upper)| <= 11 + if precision >= 0 then precision else HexDigitCount(parts)
  {
    hide Pow;
    HexNumberBelow(parts);
    PrintedHexBelow(HexNumber(parts), HexDigitCount(parts), HexPlaces(parts, precision));
    FiveDigits(Abs(HexExponent(parts)));
  }

  lemma FiveDigits(n: nat)
    requires n < 100000
    ensures |Dec(n)| <= 5
  {
    assert Pow(10, 4) == 10000;
    DecLengthIs(n, 5);
  }
}
