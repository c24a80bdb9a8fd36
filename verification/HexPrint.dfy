/** `%a`, step by step: the digits of the significand, their rounding in place, and the characters (cbase/fmt.c). */
module HexPrint {
  import opened Powers
  import opened Results
  import opened Bits
  import opened Decimal
  import opened IntegerText
  import opened BigUInt
  import opened Rounding
  import opened BinaryFloat
  import opened SignificantDigits
  import opened ExpText
  import opened FloatBits
  import opened HexStyle

  // ---- the digits of a `double` --------------------------------------------------------------

  const DOUBLE_HEX_DIGITS: nat := 13

  /** fmt_float_hex_fraction_digits: shift and mask. */
  method DoubleDigits(digits: array<char>, fraction: nat, upper: bool)
    requires digits.Length >= DOUBLE_HEX_DIGITS
    modifies digits
    ensures digits[..DOUBLE_HEX_DIGITS] == HexPad(fraction, DOUBLE_HEX_DIGITS, upper)
  {
    hide HexPad;
    ghost var text := HexPad(fraction, DOUBLE_HEX_DIGITS, upper);
    for i := 0 to DOUBLE_HEX_DIGITS
      invariant digits[..i] == text[..i]
    {
      var shift := 52 - 4 * (i + 1);
      MaskFour(fraction / Pow(2, shift));
      SixteenIsTwoTo4(DOUBLE_HEX_DIGITS - 1 - i);
      HexPadAt(fraction, DOUBLE_HEX_DIGITS, upper, i);
      digits[i] := DigitTable(And(fraction / Pow(2, shift), 15), upper);
      assert digits[..i + 1] == digits[..i] + [digits[i]];
    }
    assert text[..DOUBLE_HEX_DIGITS] == text;
  }

  lemma MaskFour(n: nat)
    ensures And(n, 15) == n % 16
  {
    assert Pow(2, 4) == 16;
    AndMask(n, 4);
  }

  // ---- the digits of a `long double` --------------------------------------------------------

  /** fmt_binary_float_test_significand_bit */
  method TestSignificandBit(parts: FormatBinaryFloat, index: nat) returns (bit: bool)
    ensures bit <==> parts.Significand() / Pow(2, index) % 2 == 1
  {
    SignificandBit(parts, index);
    if index < 64 { return And(parts.significandLow, Pow(2, index)) != 0; }
    if index < 128 { return And(parts.significandHigh, Pow(2, index - 64)) != 0; }
    return false;
  }

  lemma SignificandBit(parts: FormatBinaryFloat, index: nat)
    ensures index < 64 ==> (And(parts.significandLow, Pow(2, index)) != 0 <==> parts.Significand() / Pow(2, index) % 2 == 1)
    ensures 64 <= index < 128 ==>
      (And(parts.significandHigh, Pow(2, index - 64)) != 0 <==> parts.Significand() / Pow(2, index) % 2 == 1)
    ensures index >= 128 ==> parts.Significand() / Pow(2, index) == 0
  {
    hide Pow;
    hide And;
    var low: nat, high: nat := parts.significandLow, parts.significandHigh;
    LargePowers();
    if index < 64 { LowBit(low, high, index); } else { HighBit(low, high, index); }
  }

  lemma LowBit(low: nat, high: nat, index: nat)
    requires index < 64
    ensures And(low, Pow(2, index)) != 0 <==> (low + high * Pow(2, 64)) / Pow(2, index) % 2 == 1
  {
    hide Pow;
    hide And;
    MaskedBit(low, index);
    PowAdd(2, index + 1, 63 - index);
    PowAdd(2, index, 1);
    SixteenBits();
    RegroupBits(high, Pow(2, index), Pow(2, 63 - index));
    LowHalfBit(low, high * Pow(2, 63 - index), Pow(2, index));
  }

  lemma HighBit(low: nat, high: nat, index: nat)
    requires index >= 64 && low < Pow(2, 64) && high < Pow(2, 64)
    ensures And(high, Pow(2, index - 64)) != 0 <==> (low + high * Pow(2, 64)) / Pow(2, index) % 2 == 1
    ensures index >= 128 ==> (low + high * Pow(2, 64)) / Pow(2, index) == 0
  {
    hide Pow;
    hide And;
    MaskedBit(high, index - 64);
    PowAdd(2, 64, index - 64);
    DivDiv(low + high * Pow(2, 64), Pow(2, 64), Pow(2, index - 64));
    DivModUnique(low + high * Pow(2, 64), Pow(2, 64), high, low);
    if index >= 128 {
      PowMono(2, 64, index - 64);
      DivModUnique(high, Pow(2, index - 64), 0, high);
    }
  }

  lemma MaskedBit(n: nat, index: nat)
    ensures And(n, Pow(2, index)) != 0 <==> n / Pow(2, index) % 2 == 1
  {
    AndBit(n, index);
    var bit := n / Pow(2, index) % 2;
    assert bit == 0 || bit == 1;
  }

  lemma RegroupBits(high: nat, p: nat, q: nat)
    ensures high * (2 * p * q) == 2 * (high * q) * p
  {
    MulAssoc(high, q, p);
    MulAssoc(2, high * q, p);
    MulAssoc(2, p, q);
    MulAssoc(high, 2, p * q);
    MulAssoc(2, high, p * q);
  }

  lemma LowHalfBit(low: nat, h: nat, p: nat)
    requires p > 0
    ensures 0 <= 2 * h * p && (low + 2 * h * p) / p % 2 == low / p % 2
  {
    DivMod(low, p);
    MulDist(p, 2 * h, low / p);
    MulMono(0, 2 * h, p);
    DivModUnique(low + 2 * h * p, p, 2 * h + low / p, low % p);
  }

  /** Four bits make a digit. */
  lemma FourBits(n: nat)
    ensures n % 16 == n / 8 % 2 * 8 + n / 4 % 2 * 4 + n / 2 % 2 * 2 + n % 2
  {
    DivDiv(n, 2, 2);
    DivDiv(n, 4, 2);
    DivDiv(n, 8, 2);
    JoinBits(n, n / 2, n / 4, n / 8, n / 16);
  }

  lemma JoinBits(n: nat, half: nat, quarter: nat, eighth: nat, sixteenth: nat)
    requires half == n / 2 && quarter == half / 2 && eighth == quarter / 2 && sixteenth == eighth / 2
    ensures n % 16 == eighth % 2 * 8 + quarter % 2 * 4 + half % 2 * 2 + n % 2
  {
    DivModUnique(n, 16, sixteenth, eighth % 2 * 8 + quarter % 2 * 4 + half % 2 * 2 + n % 2);
  }

  /** Bit `index` of the number behind all digits: the significand's, or one of those that fill up the last digit. */
  lemma HexNumberBit(parts: FormatBinaryFloat, index: nat)
    requires parts.precisionBits > 0
    ensures var shift: nat := 4 * HexDigitCount(parts) - (parts.precisionBits - 1);
            HexNumber(parts) / Pow(2, index) % 2
            == if index < shift then 0 else parts.Significand() / Pow(2, index - shift) % 2
  {
    hide Pow;
    var sig := parts.Significand();
    var shift: nat := 4 * HexDigitCount(parts) - (parts.precisionBits - 1);
    if index < shift {
      PowAdd(2, shift - index, index);
      PowAdd(2, 1, shift - index - 1);
      SixteenBits();
      var p, q := Pow(2, index), Pow(2, shift - index - 1);
      RegroupBits(sig, p, q);
      assert sig * Pow(2, shift) == 2 * (sig * q) * p by { MulAssoc(2, q, p); MulAssoc(2, p, q); }
      DivModUnique(sig * Pow(2, shift), p, 2 * (sig * q), 0);
    } else {
      PowAdd(2, shift, index - shift);
      DivDiv(sig * Pow(2, shift), Pow(2, shift), Pow(2, index - shift));
      DivModUnique(sig * Pow(2, shift), Pow(2, shift), sig, 0);
    }
  }

  /** fmt_ldouble_hex_fraction_digits, digit i: bit by bit. */
  method LongDoubleDigit(parts: FormatBinaryFloat, i: nat) returns (digit: nat)
    requires parts.precisionBits > 0 && i < HexDigitCount(parts)
    ensures digit == HexNumber(parts) / Pow(16, HexDigitCount(parts) - 1 - i) % 16
  {
    hide HexNumber;
    hide Pow;
    var a, fractionBits := HexDigitCount(parts), parts.precisionBits - 1;
    ghost var n := HexNumber(parts) / Pow(2, 4 * (a - 1 - i));
    SixteenIsTwoTo4(a - 1 - i);
    FourBits(n);
    digit := 0;
    for j := 0 to 4
      invariant digit == (if j > 0 then n / 8 % 2 * 8 else 0) + (if j > 1 then n / 4 % 2 * 4 else 0)
                         + (if j > 2 then n / 2 % 2 * 2 else 0) + (if j > 3 then n % 2 else 0)
    {
      var bitIndex := fractionBits - 1 - i * 4 - j;
      DigitBit(HexNumber(parts), 4 * (a - 1 - i), 3 - j);
      HexNumberBit(parts, 4 * (a - 1 - i) + 3 - j);
      var bit := false;
      if bitIndex >= 0 { bit := TestSignificandBit(parts, bitIndex); }
      if bit { digit := digit + (if j == 0 then 8 else if j == 1 then 4 else if j == 2 then 2 else 1); }
    }
  }

  lemma DigitBit(n: nat, low: nat, k: nat)
    requires k < 4
    ensures n / Pow(2, low + k) == n / Pow(2, low) / (if k == 3 then 8 else if k == 2 then 4 else if k == 1 then 2 else 1)
  {
    assert Pow(2, 0) == 1 && Pow(2, 1) == 2 && Pow(2, 2) == 4 && Pow(2, 3) == 8;
    PowAdd(2, low, k);
    DivDiv(n, Pow(2, low), Pow(2, k));
  }

  /** fmt_ldouble_hex_fraction_digits */
  method LongDoubleDigits(digits: array<char>, parts: FormatBinaryFloat, upper: bool)
    requires parts.precisionBits > 0 && digits.Length >= HexDigitCount(parts)
    modifies digits
    ensures digits[..HexDigitCount(parts)] == HexPad(HexNumber(parts), HexDigitCount(parts), upper)
  {
    hide HexPad;
    hide HexNumber;
    hide HexDigitCount;
    var a := HexDigitCount(parts);
    ghost var text := HexPad(HexNumber(parts), a, upper);
    for i := 0 to a
      invariant digits[..i] == text[..i]
    {
      var digit := LongDoubleDigit(parts, i);
      HexPadAt(HexNumber(parts), a, upper, i);
      digits[i] := DigitTable(digit, upper);
      assert digits[..i + 1] == digits[..i] + [digits[i]];
    }
    assert text[..a] == text;
  }

  // ---- rounding -----------------------------------------------------------------------------

  /** The remainder c.u of a division, as sixteenths q and what is below them, and how it rounds. */
  lemma DecisionFromSixteenths(r: nat, unit: nat, c: nat, q: nat, u: nat, odd: bool)
    requires u < q && c < 16 && r == c * q + u && unit == 16 * q
    ensures ShouldRound(Classify(r, unit), odd) <==> c > 8 || (c == 8 && (u > 0 || odd))
  {
  }

  /** Cutting digits off n: what is kept, the first digit cut off, and the rest. */
  lemma CutHex(n: nat, q: nat)
    requires q > 0
    ensures n / (16 * q) == n / q / 16 && n % (16 * q) == n / q % 16 * q + n % q
    ensures ShouldRound(Classify(n % (16 * q), 16 * q), n / (16 * q) % 2 == 1)
            <==> n / q % 16 > 8 || (n / q % 16 == 8 && (n % q > 0 || n / (16 * q) % 2 == 1))
  {
    hide Classify;
    hide ShouldRound;
    CutHexParts(n, q);
    DivMod(n, q);
    DecisionFromSixteenths(n % (16 * q), 16 * q, n / q % 16, q, n % q, n / (16 * q) % 2 == 1);
  }

  lemma CutHexParts(n: nat, q: nat)
    requires q > 0
    ensures n / (16 * q) == n / q / 16 && n % (16 * q) == n / q % 16 * q + n % q
  {
    DivMod(n, q);
    JoinHex(n / q / 16, n / q % 16, q, n % q);
    MulMono(n / q % 16 + 1, 16, q);
    MulDist(q, n / q % 16, 1);
    DivModUnique(n, 16 * q, n / q / 16, n / q % 16 * q + n % q);
  }

  lemma JoinHex(e: nat, c: nat, q: nat, u: nat)
    ensures (16 * e + c) * q + u == e * (16 * q) + (c * q + u)
  {
    MulDist(q, 16 * e, c);
    MulAssoc(16, e, q);
    MulAssoc(e, 16, q);
  }

  /** What the digits of n say about cutting them after `places`. */
  lemma CutDigitsSay(w: string, n: nat, a: nat, places: nat, upper: bool, odd: bool)
    requires places < a && w == HexPad(n, a, upper)
    requires odd <==> n / Pow(16, a - places) % 2 == 1
    ensures ShouldRound(Classify(n % Pow(16, a - places), Pow(16, a - places)), odd)
            <==> TableValue(w[places]) > 8 || (TableValue(w[places]) == 8 && (!AllAre(w[places + 1..], '0') || odd))
  {
    hide HexPad;
    hide DigitTable;
    hide TableValue;
    hide Classify;
    hide ShouldRound;
    hide AllAre;
    hide Pow;
    HexPadValue(n, a, upper, places);
    HexTail(n, a, places + 1, upper);
    NextPower(a - places - 1);
    var q := Pow(16, a - places - 1);
    assert Pow(16, a - places) == 16 * q;
    CutHex(n, q);
  }

  /** The last digit kept tells the parity. */
  lemma LastDigitTells(w: string, n: nat, a: nat, places: nat, upper: bool)
    requires 0 < places < a && w == HexPad(n, a, upper)
    ensures TableValue(w[places - 1]) % 2 == n / Pow(16, a - places) % 2
  {
    hide HexPad;
    hide DigitTable;
    hide TableValue;
    hide Pow;
    HexPadValue(n, a, upper, places - 1);
    SixteenthsParity(n / Pow(16, a - places));
  }

  lemma SixteenthsParity(n: nat)
    ensures n % 16 % 2 == n % 2
  {
  }

  lemma HexPadValue(n: nat, a: nat, upper: bool, i: nat)
    requires i < a
    ensures TableValue(HexPad(n, a, upper)[i]) == n / Pow(16, a - 1 - i) % 16
  {
    hide DigitTable;
    hide TableValue;
    HexPadAt(n, a, upper, i);
    TableRoundTrip(n / Pow(16, a - 1 - i) % 16, upper);
  }

  /** fmt_ldouble_hex_should_round: by the first digit cut off, the others, and the parity of the last one kept. */
  method HexRoundsUp(first: char, digits: array<char>, a: nat, places: nat, ghost n: nat, ghost upper: bool) returns (roundUp: bool)
    requires places < a <= digits.Length && digits[..a] == HexPad(n, a, upper)
    requires n / Pow(16, a) < 16 && first == DigitTable(n / Pow(16, a), upper)
    ensures roundUp <==> ShouldRound(Classify(n % Pow(16, a - places), Pow(16, a - places)), n / Pow(16, a - places) % 2 == 1)
  {
    hide HexPad;
    hide DigitTable;
    hide TableValue;
    hide Classify;
    hide ShouldRound;
    hide AllAre;
    hide Pow;
    ghost var w := digits[..a];
    CutDigitsSay(w, n, a, places, upper, n / Pow(16, a - places) % 2 == 1);
    assert w[places] == digits[places] && w[places + 1..] == digits[places + 1..a];
    var roundDigit := TableValue(digits[places]);
    if roundDigit > 8 { return true; }
    if roundDigit < 8 { return false; }
    var tail := HasNonzeroDigit(digits, places + 1, a);
    if tail { return true; }
    var evenDigit: nat;
    if places > 0 {
      LastDigitTells(w, n, a, places, upper);
      assert w[places - 1] == digits[places - 1];
      evenDigit := TableValue(digits[places - 1]);
    } else {
      TableRoundTrip(n / Pow(16, a), upper);
      evenDigit := TableValue(first);
    }
    return evenDigit % 2 == 1;
  }

  lemma NextPower(c: nat)
    ensures Pow(16, c + 1) == 16 * Pow(16, c)
  {
  }

  /** The digits from index k on are all zeros exactly when what they stand for is zero. */
  lemma HexTail(n: nat, a: nat, k: nat, upper: bool)
    requires k <= a
    ensures AllAre(HexPad(n, a, upper)[k..], '0') <==> n % Pow(16, a - k) == 0
  {
    HexPadZero(n, a - k, upper);
    HexPadSuffix(n, a, a - k, upper);
  }

  lemma {:induction false} HexPadSuffix(n: nat, k: nat, c: nat, upper: bool)
    requires c <= k
    ensures HexPad(n, k, upper)[k - c..] == HexPad(n, c, upper)
  {
    if c > 0 {
      HexPadSuffix(n / 16, k - 1, c - 1, upper);
      assert HexPad(n, k, upper)[k - c..] == HexPad(n / 16, k - 1, upper)[k - c..] + [DigitTable(n % 16, upper)];
    }
  }

  /** fmt_ldouble_hex_round: the kept digits become those of the rounded number; a carry ends in the first digit. */
  method HexRound(first: char, digits: array<char>, a: nat, places: nat, upper: bool, ghost n: nat) returns (first': char)
    requires places < a <= digits.Length && digits[..a] == HexPad(n, a, upper)
    requires n / Pow(16, a) < 2 && LeadDigit(first, n, a, upper)
    modifies digits
    ensures LeadDigit(first', PrintedHex(n, a, places), places, upper)
    ensures digits[..places] == HexPad(PrintedHex(n, a, places), places, upper)
  {
    hide HexPad;
    hide DigitTable;
    hide Classify;
    hide ShouldRound;
    hide Pow;
    ghost var kept := n / Pow(16, a - places);
    KeptLead(n, a, places);
    HexPadPrefix(n, a, a - places, upper);
    assert digits[..places] == digits[..a][..places];
    var roundUp := HexRoundsUp(first, digits, a, places, n, upper);
    if !roundUp { return first; }
    first' := HexIncrement(first, digits, places, upper, kept);
  }

  lemma KeptLead(n: nat, a: nat, places: nat)
    requires places < a
    ensures n / Pow(16, a - places) / Pow(16, places) == n / Pow(16, a)
  {
    hide Pow;
    PowAdd(16, a - places, places);
    DivDiv(n, Pow(16, a - places), Pow(16, places));
  }

  /** Adds one to the number of the first digit and the digits behind it. */
  method HexIncrement(first: char, digits: array<char>, places: nat, upper: bool, ghost n: nat) returns (first': char)
    requires places <= digits.Length && digits[..places] == HexPad(n, places, upper)
    requires n / Pow(16, places) < 15 && LeadDigit(first, n, places, upper)
    modifies digits
    ensures LeadDigit(first', n + 1, places, upper)
    ensures digits[..places] == HexPad(n + 1, places, upper)
  {
    hide HexPad;
    hide DigitTable;
    hide TableValue;
    hide HexCleared;
    hide Pow;
    HexStart(digits[..places], n, places, upper);
    for i := places downto 0
      invariant HexCleared(digits[..places], n, places, places - i, upper)
    {
      var done := HexStep(digits, i, places, upper, n);
      if done { return first; }
    }
    HexAllCarried(digits[..places], n, places, upper);
    TableRoundTrip(n / Pow(16, places), upper);
    return DigitTable(TableValue(first) + 1, upper);
  }

  /** One digit of it: raised, or an f that becomes a zero and passes the carry on. */
  method HexStep(digits: array<char>, i: nat, places: nat, upper: bool, ghost n: nat) returns (done: bool)
    requires i < places <= digits.Length && HexCleared(digits[..places], n, places, places - i - 1, upper)
    modifies digits
    ensures done ==> digits[..places] == HexPad(n + 1, places, upper) && (n + 1) / Pow(16, places) == n / Pow(16, places)
    ensures !done ==> HexCleared(digits[..places], n, places, places - i, upper)
  {
    hide HexPad;
    hide DigitTable;
    hide TableValue;
    hide HexCleared;
    hide Pow;
    ghost var w := digits[..places];
    HexLastDigit(w, n, places, places - i - 1, upper);
    var digit := TableValue(digits[i]);
    if digit < 15 {
      HexBumped(w, n, places, places - i - 1, upper);
      digits[i] := DigitTable(digit + 1, upper);
      assert digits[..places] == w[i := DigitTable(digit + 1, upper)];
      return true;
    }
    HexCarried(w, n, places, places - i - 1, upper);
    digits[i] := '0';
    assert digits[..places] == w[i := '0'];
    return false;
  }

  /** The last c of `places` digits were all f and have become zeros; the others still belong to n. */
  ghost predicate HexCleared(w: string, n: nat, places: nat, c: nat, upper: bool) {
    && c <= places == |w|
    && w == HexPad(n / Pow(16, c), places - c, upper) + Zeros(c)
    && n + 1 == (n / Pow(16, c) + 1) * Pow(16, c)
  }

  lemma HexStart(w: string, n: nat, places: nat, upper: bool)
    requires w == HexPad(n, places, upper)
    ensures HexCleared(w, n, places, 0, upper)
  {
    assert n / Pow(16, 0) == n;
    assert w + Zeros(0) == w;
  }

  lemma HexLastDigit(w: string, n: nat, places: nat, c: nat, upper: bool)
    requires HexCleared(w, n, places, c, upper) && c < places
    ensures |w| == places && TableValue(w[places - c - 1]) == n / Pow(16, c) % 16
  {
    hide Pow;
    TableRoundTrip(n / Pow(16, c) % 16, upper);
  }

  lemma HexBumped(w: string, n: nat, places: nat, c: nat, upper: bool)
    requires HexCleared(w, n, places, c, upper) && c < places && n / Pow(16, c) % 16 < 15
    ensures w[places - c - 1 := DigitTable(n / Pow(16, c) % 16 + 1, upper)] == HexPad(n + 1, places, upper)
    ensures (n + 1) / Pow(16, places) == n / Pow(16, places)
  {
    hide Pow;
    hide DigitTable;
    var m, k, q := n / Pow(16, c), places - c, Pow(16, c);
    HexPadJoin(m + 1, k, c, upper);
    assert (m + 1) / 16 == m / 16 && (m + 1) % 16 == m % 16 + 1;
    var front := HexPad(m / 16, k - 1, upper);
    assert HexPad(m, k, upper) == front + [DigitTable(m % 16, upper)];
    assert HexPad(m + 1, k, upper) == front + [DigitTable(m % 16 + 1, upper)];
    assert w[k - 1 := DigitTable(m % 16 + 1, upper)] == HexPad(m + 1, k, upper) + Zeros(c);
    NextPower(k - 1);
    PowAdd(16, c, k);
    DivDiv(n, q, Pow(16, k));
    DivDiv(n + 1, q, Pow(16, k));
    DivModUnique(n + 1, q, m + 1, 0);
    DivDiv(m, 16, Pow(16, k - 1));
    DivDiv(m + 1, 16, Pow(16, k - 1));
  }

  lemma HexCarried(w: string, n: nat, places: nat, c: nat, upper: bool)
    requires HexCleared(w, n, places, c, upper) && c < places && n / Pow(16, c) % 16 == 15
    ensures HexCleared(w[places - c - 1 := '0'], n, places, c + 1, upper)
  {
    hide Pow;
    hide HexPad;
    var m, q := n / Pow(16, c), Pow(16, c);
    NextPower(c);
    DivDiv(n, q, 16);
    CarryUp(n, m, q);
    CarriedText(w, m, places - c, c, upper);
  }

  lemma CarriedText(w: string, m: nat, k: nat, c: nat, upper: bool)
    requires w == HexPad(m, k, upper) + Zeros(c) && k > 0
    ensures w[k - 1 := '0'] == HexPad(m / 16, k - 1, upper) + Zeros(c + 1)
  {
    hide DigitTable;
    var front := HexPad(m / 16, k - 1, upper);
    assert w == front + [DigitTable(m % 16, upper)] + Zeros(c);
    assert Zeros(c + 1) == ['0'] + Zeros(c);
  }

  lemma CarryUp(n: nat, m: nat, q: nat)
    requires n + 1 == (m + 1) * q && m % 16 == 15
    ensures n + 1 == (m / 16 + 1) * (16 * q)
  {
    assert m + 1 == (m / 16 + 1) * 16;
    MulAssoc(m / 16 + 1, 16, q);
  }

  lemma HexAllCarried(w: string, n: nat, places: nat, upper: bool)
    requires HexCleared(w, n, places, places, upper)
    ensures w == HexPad(n + 1, places, upper) && (n + 1) / Pow(16, places) == n / Pow(16, places) + 1
  {
    var m := n / Pow(16, places);
    HexPadJoin(m + 1, 0, places, upper);
    DivModUnique(n + 1, Pow(16, places), m + 1, 0);
  }

  // ---- the characters -----------------------------------------------------------------------

  /** fmt_ldouble_hex_trim_digits: without a precision, zeros at the end are not printed. */
  method TrimDigits(digits: array<char>, a: nat, ghost n: nat, ghost upper: bool) returns (len: nat)
    requires a <= digits.Length && digits[..a] == HexPad(n, a, upper)
    ensures len == TrimmedPlaces(n, a) && digits[..len] == HexPad(n / Pow(16, a - len), len, upper)
  {
    hide HexPad;
    hide DigitTable;
    hide TableValue;
    len := a;
    HexPadPrefix(n, a, 0, upper);
    assert digits[..a][..a] == digits[..a];
    while len > 0 && digits[len - 1] == '0'
      invariant len <= a && digits[..len] == HexPad(n / Pow(16, a - len), len, upper)
      invariant TrimmedPlaces(n, a) == TrimmedPlaces(n / Pow(16, a - len), len)
    {
      TrimOne(digits[..len], n, a, len, upper);
      assert digits[..len][len - 1] == digits[len - 1] && digits[..len][..len - 1] == digits[..len - 1];
      len := len - 1;
    }
    if len > 0 {
      TrimOne(digits[..len], n, a, len, upper);
      assert digits[..len][len - 1] == digits[len - 1];
    }
  }

  lemma TrimOne(w: string, n: nat, a: nat, len: nat, upper: bool)
    requires 0 < len <= a && w == HexPad(n / Pow(16, a - len), len, upper)
    ensures w[len - 1] == '0' <==> n / Pow(16, a - len) % 16 == 0
    ensures n / Pow(16, a - len + 1) == n / Pow(16, a - len) / 16
    ensures w[..len - 1] == HexPad(n / Pow(16, a - len + 1), len - 1, upper)
  {
    hide Pow;
    NextPower(a - len);
    DivDiv(n, Pow(16, a - len), 16);
    TableRoundTrip(n / Pow(16, a - len) % 16, upper);
  }

  /** What is printed of the stored digits: as many as asked for, with zeros for those there are not. */
  ghost function OutputDigits(stored: string, places: nat): string {
    if places <= |stored| then stored[..places] else stored + Zeros(places - |stored|)
  }

  /** The mark, the first digit and the point. */
  ghost function HexFront(first: char, places: nat, alternate: bool, upper: bool): string {
    HexMark(upper) + [first] + Point(places, alternate)
  }

  method WriteHexFront(first: char, places: nat, alternate: bool, upper: bool, buffer: array<char>, capacity: nat) returns (r: Result<nat>)
    requires capacity <= buffer.Length
    modifies buffer
    ensures var front := HexFront(first, places, alternate, upper);
            && (r.Ok? <==> |front| <= capacity)
            && (r.Ok? ==> r.value == |front| && buffer[..r.value] == front)
            && (r.Err? ==> r == Err(EOVERFLOW))
  {
    var mark := new char[2](i requires 0 <= i < 2 => HexMark(upper)[i]);
    assert mark[..2] == HexMark(upper);
    var len :- BufferWrite(buffer, capacity, 0, mark, 2);
    assert buffer[..len] == HexMark(upper);
    len :- BufferPut(buffer, capacity, len, first);
    if places > 0 || alternate {
      len :- BufferPut(buffer, capacity, len, '.');
    }
    return Ok(len);
  }

  /** The digits, with zeros for those there are not. */
  method WriteHexDigits(digits: array<char>, stored: nat, places: nat, buffer: array<char>, capacity: nat, start: nat) returns (r: Result<nat>)
    requires stored <= digits.Length && start <= capacity <= buffer.Length && buffer != digits
    modifies buffer
    ensures r.Ok? <==> start + places <= capacity
    ensures r.Ok? ==> r.value == start + places && buffer[..r.value] == old(buffer[..start]) + OutputDigits(digits[..stored], places)
    ensures r.Err? ==> r == Err(EOVERFLOW)
  {
    ghost var front, all := buffer[..start], OutputDigits(digits[..stored], places);
    var len := start;
    for i := 0 to places
      invariant len == start + i <= capacity && buffer[..len] == front + all[..i]
    {
      var digit := if i < stored then digits[i] else '0';
      var put := BufferPut(buffer, capacity, len, digit);
      if put.Err? { return Err(put.errno); }
      len := put.value;
      assert all[..i + 1] == all[..i] + [digit];
    }
    assert all[..places] == all;
    return Ok(len);
  }

  /** fmt_ldouble_write_hex_body */
  method WriteHexBody(first: char, digits: array<char>, stored: nat, places: nat, exponent: int, alternate: bool, upper: bool,
                      buffer: array<char>, capacity: nat) returns (r: Result<nat>)
    requires stored <= digits.Length && capacity <= buffer.Length && buffer != digits && Abs(exponent) <= 0x7FFF_FFFF
    modifies buffer
    ensures var text := HexFront(first, places, alternate, upper) + OutputDigits(digits[..stored], places)
                        + HexExponentText(exponent, upper);
            && (r.Ok? <==> |text| <= capacity)
            && (r.Ok? ==> r.value == |text| && buffer[..r.value] == text)
            && (r.Err? ==> r == Err(EOVERFLOW))
  {
    hide HexFront;
    hide OutputDigits;
    hide HexExponentText;
    OutputLength(digits[..stored], places);
    var len :- WriteHexFront(first, places, alternate, upper, buffer, capacity);
    len :- WriteHexDigits(digits, stored, places, buffer, capacity, len);
    r := AppendHexExponent(buffer, capacity, len, exponent, upper);
  }

  lemma OutputLength(stored: string, places: nat)
    ensures |OutputDigits(stored, places)| == places
  {
  }

  /** fmt_float_hex_append_exponent */
  method AppendHexExponent(buffer: array<char>, capacity: nat, start: nat, exponent: int, upper: bool) returns (r: Result<nat>)
    requires start <= capacity <= buffer.Length && Abs(exponent) <= 0x7FFF_FFFF
    modifies buffer
    ensures r.Ok? <==> start + |HexExponentText(exponent, upper)| <= capacity
    ensures r.Err? ==> r == Err(EOVERFLOW)
    ensures r.Ok? ==> r.value == start + |HexExponentText(exponent, upper)|
    ensures r.Ok? ==> buffer[..r.value] == old(buffer[..start]) + HexExponentText(exponent, upper)
  {
    hide NumberText;
    hide Dec;
    ghost var front := buffer[..start];
    var letter, sign := if upper then 'P' else 'p', if exponent < 0 then '-' else '+';
    var len :- BufferPut(buffer, capacity, start, letter);
    len :- BufferPut(buffer, capacity, len, sign);
    assert buffer[..len] == front + [letter, sign];
    var digits := new char[64];
    NumberTextIsDec(Abs(exponent), false);
    var digitLen := IntegerDigits(digits, Abs(exponent), 10, false);
    r := BufferWrite(buffer, capacity, len, digits, digitLen);
    assert front + [letter, sign] + Dec(Abs(exponent)) == front + HexExponentText(exponent, upper);
  }

  // ---- the whole body -----------------------------------------------------------------------

  ghost predicate LeadDigit(lead: char, m: nat, places: nat, upper: bool) {
    m / Pow(16, places) < 16 && lead == DigitTable(m / Pow(16, places), upper)
  }

  /** The lead and the stored digits are those of the number that is printed. */
  ghost predicate HexReady(stored: string, lead: char, n: nat, a: nat, places: nat, upper: bool) {
    var m := PrintedHex(n, a, places);
    && LeadDigit(lead, m, places, upper)
    && OutputDigits(stored, places) == HexPad(m, places, upper)
  }

  lemma PaddedReady(stored: string, lead: char, n: nat, a: nat, places: nat, upper: bool)
    requires stored == HexPad(n, a, upper) && LeadDigit(lead, n, a, upper) && places >= a
    ensures HexReady(stored, lead, n, a, places, upper)
  {
    hide HexPad;
    hide DigitTable;
    HexPadJoin(n, a, places - a, upper);
    assert stored + Zeros(0) == stored == stored[..a];
    SameQuotient(n, Pow(16, a), Pow(16, places - a));
    PowAdd(16, a, places - a);
  }

  lemma SameQuotient(n: nat, p: nat, c: nat)
    requires p > 0 && c > 0
    ensures p * c > 0 && n * c / (p * c) == n / p
  {
    CancelFactor(n, p, c);
  }

  lemma TrimmedReady(stored: string, lead: char, n: nat, a: nat, places: nat, kept: nat, upper: bool)
    requires places == TrimmedPlaces(n, a) && |stored| == a && LeadDigit(lead, n, a, upper)
    requires kept == n / Pow(16, a - places) && stored[..places] == HexPad(kept, places, upper)
    ensures HexReady(stored, lead, n, a, places, upper)
  {
    hide HexPad;
    hide DigitTable;
    TrimmedLosesNothing(n, a);
    MultipleRounds(n, Pow(16, a - places));
    PowAdd(16, a - places, places);
    DivDiv(n, Pow(16, a - places), Pow(16, places));
  }

  /** Rounds or trims the digits, as the precision asks. */
  method ChooseDigits(ghost parts: FormatBinaryFloat, first: char, digits: array<char>, a: nat, precision: int, upper: bool)
    returns (lead: char, places: nat)
    requires HexOk(parts) && a == HexDigitCount(parts) <= digits.Length
    requires digits[..a] == HexPad(HexNumber(parts), a, upper)
    requires LeadDigit(first, HexNumber(parts), a, upper)
    modifies digits
    ensures places == HexPlaces(parts, precision)
    ensures HexReady(digits[..a], lead, HexNumber(parts), a, places, upper)
  {
    hide HexPad;
    hide HexNumber;
    hide HexDigitCount;
    hide DigitTable;
    hide TrimmedPlaces;
    hide Pow;
    ghost var n := HexNumber(parts);
    HexNumberBelow(parts);
    lead := first;
    if precision < 0 {
      places := TrimDigits(digits, a, n, upper);
      assert digits[..a][..places] == digits[..places];
      TrimmedReady(digits[..a], lead, n, a, places, n / Pow(16, a - places), upper);
    } else if precision < a {
      places := precision;
      lead := HexRound(first, digits, a, places, upper, n);
      assert digits[..a][..places] == digits[..places];
    } else {
      places := precision;
      PaddedReady(digits[..a], lead, n, a, places, upper);
    }
  }

  /** The common end of both conversions. */
  method FinishHexBody(ghost parts: FormatBinaryFloat, exponent: int, first: char, digits: array<char>, a: nat, precision: int,
                       alternate: bool, upper: bool, buffer: array<char>, capacity: nat) returns (r: Result<nat>)
    requires HexOk(parts) && exponent == HexExponent(parts) && Abs(exponent) <= 0x7FFF_FFFF
    requires a == HexDigitCount(parts) <= digits.Length
    requires capacity <= buffer.Length && buffer != digits
    requires digits[..a] == HexPad(HexNumber(parts), a, upper)
    requires first == DigitTable(LeadingBit(parts), upper)
    modifies buffer, digits
    ensures BodyInBuffer(IfFits(HexBody(parts, precision, alternate, upper), capacity), r, buffer[..])
  {
    hide HexPad;
    hide HexNumber;
    hide HexDigitCount;
    hide HexPlaces;
    hide DigitTable;
    hide HexExponentText;
    HexNumberBelow(parts);
    var lead, places := ChooseDigits(parts, first, digits, a, precision, upper);
    r := WriteHexBody(lead, digits, a, places, exponent, alternate, upper, buffer, capacity);
  }

  /** The first digit: the bit before the point. */
  ghost function LeadingBit(parts: FormatBinaryFloat): (d: nat)
    requires HexOk(parts)
    ensures d < 2
  {
    hide HexNumber;
    hide HexDigitCount;
    hide Pow;
    HexNumberBelow(parts);
    HexNumber(parts) / Pow(16, HexDigitCount(parts))
  }

  /** Decoded values have digits in this style. */
  lemma DecodedIsHexOk(format: LongDouble, raw: nat)
    requires Decode(format, raw).Number?
    ensures HexOk(Decode(format, raw).parts) && Abs(HexExponent(Decode(format, raw).parts)) < 100000
    ensures Decode(format, raw).parts.precisionBits == format.MantDig()
  {
    DecodedIsFinite(format, raw);
  }

  /** fmt_ldouble_generate_hex_body, for a value that decodes */
  method PrintLongDoubleHex(format: LongDouble, parts: FormatBinaryFloat, precision: int, alternate: bool, upper: bool,
                            buffer: array<char>, capacity: nat) returns (r: Result<nat>)
    requires HexOk(parts) && parts.precisionBits == format.MantDig() && Abs(HexExponent(parts)) <= 0x7FFF_FFFF
    requires capacity <= buffer.Length
    modifies buffer
    ensures BodyInBuffer(IfFits(HexBody(parts, precision, alternate, upper), capacity), r, buffer[..])
  {
    hide HexPad;
    hide HexNumber;
    hide DigitTable;
    hide LeadingBit;
    hide BodyInBuffer;
    var digits := new char[(format.MantDig() - 1 + 3) / 4](_ => '0');
    var first := '0';
    if parts.zero {
      ZeroDigits(digits[..HexDigitCount(parts)], parts, upper);
    } else {
      var bit := TestSignificandBit(parts, parts.precisionBits - 1);
      if bit { first := '1'; }
      LeadingBitIs(parts, upper);
      LongDoubleDigits(digits, parts, upper);
    }
    r := FinishHexBody(parts, HexExponent(parts), first, digits, HexDigitCount(parts), precision, alternate, upper, buffer, capacity);
  }

  lemma ZeroDigits(s: string, parts: FormatBinaryFloat, upper: bool)
    requires HexOk(parts) && parts.zero && s == Zeros(HexDigitCount(parts))
    ensures s == HexPad(HexNumber(parts), HexDigitCount(parts), upper) && DigitTable(LeadingBit(parts), upper) == '0'
  {
    hide Pow;
    HexPadJoin(0, 0, HexDigitCount(parts), upper);
  }

  /** The digit before the point is the top bit of the significand. */
  lemma LeadingBitIs(parts: FormatBinaryFloat, upper: bool)
    requires HexOk(parts)
    ensures LeadingBit(parts) == parts.Significand() / Pow(2, parts.precisionBits - 1) % 2
    ensures DigitTable(LeadingBit(parts), upper) == if LeadingBit(parts) == 1 then '1' else '0'
  {
    hide HexNumber;
    hide HexDigitCount;
    hide Pow;
    var a := HexDigitCount(parts);
    SixteenIsTwoTo4(a);
    TopDigitBit(parts);
  }

  lemma TopDigitBit(parts: FormatBinaryFloat)
    requires HexOk(parts)
    ensures HexNumber(parts) / Pow(2, 4 * HexDigitCount(parts)) % 2 == parts.Significand() / Pow(2, parts.precisionBits - 1) % 2
  {
    hide Pow;
    hide HexNumber;
    HexNumberBit(parts, 4 * HexDigitCount(parts));
  }

  /** fmt_float_generate_hex_body, from the bits of a `double` */
  method PrintDoubleHex(raw: nat, precision: int, alternate: bool, upper: bool, buffer: array<char>, capacity: nat)
    returns (r: Result<nat>)
    requires Decode(Binary64, raw).Number? && capacity <= buffer.Length
    modifies buffer
    ensures var parts := Decode(Binary64, raw).parts;
            HexOk(parts) && BodyInBuffer(IfFits(HexBody(parts, precision, alternate, upper), capacity), r, buffer[..])
  {
    hide HexPad;
    hide HexNumber;
    hide DigitTable;
    hide LeadingBit;
    hide BodyInBuffer;
    hide HexOk;
    ghost var parts := Decode(Binary64, raw).parts;
    DecodedIsHexOk(Binary64, raw);
    var fraction, exponentBits := raw % TWO_TO_52, raw / TWO_TO_52 % 0x800;
    var first := if exponentBits == 0 then '0' else '1';
    var exponent := if exponentBits == 0 && fraction == 0 then 0 else if exponentBits == 0 then -1022 else exponentBits - 1023;
    var digits := new char[DOUBLE_HEX_DIGITS];
    DoubleDigits(digits, fraction, upper);
    DoubleFields(raw);
    DoubleIsHex(raw, upper);
    r := FinishHexBody(parts, exponent, first, digits, DOUBLE_HEX_DIGITS, precision, alternate, upper, buffer, capacity);
  }

  /** The fields of a `double`, and what they decode to. */
  lemma DoubleFields(raw: nat)
    requires Decode(Binary64, raw).Number?
    ensures var parts, fraction, exponentBits := Decode(Binary64, raw).parts, raw % TWO_TO_52, raw / TWO_TO_52 % 0x800;
            && parts.precisionBits == 53
            && parts.Significand() == (if exponentBits == 0 then fraction else TWO_TO_52 + fraction)
            && HexExponent(parts) == (if exponentBits == 0 && fraction == 0 then 0 else if exponentBits == 0 then -1022 else exponentBits - 1023)
  {
    hide Pow;
  }

  /** Reading the fields directly gives the digits of the decoded value. */
  lemma DoubleIsHex(raw: nat, upper: bool)
    requires Decode(Binary64, raw).Number? && HexOk(Decode(Binary64, raw).parts)
    ensures var parts, fraction, exponentBits := Decode(Binary64, raw).parts, raw % TWO_TO_52, raw / TWO_TO_52 % 0x800;
            && HexDigitCount(parts) == 13
            && HexPad(HexNumber(parts), 13, upper) == HexPad(fraction, 13, upper)
            && DigitTable(LeadingBit(parts), upper) == (if exponentBits == 0 then '0' else '1')
  {
    hide HexPad;
    hide Pow;
    hide HexNumber;
    hide LeadingBit;
    hide HexDigitCount;
    hide Decode;
    hide HexOk;
    hide DigitTable;
    var parts, fraction := Decode(Binary64, raw).parts, raw % TWO_TO_52;
    DoubleFields(raw);
    WholeDigitsFill(parts);
    LeadingBitIs(parts, upper);
    PowersOf52();
    HexPadSame(1, fraction, 13, upper);
    TopBitOf(fraction, TWO_TO_52);
  }

  lemma PowersOf52()
    ensures Pow(2, 52) == TWO_TO_52 && Pow(16, 13) == TWO_TO_52
  {
    hide Pow;
    LargePowers();
    SixteenIsTwoTo4(13);
    PowAdd(2, 52, 1);
    SixteenBits();
  }

  lemma TopBitOf(fraction: nat, p: nat)
    requires fraction < p
    ensures fraction / p == 0 && (p + fraction) / p == 1
  {
    DivModUnique(p + fraction, p, 1, fraction);
    DivModUnique(fraction, p, 0, fraction);
  }

  lemma WholeDigitsFill(parts: FormatBinaryFloat)
    requires parts.precisionBits == 53
    ensures HexDigitCount(parts) == 13 && HexNumber(parts) == parts.Significand()
  {
    assert Pow(2, 0) == 1;
  }
}
