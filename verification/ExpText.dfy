/** `%Le`: the characters, and what they read as. */
module ExpText {
  import opened Powers
  import opened Results
  import opened Words
  import opened Decimal
  import opened Sequences
  import opened IntegerText
  import opened BigUInt
  import opened Rounding
  import opened BinaryFloat
  import opened Magnitude
  import opened FixedStyle
  import opened ExpStyle
  import opened SignificantDigits

  /** The exponent as it is printed: a letter, a sign and at least two digits. */
  ghost function ExponentText(exponent: int, upper: bool): string {
    [if upper then 'E' else 'e', if exponent < 0 then '-' else '+'] + ExponentDigits(Abs(exponent))
  }

  ghost function ExponentDigits(magnitude: nat): (s: string)
    ensures AllDigits(s)
  {
    (if |Dec(magnitude)| < 2 then "0" else "") + Dec(magnitude)
  }

  method BufferPut(buffer: array<char>, capacity: nat, len: nat, byte: char) returns (r: Result<nat>)
    requires len <= capacity <= buffer.Length
    modifies buffer
    ensures r.Ok? <==> len < capacity
    ensures r.Ok? ==> r.value == len + 1 && buffer[..len + 1] == old(buffer[..len]) + [byte]
    ensures r.Err? ==> r == Err(EOVERFLOW) && buffer[..] == old(buffer[..])
  {
    if len >= capacity {
      return Err(EOVERFLOW);
    }
    buffer[len] := byte;
    return Ok(len + 1);
  }

  method BufferWrite(buffer: array<char>, capacity: nat, len: nat, source: array<char>, sourceLen: nat) returns (r: Result<nat>)
    requires len <= capacity <= buffer.Length && sourceLen <= source.Length && source != buffer
    modifies buffer
    ensures r.Ok? <==> len + sourceLen <= capacity
    ensures r.Ok? ==> r.value == len + sourceLen && buffer[..r.value] == old(buffer[..len]) + source[..sourceLen]
    ensures r.Err? ==> r == Err(EOVERFLOW) && buffer[..] == old(buffer[..])
  {
    if sourceLen > capacity - len {
      return Err(EOVERFLOW);
    }
    forall i | 0 <= i < sourceLen { buffer[len + i] := source[i]; }
    return Ok(len + sourceLen);
  }

  method AppendExponent(buffer: array<char>, capacity: nat, start: nat, exponent: int, upper: bool) returns (r: Result<nat>)
    requires start <= capacity <= buffer.Length && Abs(exponent) <= INT32_MAX
    modifies buffer
    ensures r.Ok? <==> start + |ExponentText(exponent, upper)| <= capacity
    ensures r.Err? ==> r == Err(EOVERFLOW)
    ensures r.Ok? ==> r.value == start + |ExponentText(exponent, upper)|
    ensures r.Ok? ==> buffer[..r.value] == old(buffer[..start]) + ExponentText(exponent, upper)
  {
    ghost var front := buffer[..start];
    var letter, sign := if upper then 'E' else 'e', if exponent < 0 then '-' else '+';
    var len :- BufferPut(buffer, capacity, start, letter);
    len :- BufferPut(buffer, capacity, len, sign);
    assert buffer[..len] == front + [letter, sign];
    r := AppendMagnitude(buffer, capacity, len, Abs(exponent));
    assert front + [letter, sign] + ExponentDigits(Abs(exponent)) == front + ExponentText(exponent, upper);
  }

  method AppendMagnitude(buffer: array<char>, capacity: nat, start: nat, magnitude: nat) returns (r: Result<nat>)
    requires start <= capacity <= buffer.Length && magnitude <= INT32_MAX
    modifies buffer
    ensures r.Ok? <==> start + |ExponentDigits(magnitude)| <= capacity
    ensures r.Err? ==> r == Err(EOVERFLOW)
    ensures r.Ok? ==> r.value == start + |ExponentDigits(magnitude)|
    ensures r.Ok? ==> buffer[..r.value] == old(buffer[..start]) + ExponentDigits(magnitude)
  {
    ghost var front := buffer[..start];
    var len := start;
    var digits := new char[64];
    NumberTextIsDec(magnitude, false);
    var digitLen := IntegerDigits(digits, magnitude, 10, false);
    if digitLen < 2 {
      len :- BufferPut(buffer, capacity, len, '0');
      assert front + ['0'] + Dec(magnitude) == front + ExponentDigits(magnitude);
    } else {
      assert ExponentDigits(magnitude) == Dec(magnitude);
    }
    r := BufferWrite(buffer, capacity, len, digits, digitLen);
  }

  /** The mantissa with its point, filled up with zeros, and the exponent. */
  ghost function MantissaText(d: string, precision: nat, alternate: bool): string
    requires d != [] && |d| <= precision + 1
  {
    [d[0]] + if precision > 0 || alternate then "." + d[1..] + Zeros(precision + 1 - |d|) else ""
  }

  method FormatExpDigits(buffer: array<char>, capacity: nat, digitLen: nat, precision: nat, exponent: int,
                         alternate: bool, upper: bool) returns (r: Result<nat>)
    requires 0 < digitLen <= precision + 1 && digitLen <= capacity <= buffer.Length
    requires Abs(exponent) <= INT32_MAX
    modifies buffer
    ensures
      var mantissa := MantissaText(old(buffer[..digitLen]), precision, alternate);
      var text := ExponentText(exponent, upper);
      && (r.Ok? <==> |mantissa| + |text| <= capacity)
      && (r.Err? ==> r == Err(EOVERFLOW))
      && (r.Ok? ==> r.value <= buffer.Length && buffer[..r.value] == mantissa + text)
  {
    ghost var d := buffer[..digitLen];
    var len := 1;
    if precision > 0 || alternate {
      len := 2 + precision;
      if len > capacity {
        return Err(EOVERFLOW);
      }
      InsertMantissaPoint(buffer, digitLen, precision);
    } else {
      assert buffer[..1] == MantissaText(d, precision, alternate);
    }
    r := AppendExponent(buffer, capacity, len, exponent, upper);
  }

  method InsertMantissaPoint(buffer: array<char>, digitLen: nat, precision: nat)
    requires 0 < digitLen <= precision + 1 && precision + 2 <= buffer.Length
    modifies buffer
    ensures buffer[..precision + 2] == MantissaText(old(buffer[..digitLen]), precision, true)
  {
    ghost var d := buffer[..digitLen];
    if digitLen > 1 {
      MemMove(buffer, 2, 1, digitLen - 1);
    }
    assert buffer[2..digitLen + 1] == d[1..] && buffer[0] == d[0];
    buffer[1] := '.';
    for i := digitLen + 1 to precision + 2
      invariant buffer[0] == d[0] && buffer[1] == '.' && buffer[2..digitLen + 1] == d[1..]
      invariant forall k :: digitLen + 1 <= k < i ==> buffer[k] == '0'
    {
      buffer[i] := '0';
    }
    assert buffer[digitLen + 1..precision + 2] == Zeros(precision + 1 - digitLen);
  }

  // ---- what the text reads as -----------------------------------------------------------

  /**
   t reads as m / 10^precision * 10^exponent: one digit, the point, exactly `precision` digits, and an
   exponent of at least two digits. The point is there unless there are no digits to follow it.
   */
  ghost predicate ReadsAsExp(t: string, m: nat, precision: nat, exponent: int, alternate: bool, upper: bool) {
    exists lead: char, fraction: string :: ExpPartsRead(t, lead, fraction, m, precision, exponent, alternate, upper)
  }

  ghost predicate ExpPartsRead(t: string, lead: char, fraction: string, m: nat, precision: nat, exponent: int,
                               alternate: bool, upper: bool) {
    && IsDigit(lead) && AllDigits(fraction) && |fraction| == precision
    && t == [lead] + (if precision > 0 || alternate then "." + fraction else "") + ExponentText(exponent, upper)
    && AllDigits([lead] + fraction) && ReadDec([lead] + fraction) == m
  }

  lemma ExponentDigitsRead(magnitude: nat)
    ensures |ExponentDigits(magnitude)| >= 2 && ReadDec(ExponentDigits(magnitude)) == magnitude
  {
    DecRead(magnitude);
    LeadingZeros("0", Dec(magnitude));
    assert "" + Dec(magnitude) == Dec(magnitude);
  }

  lemma MantissaReads(d: string, m: nat, precision: nat, exponent: int, alternate: bool, upper: bool)
    requires d == Dec(m) && |d| == precision + 1
    ensures ReadsAsExp(MantissaText(d, precision, alternate) + ExponentText(exponent, upper), m, precision, exponent, alternate, upper)
  {
    var t := MantissaText(d, precision, alternate) + ExponentText(exponent, upper);
    DecRead(m);
    assert [d[0]] + d[1..] == d;
    assert d[1..] + Zeros(0) == d[1..];
    assert ExpPartsRead(t, d[0], d[1..], m, precision, exponent, alternate, upper);
  }

  lemma ZeroReads(precision: nat, exponent: int, alternate: bool, upper: bool)
    ensures ReadsAsExp(MantissaText("0", precision, alternate) + ExponentText(exponent, upper), 0, precision, exponent, alternate, upper)
  {
    var t := MantissaText("0", precision, alternate) + ExponentText(exponent, upper);
    var fraction := Zeros(precision);
    ReadZeros("0" + fraction);
    assert "0"[1..] + Zeros(precision) == fraction;
    assert ExpPartsRead(t, '0', fraction, 0, precision, exponent, alternate, upper);
  }

  // ---- the whole body --------------------------------------------------------------------

  /** The integer and the exponent that `%Le` prints for a value in decade e. */
  ghost function ExpMantissa(parts: FormatBinaryFloat, e: int, precision: nat): nat {
    Mantissa(SignificantNumber(parts, e, precision + 1), precision + 1)
  }

  ghost function ExpExponent(parts: FormatBinaryFloat, e: int, precision: nat): int {
    PrintedExponent(SignificantNumber(parts, e, precision + 1), precision + 1, e)
  }

  /**
   The printed mantissa has a nonzero leading digit and is the nearest integer, ties to even, to the
   value in units of its last place, also when all nines carried into a new decade.
   */
  lemma PrintedIsNearest(parts: FormatBinaryFloat, e: int, precision: nat)
    requires InDecade(parts, e)
    ensures
      var m, x := ExpMantissa(parts, e, precision), ExpExponent(parts, e, precision);
      && Pow(10, precision) <= m < Pow(10, precision + 1)
      && e <= x <= e + 1
      && RoundedAt(parts, precision - x) == m
      && RoundsHalfEven(m, parts.Num(precision - x), parts.Den(precision - x))
  {
    var n := SignificantNumber(parts, e, precision + 1);
    var x := ExpExponent(parts, e, precision);
    SignificantRange(parts, e, precision + 1);
    PowStrict(10, precision, precision + 1);
    if n == Pow(10, precision + 1) {
      assert n == Pow(10, precision) * Pow(10, 1);
      CoarserRounding(parts, precision - x, 1, Pow(10, precision));
    }
    RoundedIsNearest(parts.Num(precision - x), parts.Den(precision - x));
  }

  /** The text of |value| in exponent style. */
  ghost function ExpBody(parts: FormatBinaryFloat, e: int, precision: nat, alternate: bool, upper: bool): string
    requires !parts.zero ==> InDecade(parts, e)
  {
    ExpTextReads(parts, e, precision, alternate, upper);
    if parts.zero then MantissaText("0", precision, alternate) + ExponentText(0, upper)
    else MantissaText(Dec(ExpMantissa(parts, e, precision)), precision, alternate) + ExponentText(ExpExponent(parts, e, precision), upper)
  }

  /** The error of the search for the exponent of a value below one, if it fails. */
  ghost predicate SearchFails(parts: FormatBinaryFloat, e: int, estimate: int, words: nat) {
    !parts.zero && e < 0 && SearchFrom(parts, estimate, words).Err?
  }

  ghost predicate ExpBodyFits(parts: FormatBinaryFloat, e: int, precision: nat, words: nat, capacity: nat) {
    && ExpFits(parts, e, precision + 1, words, capacity)
    && (e < 0 ==> WindowFits(parts, e, words))
    && precision + 2 + |ExponentText(ExpExponent(parts, e, precision), false)| <= capacity
  }

  method GenerateExpBody(parts: FormatBinaryFloat, precision: nat, alternate: bool, upper: bool, estimate: int,
                         buffer: array<char>, capacity: nat, integer: FormatBigUInt, ghost e: int) returns (r: Result<nat>)
    requires parts.Consistent() && integer.words.Length >= 4
    requires !parts.zero ==> InDecade(parts, e) && Abs(e) < INT32_MAX
    requires precision + 1 <= capacity <= buffer.Length
    modifies buffer, integer`len, integer.words
    ensures r.Ok? ==> r.value <= buffer.Length
    ensures r.Ok? ==> buffer[..r.value] == ExpBody(parts, e, precision, alternate, upper)
    ensures SearchFails(parts, e, estimate, integer.words.Length) ==> r == Err(SearchFrom(parts, estimate, integer.words.Length).errno)
    ensures r.Ok? && parts.zero ==> ReadsAsExp(buffer[..r.value], 0, precision, 0, alternate, upper)
    ensures r.Ok? && !parts.zero ==>
      ReadsAsExp(buffer[..r.value], ExpMantissa(parts, e, precision), precision, ExpExponent(parts, e, precision), alternate, upper)
    ensures r.Ok? && !parts.zero && e < 0 ==> GoodEstimate(estimate, e)
    ensures parts.zero && precision + 6 <= capacity ==> r.Ok?
    ensures !parts.zero && (e < 0 ==> GoodEstimate(estimate, e)) && ExpBodyFits(parts, e, precision, integer.words.Length, capacity)
            ==> r.Ok?
  {
    if !parts.zero { ExponentOfInteger(parts, e); }
    var exponent :- Exponent(parts, estimate, integer, e);
    var printed :- ExpDigits(parts, exponent, precision + 1, buffer, capacity, integer);
    ExpTextFits(parts, e, precision, alternate, upper, capacity);
    ExpTextReads(parts, e, precision, alternate, upper);
    assert parts.zero ==> buffer[..1] == "0";
    r := FormatExpDigits(buffer, capacity, printed.0, precision, printed.1, alternate, upper);
  }

  lemma ExpTextReads(parts: FormatBinaryFloat, e: int, precision: nat, alternate: bool, upper: bool)
    ensures ReadsAsExp(MantissaText("0", precision, alternate) + ExponentText(0, upper), 0, precision, 0, alternate, upper)
    ensures !parts.zero && InDecade(parts, e) ==>
      var m, x := ExpMantissa(parts, e, precision), ExpExponent(parts, e, precision);
      |Dec(m)| == precision + 1 &&
      ReadsAsExp(MantissaText(Dec(m), precision, alternate) + ExponentText(x, upper), m, precision, x, alternate, upper)
  {
    ZeroReads(precision, 0, alternate, upper);
    if !parts.zero && InDecade(parts, e) {
      var m, x := ExpMantissa(parts, e, precision), ExpExponent(parts, e, precision);
      SignificantRange(parts, e, precision + 1);
      MantissaDigits(SignificantNumber(parts, e, precision + 1), precision + 1);
      MantissaReads(Dec(m), m, precision, x, alternate, upper);
    }
  }

  lemma ExpTextFits(parts: FormatBinaryFloat, e: int, precision: nat, alternate: bool, upper: bool, capacity: nat)
    ensures |MantissaText("0", precision, alternate)| + |ExponentText(0, upper)| <= precision + 6
    ensures forall d: string {:trigger MantissaText(d, precision, alternate)} :: |d| == precision + 1 ==>
      |MantissaText(d, precision, alternate)| <= precision + 2
    ensures |ExponentText(ExpExponent(parts, e, precision), upper)| == |ExponentText(ExpExponent(parts, e, precision), false)|
  {
    ManyDigits(0);
  }
}
