/** `%Lf`: the correctly rounded value with a fixed number of decimal places. */
module FixedStyle {
  import opened Powers
  import opened Results
  import opened Words
  import opened Decimal
  import opened BigUInt
  import opened Rounding
  import opened BinaryFloat

  /** Rounds the integer part by what was cut off. */
  method RoundInteger(integer: FormatBigUInt, remainder: RemainderHalf) returns (status: Result<()>)
    requires integer.Valid()
    modifies integer`len, integer.words
    ensures
      var n := old(integer.Value());
      var rounded := if ShouldRound(remainder, n % 2 == 1) then n + 1 else n;
      && (status.Ok? ==> integer.Valid() && integer.Value() == rounded)
      && (status.Ok? <==> !integer.TooBig(rounded))
      && (status.Err? ==> status == Err(EOVERFLOW))
  {
    integer.AlreadyFits();
    var odd := integer.IsOdd();
    if ShouldRound(remainder, odd) {
      status := integer.AddOne();
    } else {
      status := Ok(());
    }
  }

  /** Puts the decimal point `precision` digits from the end, with zeros before a number below one. */
  method FormatFixedDigits(buffer: array<char>, capacity: nat, digitLen: nat, precision: nat, alternate: bool)
    returns (status: Result<nat>)
    requires 0 < digitLen < capacity <= buffer.Length
    modifies buffer
    ensures status.Ok? <==> |FixedText(old(buffer[..digitLen]), precision, alternate)| <= capacity
    ensures status.Err? ==> status == Err(EOVERFLOW)
    ensures status.Ok? ==> status.value <= buffer.Length && buffer[..status.value] == FixedText(old(buffer[..digitLen]), precision, alternate)
  {
    FixedTextLength(buffer[..digitLen], precision, alternate);
    if precision == 0 {
      if !alternate {
        return Ok(digitLen);
      }
      if digitLen >= capacity {
        return Err(EOVERFLOW);
      }
      AppendPoint(buffer, digitLen);
      return Ok(digitLen + 1);
    }
    var integerLen: int := digitLen - precision;
    if integerLen > 0 {
      var len := digitLen + 1;
      if len > capacity {
        return Err(EOVERFLOW);
      }
      InsertPoint(buffer, digitLen, integerLen, alternate);
      return Ok(len);
    }
    var zeros := 0;
    if integerLen < 0 {
      zeros := -integerLen;
    }
    var len := 2 + zeros + digitLen;
    if len > capacity {
      return Err(EOVERFLOW);
    }
    PrependZeros(buffer, digitLen, zeros, alternate);
    return Ok(len);
  }

  method AppendPoint(buffer: array<char>, digitLen: nat)
    requires 0 < digitLen < buffer.Length
    modifies buffer
    ensures buffer[..digitLen + 1] == FixedText(old(buffer[..digitLen]), 0, true)
  {
    buffer[digitLen] := '.';
  }

  method InsertPoint(buffer: array<char>, digitLen: nat, integerLen: nat, ghost alternate: bool)
    requires 0 < integerLen < digitLen < buffer.Length
    modifies buffer
    ensures buffer[..digitLen + 1] == FixedText(old(buffer[..digitLen]), digitLen - integerLen, alternate)
  {
    ghost var d := buffer[..digitLen];
    MemMove(buffer, integerLen + 1, integerLen, digitLen - integerLen);
    assert buffer[integerLen + 1..digitLen + 1] == d[integerLen..] && buffer[..integerLen] == d[..integerLen];
    buffer[integerLen] := '.';
    assert buffer[integerLen + 1..digitLen + 1] == d[integerLen..] && buffer[..integerLen] == d[..integerLen];
    assert buffer[..digitLen + 1] == d[..integerLen] + "." + d[integerLen..];
  }

  method PrependZeros(buffer: array<char>, digitLen: nat, zeros: nat, ghost alternate: bool)
    requires 0 < digitLen && 2 + zeros + digitLen <= buffer.Length
    modifies buffer
    ensures buffer[..2 + zeros + digitLen] == FixedText(old(buffer[..digitLen]), zeros + digitLen, alternate)
  {
    ghost var d := buffer[..digitLen];
    MemMove(buffer, 2 + zeros, 0, digitLen);
    assert buffer[2 + zeros..2 + zeros + digitLen] == d;
    buffer[0] := '0';
    buffer[1] := '.';
    for i := 0 to zeros
      invariant buffer[0] == '0' && buffer[1] == '.' && buffer[2 + zeros..2 + zeros + digitLen] == d
      invariant forall k :: 2 <= k < 2 + i ==> buffer[k] == '0'
    {
      buffer[2 + i] := '0';
    }
    assert buffer[2..2 + zeros] == Zeros(zeros);
    assert buffer[..2 + zeros + digitLen] == "0" + "." + (Zeros(zeros) + d);
  }

  lemma FixedTextLength(d: string, precision: nat, alternate: bool)
    ensures |FixedText(d, precision, alternate)| ==
      if precision == 0 then (if alternate then |d| + 1 else |d|) else if |d| > precision then |d| + 1 else precision + 2
  {
  }

  ghost function FixedText(d: string, precision: nat, alternate: bool): string {
    if precision == 0 then (if alternate then d + "." else d)
    else if |d| > precision then d[..|d| - precision] + "." + d[|d| - precision..]
    else "0" + "." + (Zeros(precision - |d|) + d)
  }

  /**
   t reads as the number n / 10^precision: an integer part without superfluous zeros, then the point,
   then exactly `precision` digits. The point is there unless there are no digits to follow it.
   */
  ghost predicate ReadsAsFixed(t: string, n: nat, precision: nat, alternate: bool) {
    exists whole: string, fraction: string :: PartsRead(t, whole, fraction, n, precision, alternate)
  }

  ghost predicate PartsRead(t: string, whole: string, fraction: string, n: nat, precision: nat, alternate: bool) {
    && AllDigits(whole) && AllDigits(fraction) && |fraction| == precision
    && whole != [] && (whole[0] != '0' || |whole| == 1)
    && t == whole + (if precision > 0 || alternate then "." else "") + fraction
    && AllDigits(whole + fraction) && ReadDec(whole + fraction) == n
  }

  /** The text built from the digits of n denotes n / 10^precision. */
  lemma FixedTextReads(n: nat, precision: nat, alternate: bool)
    ensures ReadsAsFixed(FixedText(Dec(n), precision, alternate), n, precision, alternate)
  {
    hide ReadsAsFixed;
    hide ReadDec;
    hide Dec;
    var d, t := Dec(n), FixedText(Dec(n), precision, alternate);
    DecRead(n);
    DecLeading(n);
    if precision == 0 {
      WholeReads(t, d, n, alternate);
    } else if |d| > precision {
      SplitReads(t, d, n, precision, alternate);
    } else {
      BelowOneReads(t, d, n, precision, alternate);
    }
  }

  lemma WholeReads(t: string, d: string, n: nat, alternate: bool)
    requires AllDigits(d) && d != [] && (d[0] != '0' || |d| == 1) && ReadDec(d) == n
    requires t == d + if alternate then "." else ""
    ensures ReadsAsFixed(t, n, 0, alternate)
  {
    assert d + [] == d;
    assert t + [] == t;
    assert PartsRead(t, d, [], n, 0, alternate);
  }

  lemma SplitReads(t: string, d: string, n: nat, precision: nat, alternate: bool)
    requires AllDigits(d) && d != [] && (d[0] != '0' || |d| == 1) && ReadDec(d) == n
    requires 0 < precision < |d| && t == d[..|d| - precision] + "." + d[|d| - precision..]
    ensures ReadsAsFixed(t, n, precision, alternate)
  {
    var whole, fraction := d[..|d| - precision], d[|d| - precision..];
    assert whole + fraction == d;
    assert PartsRead(t, whole, fraction, n, precision, alternate);
  }

  lemma BelowOneReads(t: string, d: string, n: nat, precision: nat, alternate: bool)
    requires AllDigits(d) && d != [] && ReadDec(d) == n && |d| <= precision
    requires t == "0" + "." + (Zeros(precision - |d|) + d)
    ensures ReadsAsFixed(t, n, precision, alternate)
  {
    var fraction := Zeros(precision - |d|) + d;
    LeadingZeros(Zeros(precision - |d|), d);
    ZeroWhole(t, fraction, n, precision, alternate);
  }

  lemma ZeroWhole(t: string, fraction: string, n: nat, precision: nat, alternate: bool)
    requires AllDigits(fraction) && ReadDec(fraction) == n && |fraction| == precision > 0
    requires t == "0" + "." + fraction
    ensures ReadsAsFixed(t, n, precision, alternate)
  {
    LeadingZeros("0", fraction);
    assert PartsRead(t, "0", fraction, n, precision, alternate);
  }

  /** What `%Lf` prints for |value|: x * 10^precision rounded to an integer, ties to even. */
  ghost function FixedNumber(parts: FormatBinaryFloat, precision: nat): nat {
    RoundHalfEven(parts.Num(precision), parts.Den(precision))
  }

  /** The text of |value| with `precision` decimal places. */
  ghost function FixedBody(parts: FormatBinaryFloat, precision: nat, alternate: bool): string {
    FixedText(Dec(FixedNumber(parts, precision)), precision, alternate)
  }

  /** Exactly what has to fit for the conversion to succeed. */
  ghost predicate FixedSucceeds(parts: FormatBinaryFloat, precision: nat, alternate: bool, words: nat, capacity: nat) {
    && ScaledFits(parts, precision, words)
    && FixedNumber(parts, precision) < Pow(BASE, words)
    && |Dec(FixedNumber(parts, precision))| < capacity
    && |FixedBody(parts, precision, alternate)| <= capacity
  }

  /** Room for all words and all characters. */
  ghost predicate FixedFits(parts: FormatBinaryFloat, precision: nat, words: nat, capacity: nat) {
    && Fits(parts, precision, words)
    && FixedNumber(parts, precision) < Pow(BASE, words)
    && |Dec(FixedNumber(parts, precision))| < capacity
    && |Dec(FixedNumber(parts, precision))| + 1 <= capacity
    && precision + 2 <= capacity
  }

  method GenerateFixedBody(parts: FormatBinaryFloat, precision: nat, alternate: bool,
                           buffer: array<char>, capacity: nat, integer: FormatBigUInt) returns (status: Result<nat>)
    requires parts.Consistent() && integer.words.Length >= 4
    requires 0 < capacity <= buffer.Length
    modifies buffer, integer`len, integer.words
    ensures status.Ok? ==> status.value <= buffer.Length
    ensures status.Ok? ==> RoundsHalfEven(FixedNumber(parts, precision), parts.Num(precision), parts.Den(precision))
    ensures status.Ok? ==> ReadsAsFixed(buffer[..status.value], FixedNumber(parts, precision), precision, alternate)
    ensures status.Ok? ==> buffer[..status.value] == FixedBody(parts, precision, alternate)
    ensures status.Ok? <==> FixedSucceeds(parts, precision, alternate, integer.words.Length, capacity)
    ensures status.Err? ==> status == Err(EOVERFLOW)
    ensures FixedFits(parts, precision, integer.words.Length, capacity) ==> status.Ok?
  {
    FitsIsEnough(parts, precision, integer.words.Length);
    ghost var n := FixedNumber(parts, precision);
    RoundedIsNearest(parts.Num(precision), parts.Den(precision));
    var remainder :- ScaledDecimal(parts, precision, integer);
    var rounded := RoundInteger(integer, remainder);
    if rounded.Err? {
      return Err(rounded.errno);
    }
    assert integer.Value() == n;
    var digitLen :- integer.ToDecimal(buffer, capacity);
    status := FormatFixedDigits(buffer, capacity, digitLen, precision, alternate);
    FixedTextReads(n, precision, alternate);
  }

  // ---- nothing overflows ----------------------------------------------------

  lemma {:induction false} TenBelowTwo(p: nat)
    ensures Pow(10, p) <= Pow(2, (10 * p + 2) / 3)
  {
    if p >= 3 {
      TenBelowTwo(p - 3);
      PowAdd(10, 3, p - 3);
      PowAdd(2, 10, (10 * (p - 3) + 2) / 3);
      assert (10 * p + 2) / 3 == 10 + (10 * (p - 3) + 2) / 3;
      SmallPowers();
      MulMono(1000, 1024, Pow(10, p - 3));
      MulMono(Pow(10, p - 3), Pow(2, (10 * (p - 3) + 2) / 3), 1024);
    } else {
      SmallPowers();
      assert p == 0 || p == 1 || p == 2;
    }
  }

  lemma SmallPowers()
    ensures Pow(10, 0) == 1 && Pow(10, 1) == 10 && Pow(10, 2) == 100 && Pow(10, 3) == 1000
    ensures Pow(2, 0) == 1 && Pow(2, 4) == 16 && Pow(2, 7) == 128 && Pow(2, 10) == 1024
  {
    PowAdd(2, 3, 4);
    PowAdd(2, 3, 7);
  }

  /** The largest finite value has at most Max10Exp + 1 digits before the point. */
  lemma LargestValue(format: LongDouble)
    ensures Pow(2, format.MaxExp()) < Pow(10, format.Max10Exp() + 1)
  {
    hide Pow;
    if format.Binary64? { LargestDouble(); } else { LargestExtended(); }
  }

  lemma LargestDouble()
    ensures Pow(2, 1024) < Pow(10, 309)
  {
    FewPowers();
    hide Pow;
    TwentyEightDigits();
    Scale(11, 1, 2);
    PowMono(2, 1024, 1025);
  }

  lemma LargestExtended()
    ensures Pow(2, 16384) < Pow(10, 4933)
  {
    hide Pow;
    TwentyEightDigits();
    MediumPowers();
    Scale(176, 5, 16);
  }

  lemma FewPowers()
    ensures Pow(10, 1) > Pow(2, 2)
  {
  }

  /** 10^28 > 2^93 carries over to large powers; the few digits left over are compared directly. */
  lemma Scale(k: nat, restTen: nat, restTwo: nat)
    requires Pow(10, 28) > Pow(2, 93) && Pow(10, restTen) > Pow(2, restTwo)
    ensures Pow(10, 28 * k + restTen) > Pow(2, 93 * k + restTwo)
  {
    hide Pow;
    PowersCompare(28, 93, k);
    PowAdd(10, 28 * k, restTen);
    PowAdd(2, 93 * k, restTwo);
    ProductExceeds(Pow(10, 28 * k), Pow(10, restTen), Pow(2, 93 * k), Pow(2, restTwo));
  }

  lemma PowersCompare(m: nat, n: nat, k: nat)
    requires Pow(10, m) > Pow(2, n)
    ensures m * k >= 0 && n * k >= 0 && Pow(10, m * k) >= Pow(2, n * k)
  {
    PowPow(10, m, k);
    PowPow(2, n, k);
    PowBaseMono(Pow(2, n), Pow(10, m), k);
  }

  lemma ProductExceeds(a: nat, b: nat, c: nat, d: nat)
    requires a >= c > 0 && b > d
    ensures a * b > c * d
  {
    MulMono(c, a, b);
    MulMono(d + 1, b, c);
    MulDist(c, d, 1);
  }

  lemma MediumPowers()
    ensures Pow(2, 16) == 65536 && Pow(10, 5) == 100000
    ensures Pow(10, 7) == 10000000 && Pow(2, 13) == 8192 && Pow(2, 20) == 1048576
  {
    SmallPowers();
    PowAdd(2, 7, 9); PowAdd(2, 2, 7);
    PowAdd(10, 2, 3); PowAdd(10, 3, 4); PowAdd(10, 1, 3);
    PowAdd(2, 3, 10); PowAdd(2, 10, 10);
  }

  lemma TwentyEightDigits()
    ensures Pow(10, 28) > Pow(2, 93)
  {
    MediumPowers();
    PowAdd(10, 7, 7);
    PowAdd(10, 14, 14);
    PowAdd(2, 20, 20);
    PowAdd(2, 40, 40);
    PowAdd(2, 13, 80);
  }

  /** Largest precision the fixed style is asked for: `%Lg` adds up to three places to its own bound. */
  function MaxFixedPlaces(format: LongDouble): nat { format.MaxDecimalPrecision() + 3 }

  lemma SizesSuffice(format: LongDouble, precision: nat)
    requires precision <= MaxFixedPlaces(format)
    ensures format.MaxExp() + (10 * precision + 2) / 3 + 31 <= 32 * format.BigUIntMaxWords()
    ensures format.Max10Exp() + 1 + precision + 1 < format.PrintfBufferSize()
  {
    assert format.Binary64? || format.X87? || format.Binary128?;
  }

  /** |value| < 2^MaxExp */
  lemma BelowTwoToMaxExp(format: LongDouble, parts: FormatBinaryFloat)
    requires parts.Finite(format)
    ensures parts.Significand() * Pow(2, Max(parts.binaryExponent, 0)) < Pow(2, format.MaxExp()) || parts.zero
  {
    if !parts.zero {
      var e := Max(parts.binaryExponent, 0);
      PowAdd(2, format.MantDig(), e);
      PowMono(2, format.MantDig() + e, format.MaxExp());
      MulMono(parts.Significand() + 1, Pow(2, format.MantDig()), Pow(2, e));
      MulDist(Pow(2, e), parts.Significand(), 1);
    }
  }

  lemma ScaledBelow(format: LongDouble, parts: FormatBinaryFloat, precision: nat)
    requires parts.Finite(format) && !parts.zero
    ensures parts.Num(precision) < Pow(2, format.MaxExp()) * Pow(10, precision)
    ensures parts.Num(precision) < Pow(2, format.MaxExp() + (10 * precision + 2) / 3)
  {
    BelowTwoToMaxExp(format, parts);
    var x, m, ten := parts.Significand() * Pow(2, Max(parts.binaryExponent, 0)), Pow(2, format.MaxExp()), Pow(10, precision);
    MulMono(x + 1, m, ten);
    MulDist(ten, x, 1);
    TenBelowTwo(precision);
    MulMono(ten, Pow(2, (10 * precision + 2) / 3), m);
    PowAdd(2, format.MaxExp(), (10 * precision + 2) / 3);
  }

  lemma IntermediateBelow(parts: FormatBinaryFloat, precision: nat)
    ensures parts.Significand() * Pow(5, precision) * Pow(2, Max(parts.binaryExponent + precision, 0)) <= parts.Num(precision)
  {
    var sig, e := parts.Significand(), Max(parts.binaryExponent, 0);
    PowProduct(2, 5, precision);
    Regroup(sig, Pow(2, e), Pow(2, precision), Pow(5, precision));
    PowAdd(2, e, precision);
    PowMono(2, Max(parts.binaryExponent + precision, 0), e + precision);
    MulMono(Pow(2, Max(parts.binaryExponent + precision, 0)), Pow(2, e + precision), sig * Pow(5, precision));
  }

  /** A zero scales to zero whatever its exponent. */
  lemma ZeroFits(format: LongDouble, parts: FormatBinaryFloat, precision: nat)
    requires parts.Finite(format) && parts.zero && precision <= MaxFixedPlaces(format)
    ensures FixedFits(parts, precision, format.BigUIntMaxWords(), format.PrintfBufferSize())
  {
    assert BoundedBy(parts, precision, 0);
    SizesSuffice(format, precision);
    ZeroScaled(parts, precision);
    DecLengthIs(0, 1);
  }

  /**
   `%Lf` cannot run out of room: for every finite value and every precision that is not refused, all
   intermediate bignums fit the words and all characters fit the buffer.
   */
  lemma FixedNeverOverflows(format: LongDouble, parts: FormatBinaryFloat, precision: nat)
    requires parts.Finite(format) && precision <= MaxFixedPlaces(format)
    ensures FixedFits(parts, precision, format.BigUIntMaxWords(), format.PrintfBufferSize())
  {
    if parts.zero {
      ZeroFits(format, parts, precision);
      return;
    }
    var bits := format.MaxExp() + (10 * precision + 2) / 3;
    SizesSuffice(format, precision);
    ScaledBelow(format, parts, precision);
    IntermediateBelow(parts, precision);
    assert BoundedBy(parts, precision, bits);
    PowStrict(2, bits, 32 * format.BigUIntMaxWords());
    BasePower(format.BigUIntMaxWords());
    FixedNumberBelow(format, parts, precision);
  }

  lemma FixedNumberBelow(format: LongDouble, parts: FormatBinaryFloat, precision: nat)
    requires parts.Finite(format) && !parts.zero
    ensures FixedNumber(parts, precision) <= Pow(2, format.MaxExp() + (10 * precision + 2) / 3)
    ensures |Dec(FixedNumber(parts, precision))| <= format.Max10Exp() + 1 + precision
  {
    ScaledBelow(format, parts, precision);
    var bound := Pow(2, format.MaxExp()) * Pow(10, precision);
    var num, den := parts.Num(precision), parts.Den(precision);
    MulMono(1, den, bound);
    RoundingIsMonotone(num, den, bound);
    MulMono(1, den, Pow(2, format.MaxExp() + (10 * precision + 2) / 3));
    RoundingIsMonotone(num, den, Pow(2, format.MaxExp() + (10 * precision + 2) / 3));
    LargestValue(format);
    PowAdd(10, format.Max10Exp() + 1, precision);
    MulMono(Pow(2, format.MaxExp()) + 1, Pow(10, format.Max10Exp() + 1), Pow(10, precision));
    MulDist(Pow(10, precision), Pow(2, format.MaxExp()), 1);
    DecLengthIs(FixedNumber(parts, precision), format.Max10Exp() + 1 + precision);
  }
}
