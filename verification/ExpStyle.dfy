/** `%Le`: the decimal exponent, and the value rounded to a number of significant digits. */
module ExpStyle {
  import opened Powers
  import opened Results
  import opened Words
  import opened Decimal
  import opened BigUInt
  import opened Rounding
  import opened BinaryFloat
  import opened Magnitude

  const INT32_MAX: int := 0x7FFF_FFFF
  const INT32_MIN: int := -0x8000_0000

  // ---- the exponent -----------------------------------------------------------

  lemma DecadeTells(parts: FormatBinaryFloat, e: int, k: int)
    requires InDecade(parts, e)
    ensures AtLeastTenTo(parts, k) <==> k <= e
  {
    if k <= e { DecadeOrder(parts, k, e); }
    if k > e && AtLeastTenTo(parts, k) { DecadeOrder(parts, e + 1, k); }
  }

  lemma ManyDigits(n: nat)
    ensures |Dec(n)| > 1 <==> n >= 10
  {
  }

  /** What scaling by an estimate of the exponent reveals: too high, too low, or right. */
  lemma EstimateTells(parts: FormatBinaryFloat, e: int, places: nat, n: nat)
    requires InDecade(parts, e) && places > 0
    requires n == parts.Num(places) / parts.Den(places)
    ensures n == 0 <==> 0 - places > e
    ensures |Dec(n)| > 1 <==> 0 - places < e
  {
    DecadeTells(parts, e, 0 - places);
    DecadeTells(parts, e, 1 - places);
    AtLeastAtScale(parts, places - 1, 1, places);
    assert Pow(10, 1) == 10;
    QuotientSize(parts.Num(places), parts.Den(places));
    ManyDigits(n);
  }

  lemma QuotientSize(num: nat, den: nat)
    requires den > 0
    ensures num / den == 0 <==> num < den
    ensures num / den >= 10 <==> num >= 10 * den
  {
    if num < den { DivModUnique(num, den, 0, num); } else { DivGe(num, den, 1); }
    if num >= 10 * den { DivGe(num, den, 10); } else { DivLt(num, den, 10); }
  }

  /** The estimates from which the search finds the exponent e of a value below one. */
  predicate GoodEstimate(first: int, e: int) { INT32_MIN <= first < 0 && Abs(first - e) <= 15 }

  /** What the search returns: its estimate once that is right, or the first error on the way. */
  ghost function Search(parts: FormatBinaryFloat, estimate: int, trials: nat, words: nat): Result<int>
    decreases trials
  {
    if trials == 0 then Err(ERANGE)
    else if estimate >= 0 then Err(EINVAL)
    else if !ScaledFits(parts, -estimate, words) then Err(EOVERFLOW)
    else
      var n := parts.Num(-estimate) / parts.Den(-estimate);
      if n == 0 then Search(parts, estimate - 1, trials - 1, words)
      else if n >= 10 then Search(parts, estimate + 1, trials - 1, words)
      else Ok(estimate)
  }

  const TRIALS: nat := 16

  ghost function SearchFrom(parts: FormatBinaryFloat, first: int, words: nat): Result<int> {
    if first < INT32_MIN || first > INT32_MAX then Err(EOVERFLOW) else Search(parts, first, TRIALS, words)
  }

  /** Room for every scaling within a distance of the exponent e. */
  ghost predicate WindowOf(parts: FormatBinaryFloat, e: int, distance: nat, words: nat) {
    forall places: nat :: Abs(places + e) <= distance ==> Fits(parts, places, words)
  }

  /** Room for every scaling the search may try. */
  ghost predicate WindowFits(parts: FormatBinaryFloat, e: int, words: nat) { WindowOf(parts, e, TRIALS - 1, words) }

  /** Whatever estimate it starts from, the search finds nothing but the decade; and from a good one it finds it. */
  lemma {:induction false} SearchFinds(parts: FormatBinaryFloat, estimate: int, trials: nat, words: nat, e: int)
    requires parts.Consistent() && InDecade(parts, e) && e < 0
    ensures var r := Search(parts, estimate, trials, words);
            && (r.Ok? ==> r.value == e && estimate < 0 && Abs(estimate - e) < trials)
            && (estimate < 0 && Abs(estimate - e) < trials && WindowOf(parts, e, trials - 1, words) ==> r == Ok(e))
    decreases trials
  {
    hide InDecade;
    hide Fits;
    hide ScaledFits;
    hide Dec;
    if trials > 0 && estimate < 0 {
      var places: nat := -estimate;
      EstimateTells(parts, e, places, parts.Num(places) / parts.Den(places));
      ManyDigits(parts.Num(places) / parts.Den(places));
      FitsIsEnough(parts, places, words);
      if estimate > e {
        SearchFinds(parts, estimate - 1, trials - 1, words, e);
      } else if estimate < e {
        SearchFinds(parts, estimate + 1, trials - 1, words, e);
      }
    }
  }

  /**
   The exponent of a value below one, from an estimate that is corrected by one place at a time.
   Whatever the estimate was, a successful search returns the exponent e of the value; it succeeds
   if and only if the estimate was negative and at most 15 places off.
   */
  method ExponentSmall(parts: FormatBinaryFloat, first: int, integer: FormatBigUInt, ghost e: int) returns (status: Result<int>)
    requires parts.Consistent() && !parts.zero && integer.words.Length >= 4
    requires InDecade(parts, e) && e < 0
    modifies integer`len, integer.words
    ensures status == SearchFrom(parts, first, integer.words.Length)
    ensures status.Ok? ==> status.value == e && GoodEstimate(first, e)
    ensures GoodEstimate(first, e) && WindowFits(parts, e, integer.words.Length) ==> status.Ok?
  {
    SearchFinds(parts, first, TRIALS, integer.words.Length, e);
    if first < INT32_MIN || first > INT32_MAX {
      return Err(EOVERFLOW);
    }
    var estimate := first;
    for i := 0 to TRIALS
      invariant SearchFrom(parts, first, integer.words.Length) == Search(parts, estimate, TRIALS - i, integer.words.Length)
    {
      if estimate >= 0 {
        return Err(EINVAL);
      }
      var step := TryEstimate(parts, estimate, integer);
      if step.Err? {
        return Err(step.errno);
      }
      if step.value == 0 {
        return Ok(estimate);
      }
      estimate := estimate + step.value;
    }
    return Err(ERANGE);
  }

  /** One trial of the search: the correction that the scaled value asks for. */
  method TryEstimate(parts: FormatBinaryFloat, estimate: int, integer: FormatBigUInt) returns (step: Result<int>)
    requires parts.Consistent() && integer.words.Length >= 4 && estimate < 0
    modifies integer`len, integer.words
    ensures step.Ok? <==> ScaledFits(parts, -estimate, integer.words.Length)
    ensures step.Err? ==> step == Err(EOVERFLOW)
    ensures step.Ok? ==> var n := parts.Num(-estimate) / parts.Den(-estimate);
                         step.value == if n == 0 then -1 else if n >= 10 then 1 else 0
  {
    var scaled := ScaledDecimal(parts, -estimate, integer);
    if scaled.Err? {
      return Err(scaled.errno);
    }
    ManyDigits(integer.Value());
    integer.ZeroIsEmpty();
    if integer.len == 0 {
      return Ok(-1);
    }
    var digitLen := integer.DecimalDigitCount();
    return Ok(if digitLen > 1 then 1 else 0);
  }

  /** The integer part of a value that is at least one has one digit more than the exponent says. */
  lemma ExponentOfInteger(parts: FormatBinaryFloat, e: int)
    requires InDecade(parts, e)
    ensures parts.AtLeastOne() <==> e >= 0
    ensures e >= 0 ==> |Dec(parts.Num(0) / parts.Den(0))| == e + 1
  {
    var num, den := parts.Num(0), parts.Den(0);
    if e < 0 && AtLeastTenTo(parts, 0) { DecadeOrder(parts, e + 1, 0); }
    if e >= 0 {
      DecadeOrder(parts, 0, e);
      AtLeastAtScale(parts, -e, e, 0);
      AtLeastAtScale(parts, -(e + 1), e + 1, 0);
      DivGe(num, den, Pow(10, e));
      DivLt(num, den, Pow(10, e + 1));
      DecLengthIs(num / den, e + 1);
    }
  }

  method Exponent(parts: FormatBinaryFloat, first: int, integer: FormatBigUInt, ghost e: int) returns (status: Result<int>)
    requires parts.Consistent() && integer.words.Length >= 4
    requires !parts.zero ==> InDecade(parts, e)
    modifies integer`len, integer.words
    ensures parts.zero ==> status == Ok(0)
    ensures status.Ok? && !parts.zero ==> status.value == e
    ensures !parts.zero && e >= 0 && Fits(parts, 0, integer.words.Length) ==> status.Ok?
    ensures !parts.zero && e < 0 ==> status == SearchFrom(parts, first, integer.words.Length)
    ensures !parts.zero && e < 0 && status.Ok? ==> GoodEstimate(first, e)
    ensures !parts.zero && e < 0 && GoodEstimate(first, e) && WindowFits(parts, e, integer.words.Length) ==> status.Ok?
  {
    if parts.zero {
      return Ok(0);
    }
    ExponentOfInteger(parts, e);
    if !parts.AtLeastOne() {
      status := ExponentSmall(parts, first, integer, e);
      return;
    }
    var scaled := ScaledDecimal(parts, 0, integer);
    if scaled.Err? {
      return Err(scaled.errno);
    }
    var digitLen := integer.DecimalDigitCount();
    return Ok(digitLen - 1);
  }
}
