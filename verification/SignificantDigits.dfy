/** `%Le`: the value rounded to a number of significant digits, ties to even. */
module SignificantDigits {
  import opened Powers
  import opened Results
  import opened Words
  import opened Decimal
  import opened Sequences
  import opened BigUInt
  import opened Rounding
  import opened BinaryFloat
  import opened Magnitude
  import opened FixedStyle
  import opened ExpStyle

  // ---- adding one in the last kept digit -----------------------------------------

  ghost predicate AllAre(s: string, c: char) { forall i :: 0 <= i < |s| ==> s[i] == c }

  /** ...c99 plus one is ...(c+1)00, given how the parts before the nines and zeros compare. */
  lemma CarryInto(x: string, y: string, nines: string, zeros: string)
    requires AllDigits(x) && AllDigits(y) && ReadDec(y) == ReadDec(x) + 1
    requires AllAre(nines, '9') && AllAre(zeros, '0') && |nines| == |zeros|
    ensures AllDigits(x + nines) && AllDigits(y + zeros)
    ensures ReadDec(y + zeros) == ReadDec(x + nines) + 1
  {
    ReadAppend(x, nines);
    ReadAppend(y, zeros);
    ReadNines(nines);
    ReadZeros(zeros);
    NextDigit(ReadDec(x), ReadDec(y), Pow(10, |nines|), ReadDec(nines), ReadDec(x + nines), ReadDec(y + zeros));
  }

  lemma BumpDigit(front: string, c: char)
    requires AllDigits(front) && IsDigit(c) && c < '9'
    ensures AllDigits(front + [c]) && AllDigits(front + [c + 1 as char])
    ensures ReadDec(front + [c + 1 as char]) == ReadDec(front + [c]) + 1
  {
    ReadSnoc(front, c);
    ReadSnoc(front, c + 1 as char);
  }

  lemma NextDigit(x: nat, y: nat, p: nat, nines: nat, before: nat, after: nat)
    requires y == x + 1 && nines + 1 == p
    requires before == x * p + nines && after == y * p
    ensures after == before + 1
  {
    MulDist(p, x, 1);
  }

  /** The digits of n + 1, when the digits of n are not all nines: `front`, then c, then nines. */
  lemma Incremented(front: string, c: char, nines: string, zeros: string, n: nat)
    requires Dec(n) == front + [c] + nines && n > 0 && IsDigit(c) && c < '9' && AllDigits(front)
    requires AllAre(nines, '9') && AllAre(zeros, '0') && |zeros| == |nines|
    ensures front + [c + 1 as char] + zeros == Dec(n + 1)
  {
    var t := front + [c + 1 as char] + zeros;
    DecRead(n);
    BumpDigit(front, c);
    CarryInto(front + [c], front + [c + 1 as char], nines, zeros);
    if front != [] { assert t[0] == front[0] == Dec(n)[0]; } else { assert t[0] == c + 1 as char; }
    DecUnique(t);
  }

  lemma AllNines(d: string, n: nat, zeros: string)
    requires d == Dec(n) && AllAre(d, '9') && AllAre(zeros, '0') && |zeros| == |d|
    ensures "1" + zeros == Dec(n + 1)
  {
    DecRead(n);
    ReadNines(d);
    ReadZeros(zeros);
    ReadOne('1');
    ReadAppend("1", zeros);
    DecUnique("1" + zeros);
  }

  /** Keeps the first `keep` digits and, if asked to, adds one to the number they form. */
  method RoundDigits(digits: array<char>, len: nat, keep: nat, roundUp: bool, ghost n: nat) returns (status: Result<nat>)
    requires 0 < keep <= len < digits.Length && keep < digits.Length
    requires n > 0 && digits[..keep] == Dec(n)
    modifies digits
    ensures keep < INT32_MAX ==> status.Ok?
    ensures status.Ok? ==> status.value == |Dec(if roundUp then n + 1 else n)| <= digits.Length
    ensures status.Ok? ==> digits[..status.value] == Dec(if roundUp then n + 1 else n)
  {
    if !roundUp {
      return Ok(keep);
    }
    var carried := AddInLastPlace(digits, keep, n);
    if !carried {
      return Ok(keep);
    }
    if keep >= INT32_MAX {
      return Err(EOVERFLOW);
    }
    ghost var zeros := digits[..keep];
    MemMove(digits, 1, 0, keep);
    digits[0] := '1';
    assert digits[..keep + 1] == "1" + zeros;
    return Ok(keep + 1);
  }

  /** Adds one to the number the digits form; tells whether it was all nines. */
  method AddInLastPlace(digits: array<char>, keep: nat, ghost n: nat) returns (carried: bool)
    requires n > 0 && keep <= digits.Length && digits[..keep] == Dec(n)
    modifies digits
    ensures !carried ==> digits[..keep] == Dec(n + 1)
    ensures carried ==> "1" + digits[..keep] == Dec(n + 1)
  {
    ghost var d := digits[..keep];
    for i := keep downto 0
      invariant Cleared(digits[..], d, i)
    {
      if digits[i] < '9' {
        digits[i] := digits[i] + 1 as char;
        IncrementedAt(digits[..keep], d, i, n);
        return false;
      }
      digits[i] := '0';
    }
    AllNines(d, n, digits[..keep]);
    return true;
  }

  /** From digit i on there were nines, which have become zeros; the digits before are untouched. */
  ghost predicate Cleared(w: string, d: string, i: nat) {
    && i <= |d| <= |w|
    && (forall k :: 0 <= k < i ==> w[k] == d[k])
    && (forall k :: i <= k < |d| ==> d[k] == '9' && w[k] == '0')
  }

  lemma IncrementedAt(w: string, d: string, i: nat, n: nat)
    requires n > 0 && d == Dec(n) && |w| == |d| && i < |d| && d[i] < '9'
    requires w[i] == d[i] + 1 as char && forall k :: 0 <= k < i ==> w[k] == d[k]
    requires forall k :: i < k < |d| ==> d[k] == '9' && w[k] == '0'
    ensures w == Dec(n + 1)
  {
    assert d == d[..i] + [d[i]] + d[i + 1..];
    assert w == d[..i] + [d[i] + 1 as char] + w[i + 1..];
    Incremented(d[..i], d[i], d[i + 1..], w[i + 1..], n);
  }

  // ---- rounding the digits of a long integer --------------------------------------

  /** Cutting the digits of n after the first `keep`. */
  lemma CutDigits(n: nat, keep: nat)
    requires 0 < keep < |Dec(n)|
    ensures
      var p := Pow(10, |Dec(n)| - keep);
      && Dec(n)[..keep] == Dec(n / p)
      && AllDigits(Dec(n)[keep..]) && ReadDec(Dec(n)[keep..]) == n % p
  {
    var m := |Dec(n)| - keep;
    DecLength(n);
    PowMono(10, m, |Dec(n)| - 1);
    DecSplit(n, m);
    PadRead(n % Pow(10, m), m);
    DivModUnique(n % Pow(10, m), Pow(10, m), 0, n % Pow(10, m));
    assert Dec(n)[..keep] == Dec(n / Pow(10, m)) && Dec(n)[keep..] == Pad(n % Pow(10, m), m);
  }

  /** The remainder c.u of a division, as tenths q and what is below them, and how it rounds. */
  lemma DecisionFromTenths(r: nat, unit: nat, c: nat, q: nat, u: nat, odd: bool)
    requires u < q && c < 10 && r == c * q + u && unit == 10 * q
    ensures ShouldRound(Classify(r, unit), odd) <==> c > 5 || (c == 5 && (u > 0 || odd))
  {
    if c > 5 { MulMono(6, c, q); }
    if c < 5 { MulMono(c, 4, q); MulMono(0, c, q); }
  }

  /** The rounding decision, from the first digit cut off and whether anything nonzero follows it. */
  lemma DecisionFromDigits(num: nat, den: nat, p: nat, c: nat, t: nat, unit: nat)
    requires den > 0 && p > 0 && c < 10 && t < p
    requires num / den % (10 * p) == c * p + t
    requires unit == den * (10 * p)
    ensures unit > 0 && num / unit == num / den / (10 * p)
    ensures ShouldRound(Classify(num % unit, unit), num / unit % 2 == 1)
        <==> c > 5 || (c == 5 && (t > 0 || num % den > 0 || num / unit % 2 == 1))
  {
    DivMod(num, den);
    DivMod(num / den, 10 * p);
    DecisionFromParts(num, num / den, num % den, num / den / (10 * p), den, p, c, t, unit);
  }

  lemma DecisionFromParts(num: nat, n: nat, r: nat, k: nat, den: nat, p: nat, c: nat, t: nat, unit: nat)
    requires num == n * den + r && r < den && n == k * (10 * p) + (c * p + t) && t < p && c < 10
    requires unit == den * (10 * p)
    ensures unit > 0 && num / unit == k
    ensures ShouldRound(Classify(num % unit, unit), k % 2 == 1) <==> c > 5 || (c == 5 && (t > 0 || r > 0 || k % 2 == 1))
  {
    var q, u := p * den, t * den + r;
    TailBelow(t, p, den, r);
    QuotientOfDigits(num, n, r, k, den, p, c, t, q, u);
    assert unit == 10 * q by { MulAssoc(10, p, den); }
    DecisionFromTenths(num % unit, unit, c, q, u, k % 2 == 1);
  }

  lemma QuotientOfDigits(num: nat, n: nat, r: nat, k: nat, den: nat, p: nat, c: nat, t: nat, q: nat, u: nat)
    requires num == n * den + r && n == k * (10 * p) + (c * p + t) && c < 10
    requires q == p * den && u == t * den + r && u < q
    ensures num / (10 * q) == k && num % (10 * q) == c * q + u
  {
    ExpandDigits(n, k, c, p, t, den, q);
    MulMono(0, c, q);
    MulMono(c, 9, q);
    DivModUnique(num, 10 * q, k, c * q + u);
  }

  lemma TailBelow(t: nat, p: nat, den: nat, r: nat)
    requires t < p && r < den
    ensures 0 <= t * den + r < p * den
    ensures t * den + r == 0 <==> t == 0 && r == 0
  {
    MulMono(t + 1, p, den);
    MulDist(den, t, 1);
    if t > 0 { MulMono(1, t, den); }
  }

  lemma ExpandDigits(n: nat, k: nat, c: nat, p: nat, t: nat, den: nat, q: nat)
    requires n == k * (10 * p) + (c * p + t) && q == p * den
    ensures n * den == k * (10 * q) + (c * q + t * den)
  {
    MulDist(den, k * (10 * p), c * p + t);
    MulDist(den, c * p, t);
    MulAssoc(c, p, den);
    MulAssoc(k, 10 * p, den);
    MulAssoc(10, p, den);
  }

  /** How an integer with too many digits d, followed by a fraction, is cut after `keep` digits and rounded. */
  lemma LongIntegerRounds(d: string, keep: nat, num: nat, den: nat, unit: nat)
    requires den > 0 && 0 < keep < |d| && d == Dec(num / den)
    requires unit == den * Pow(10, |d| - keep)
    ensures unit > 0 && d[..keep] == Dec(num / unit)
    ensures DigitValue(d[keep - 1]) % 2 == num / unit % 2
    ensures
      ShouldRound(Classify(num % unit, unit), num / unit % 2 == 1) <==>
      var c := DigitValue(d[keep]);
      c > 5 || (c == 5 && (!AllAre(d[keep + 1..], '0') || num % den > 0 || num / unit % 2 == 1))
  {
    var n, p := num / den, Pow(10, |d| - keep - 1);
    CutDigits(n, keep);
    CutTail(d[keep..], n % (10 * p), p);
    assert d[keep..][1..] == d[keep + 1..];
    DecisionFromDigits(num, den, p, DigitValue(d[keep]), ReadDec(d[keep + 1..]), unit);
    LastDigitParity(d[..keep], num / unit);
  }

  method HasNonzeroDigit(digits: array<char>, from: nat, to: nat) returns (found: bool)
    requires from <= to <= digits.Length
    ensures found <==> !AllAre(digits[from..to], '0')
  {
    found := false;
    for i := from to to
      invariant !found && forall k :: from <= k < i ==> digits[k] == '0'
    {
      if digits[i] != '0' {
        assert digits[from..to][i - from] != '0';
        found := true;
        break;
      }
    }
  }

  /** Whether an integer with too many digits, and what was cut off below its point, rounds up. */
  method RoundsUp(digits: array<char>, keep: nat, len: nat, remainder: RemainderHalf, ghost num: nat, ghost den: nat, ghost unit: nat)
    returns (roundUp: bool)
    requires 0 < keep < len <= digits.Length && den > 0
    requires digits[..len] == Dec(num / den) && remainder == Classify(num % den, den)
    requires unit == den * Pow(10, len - keep)
    ensures unit > 0 && digits[..keep] == Dec(num / unit)
    ensures roundUp <==> ShouldRound(Classify(num % unit, unit), num / unit % 2 == 1)
  {
    LongIntegerRounds(digits[..len], keep, num, den, unit);
    assert digits[..len][..keep] == digits[..keep] && digits[..len][keep + 1..] == digits[keep + 1..len];
    var roundDigit := DigitValue(digits[keep]);
    var tailNonzero := HasNonzeroDigit(digits, keep + 1, len);
    if remainder != Zero {
      tailNonzero := true;
    }
    if roundDigit > 5 {
      roundUp := true;
    } else if roundDigit < 5 {
      roundUp := false;
    } else if tailNonzero {
      roundUp := true;
    } else {
      roundUp := DigitValue(digits[keep - 1]) % 2 == 1;
    }
  }

  lemma CutTail(s: string, n: nat, p: nat)
    requires AllDigits(s) && s != [] && ReadDec(s) == n && p == Pow(10, |s| - 1)
    ensures AllDigits(s[1..]) && ReadDec(s[1..]) < p
    ensures n == DigitValue(s[0]) * p + ReadDec(s[1..])
    ensures ReadDec(s[1..]) == 0 <==> AllAre(s[1..], '0')
  {
    assert s == [s[0]] + s[1..];
    ReadOne(s[0]);
    ReadAppend([s[0]], s[1..]);
    ReadBound(s[1..]);
    ReadIsZero(s[1..]);
  }

  lemma LastDigitParity(s: string, n: nat)
    requires s == Dec(n)
    ensures DigitValue(s[|s| - 1]) % 2 == n % 2
  {
    if n >= 10 { DecStep(n); }
  }

  // ---- the digits and the exponent ---------------------------------------------------

  /** The value in units of its last significant digit, rounded; all nines can round up to 10^count. */
  ghost function SignificantNumber(parts: FormatBinaryFloat, e: int, count: nat): nat {
    RoundedAt(parts, count - 1 - e)
  }

  /** The digits that are printed for n, and the exponent that goes with them. */
  ghost function Mantissa(n: nat, count: nat): nat
    requires count > 0
  {
    if n == Pow(10, count) then Pow(10, count - 1) else n
  }

  ghost function PrintedExponent(n: nat, count: nat, e: int): int {
    if n == Pow(10, count) then e + 1 else e
  }

  /** A significant number has `count` digits, or is the next power of ten. */
  lemma SignificantRange(parts: FormatBinaryFloat, e: int, count: nat)
    requires InDecade(parts, e) && count > 0
    ensures Pow(10, count - 1) <= SignificantNumber(parts, e, count) <= Pow(10, count)
  {
    var k := count - 1 - e;
    AtLeastAtScale(parts, -e, count - 1, k);
    AtLeastAtScale(parts, -(e + 1), count, k);
    RoundingIsMonotone(parts.Num(k), parts.Den(k), Pow(10, count - 1));
    RoundingIsMonotone(parts.Num(k), parts.Den(k), Pow(10, count));
  }

  lemma MantissaDigits(n: nat, count: nat)
    requires count > 0 && Pow(10, count - 1) <= n <= Pow(10, count)
    ensures |Dec(n)| >= count && (|Dec(n)| > count <==> n == Pow(10, count))
    ensures Dec(Mantissa(n, count)) == Dec(n)[..count] && |Dec(Mantissa(n, count))| == count
  {
    if n == Pow(10, count) {
      PowMono(10, 1, count);
      DecStep(n);
      DecLengthIs(n / 10, count);
    } else {
      DecLengthIs(n, count);
      assert Dec(n)[..count] == Dec(n);
    }
  }

  /** Drops the digit that a carry has added, and lets the exponent account for it. */
  method DropCarry(digits: array<char>, len: nat, count: nat, e: int, ghost n: nat) returns (digitsLen: nat, exponent: int)
    requires count > 0 && Pow(10, count - 1) <= n <= Pow(10, count)
    requires len <= digits.Length && len == |Dec(n)| && digits[..len] == Dec(n)
    ensures digitsLen == count <= digits.Length && exponent == PrintedExponent(n, count, e)
    ensures digits[..count] == Dec(Mantissa(n, count))
  {
    MantissaDigits(n, count);
    digitsLen, exponent := len, e;
    if digitsLen > count {
      exponent := exponent + 1;
      digitsLen := count;
    }
    assert digits[..count] == digits[..len][..count];
  }

  /** Fewer significant digits than the integer part has: only the denominator grows. */
  lemma CoarserUnit(parts: FormatBinaryFloat, e: int, count: nat)
    requires InDecade(parts, e) && 0 < count <= e + 1
    ensures parts.Num(count - 1 - e) == parts.Num(0)
    ensures parts.Den(count - 1 - e) == parts.Den(0) * Pow(10, e + 1 - count)
    ensures parts.Num(0) / parts.Den(count - 1 - e) > 0
  {
    var k := count - 1 - e;
    assert Pow(10, 0) == 1;
    assert parts.Num(k) == parts.Num(0);
    AtLeastAtScale(parts, -e, count - 1, k);
    DivGe(parts.Num(k), parts.Den(k), Pow(10, count - 1));
  }

  /** The integer part already has enough digits: cut it and round by its own digits and what is below. */
  method FromInteger(digits: array<char>, len: nat, count: nat, remainder: RemainderHalf, e: int, ghost parts: FormatBinaryFloat)
    returns (status: Result<(nat, int)>)
    requires InDecade(parts, e) && 0 < count <= len == e + 1 && len < digits.Length
    requires digits[..len] == Dec(parts.Num(0) / parts.Den(0))
    requires remainder == Classify(parts.Num(0) % parts.Den(0), parts.Den(0))
    modifies digits
    ensures count < INT32_MAX ==> status.Ok?
    ensures status.Ok? ==> Prints(parts, e, count, digits[..], status.value)
  {
    ghost var num, den, unit := parts.Num(0), parts.Den(0), parts.Den(count - 1 - e);
    CoarserUnit(parts, e, count);
    SignificantRange(parts, e, count);
    var roundUp: bool;
    if len > count {
      roundUp := RoundsUp(digits, count, len, remainder, num, den, unit);
    } else {
      LastDigitParity(digits[..len], num / den);
      var lastDigit := DigitValue(digits[len - 1]);
      roundUp := ShouldRound(remainder, lastDigit % 2 == 1);
    }
    var rounded :- RoundDigits(digits, len, count, roundUp, num / unit);
    var digitsLen, exponent := DropCarry(digits, rounded, count, e, SignificantNumber(parts, e, count));
    return Ok((digitsLen, exponent));
  }

  /** Exactly `count` digits and the exponent they need, for the correctly rounded value. */
  ghost predicate Prints(parts: FormatBinaryFloat, e: int, count: nat, digits: string, r: (nat, int))
    requires count > 0
  {
    var n := SignificantNumber(parts, e, count);
    && r.0 == count <= |digits| && digits[..count] == Dec(Mantissa(n, count))
    && r.1 == PrintedExponent(n, count, e)
  }

  /** Room for the words and characters that producing `count` significant digits needs. */
  ghost predicate ExpFits(parts: FormatBinaryFloat, e: int, count: nat, words: nat, capacity: nat) {
    && count < INT32_MAX
    && (parts.AtLeastOne() || count - 1 - e >= 0)
    && (parts.AtLeastOne() ==> Fits(parts, 0, words) && e + 1 < capacity)
    && (count - 1 - e > 0 ==>
          Fits(parts, count - 1 - e, words) && Pow(10, count) < Pow(BASE, words) && count + 1 < capacity)
  }

  /** More digits are wanted than the integer part has: scale first, then round once. */
  method FromScaled(parts: FormatBinaryFloat, e: int, count: nat, places: nat, digits: array<char>, capacity: nat,
                    integer: FormatBigUInt) returns (status: Result<(nat, int)>)
    requires parts.Consistent() && !parts.zero && integer.words.Length >= 4
    requires InDecade(parts, e) && places == count - 1 - e
    requires 0 < count <= capacity <= digits.Length
    modifies digits, integer`len, integer.words
    ensures places > 0 && ExpFits(parts, e, count, integer.words.Length, capacity) ==> status.Ok?
    ensures status.Ok? ==> Prints(parts, e, count, digits[..], status.value)
  {
    ghost var n := SignificantNumber(parts, e, count);
    SignificantRange(parts, e, count);
    var remainder :- ScaledDecimal(parts, places, integer);
    var rounded := RoundInteger(integer, remainder);
    if rounded.Err? {
      return Err(rounded.errno);
    }
    DecLengthIs(n, count + 1);
    var len :- integer.ToDecimal(digits, capacity);
    PadToLength(digits, len, count, n);
    var digitsLen, exponent := DropCarry(digits, if len < count then count else len, count, e, n);
    return Ok((digitsLen, exponent));
  }

  /** Inserts zeros in front while there are fewer than `count` digits; there never are. */
  method PadToLength(digits: array<char>, len: nat, count: nat, ghost n: nat)
    requires 0 < len <= digits.Length && 0 < count <= digits.Length && digits[..len] == Dec(n)
    requires Pow(10, count - 1) <= n
    modifies digits
    ensures len >= count && digits[..len] == Dec(n)
  {
    ghost var before := digits[..];
    var filled := len;
    while filled < count
      invariant len <= filled <= Max(len, count)
      invariant filled == len ==> digits[..] == before
    {
      MemMove(digits, 1, 0, filled);
      digits[0] := '0';
      filled := filled + 1;
    }
    if len < count {
      DecLength(n);
      PowMono(10, len, count - 1);
    }
  }

  /** The significant digits of |value| and the decimal exponent that goes with them. */
  method ExpDigits(parts: FormatBinaryFloat, e: int, count: nat, digits: array<char>, capacity: nat, integer: FormatBigUInt)
    returns (status: Result<(nat, int)>)
    requires parts.Consistent() && integer.words.Length >= 4
    requires !parts.zero ==> InDecade(parts, e)
    requires 0 < count <= capacity <= digits.Length
    modifies digits, integer`len, integer.words
    ensures parts.zero ==> status == Ok((1, e)) && digits[0] == '0'
    ensures !parts.zero && status.Ok? ==> Prints(parts, e, count, digits[..], status.value)
    ensures !parts.zero && ExpFits(parts, e, count, integer.words.Length, capacity) ==> status.Ok?
  {
    if parts.zero {
      digits[0] := '0';
      return Ok((1, e));
    }
    var places: int;
    if parts.AtLeastOne() {
      var remainder :- ScaledDecimal(parts, 0, integer);
      ExponentOfInteger(parts, e);
      var len :- integer.ToDecimal(digits, capacity);
      if len >= count {
        status := FromInteger(digits, len, count, remainder, e, parts);
        return;
      }
      places := count - len;
    } else {
      places := count - 1 - e;
    }
    if places < 0 {
      return Err(EINVAL);
    }
    ExponentOfInteger(parts, e);
    status := FromScaled(parts, e, count, places, digits, capacity, integer);
  }
}
