/** Finite `long double` values as significand, exponent and sign, and the sizes derived from `<float.h>`. */
module BinaryFloat {
  import opened Powers
  import opened Results
  import opened Words
  import opened BigUInt
  import opened Rounding

  /** The three formats of `long double` the code supports. */
  datatype LongDouble = Binary64 | X87 | Binary128 {
    function MantDig(): nat { match this case Binary64 => 53 case X87 => 64 case Binary128 => 113 }

    function MaxExp(): nat { if Binary64? then 1024 else 16384 }

    function MinExp(): int { if Binary64? then -1021 else -16381 }

    function Max10Exp(): nat { if Binary64? then 308 else 4932 }

    /** Decimal places that represent the smallest subnormal exactly. */
    function MaxDecimalPrecision(): nat { MantDig() - MinExp() }

    function MaxFixedPrefix(): nat { Max10Exp() + 8 }

    function PrintfBufferSize(): nat { MaxFixedPrefix() + MaxDecimalPrecision() + 8 }

    function MaxHexDigits(): nat { (MantDig() - 1 + 3) / 4 }

    function BigUIntMaxBits(): nat { (PrintfBufferSize() * 10 + 2) / 3 }

    function BigUIntMaxWords(): nat { (BigUIntMaxBits() + WORD_BITS - 1) / WORD_BITS }
  }

  type Uint64 = n: nat | n < 0x1_0000_0000_0000_0000

  datatype FormatBinaryFloat = FormatBinaryFloat(
    significandLow: Uint64,
    significandHigh: Uint64,
    binaryExponent: int,
    precisionBits: nat,
    negative: bool,
    zero: bool)
  {
    function Significand(): nat { significandLow + significandHigh * 0x1_0000_0000_0000_0000 }

    /** The zero flag is set exactly for a zero significand. */
    ghost predicate Consistent() { zero <==> Significand() == 0 }

    /** A value that decoding a finite number of this format can give. */
    ghost predicate Finite(format: LongDouble) {
      && Consistent()
      && Significand() < Pow(2, format.MantDig())
      && (!zero ==> format.MinExp() - format.MantDig() <= binaryExponent <= format.MaxExp() - format.MantDig())
    }

    /** |value| * 10^k is Num(k) / Den(k). */
    function Num(k: int): nat {
      Significand() * Pow(2, Max(binaryExponent, 0)) * Pow(10, Max(k, 0))
    }

    function Den(k: int): (d: nat)
      ensures d > 0
    {
      MulMono(1, Pow(2, Max(-binaryExponent, 0)), Pow(10, Max(-k, 0)));
      Pow(2, Max(-binaryExponent, 0)) * Pow(10, Max(-k, 0))
    }

    /** The comparison |value| >= 1.0. */
    predicate AtLeastOne() { Num(0) >= Den(0) }
  }

  /** Copies the significand into the lowest four words. */
  method CopySignificand(parts: FormatBinaryFloat, integer: FormatBigUInt)
    requires integer.words.Length >= 4
    modifies integer`len, integer.words
    ensures integer.Valid() && integer.Value() == parts.Significand()
  {
    var w0: Word, w1: Word := parts.significandLow % BASE, parts.significandLow / BASE;
    var w2: Word, w3: Word := parts.significandHigh % BASE, parts.significandHigh / BASE;
    integer.words[0] := w0;
    integer.words[1] := w1;
    integer.words[2] := w2;
    integer.words[3] := w3;
    FourWords(w0, w1, w2, w3);
    if w3 != 0 {
      integer.len := 4;
      assert integer.words[..4] == [w0, w1, w2, w3];
    } else if w2 != 0 {
      integer.len := 3;
      assert integer.words[..3] == [w0, w1, w2];
    } else if w1 != 0 {
      integer.len := 2;
      assert integer.words[..2] == [w0, w1];
    } else if w0 != 0 {
      integer.len := 1;
      assert integer.words[..1] == [w0];
    } else {
      integer.len := 0;
    }
  }

  lemma FourWords(w0: Word, w1: Word, w2: Word, w3: Word)
    ensures Nat([w0]) == w0
    ensures Nat([w0, w1]) == w0 + BASE * w1
    ensures Nat([w0, w1, w2]) == w0 + BASE * w1 + BASE * BASE * w2
    ensures Nat([w0, w1, w2, w3]) == w0 + BASE * w1 + BASE * BASE * w2 + BASE * BASE * BASE * w3
  {
    forall w: Word ensures Nat([w]) == w { assert [w][1..] == []; }
    forall w: Word, v: Word ensures Nat([w, v]) == w + BASE * v { assert [w, v][1..] == [v]; }
    forall w: Word, v: Word, u: Word ensures Nat([w, v, u]) == w + BASE * (v + BASE * u) { assert [w, v, u][1..] == [v, u]; }
    assert [w0, w1, w2, w3][1..] == [w1, w2, w3];
  }

  /** The words suffice for every intermediate result of scaling by 10^places. */
  ghost predicate Fits(parts: FormatBinaryFloat, places: nat, words: nat) {
    exists bits: nat :: bits + 31 <= 32 * words && BoundedBy(parts, places, bits)
  }

  ghost predicate BoundedBy(parts: FormatBinaryFloat, places: nat, bits: nat) {
    parts.Significand() * Pow(5, places) * Pow(2, Max(parts.binaryExponent + places, 0)) < Pow(2, bits)
  }

  /** The product with 5^places fits the words, and so does a shift to the left, by the check made before it. */
  ghost predicate ScaledFits(parts: FormatBinaryFloat, places: nat, words: nat) {
    var n, shift := parts.Significand() * Pow(5, places), parts.binaryExponent + places;
    parts.zero || (n < Pow(BASE, words) && (shift > 0 ==> WordCount(n) + shift / 32 + (if shift % 32 != 0 then 1 else 0) <= words))
  }

  /**
   integer := floor(|value| * 10^places), together with the class of what is cut off. The code
   multiplies by 5 only, and makes up for the powers of two in one shift.
   */
  method ScaledDecimal(parts: FormatBinaryFloat, places: nat, integer: FormatBigUInt) returns (status: Result<RemainderHalf>)
    requires parts.Consistent() && integer.words.Length >= 4
    modifies integer`len, integer.words
    ensures status.Ok? ==> integer.Valid() && integer.Value() == parts.Num(places) / parts.Den(places)
    ensures status.Ok? ==> status.value == Classify(parts.Num(places) % parts.Den(places), parts.Den(places))
    ensures status.Ok? <==> ScaledFits(parts, places, integer.words.Length)
    ensures status.Err? ==> status == Err(EOVERFLOW)
    ensures Fits(parts, places, integer.words.Length) ==> status.Ok?
  {
    FitsIsEnough(parts, places, integer.words.Length);
    CopySignificand(parts, integer);
    if parts.zero {
      ZeroScaled(parts, places);
      return Ok(Zero);
    }
    ghost var sig := parts.Significand();
    for i := 0 to places
      invariant integer.Valid() && integer.Value() == sig * Pow(5, i)
    {
      FiveTimes(sig, i);
      PowMono(5, i + 1, places);
      MulMono(Pow(5, i + 1), Pow(5, places), sig);
      var r := integer.MulSmall(5);
      if r.Err? { return Err(r.errno); }
    }
    integer.AlreadyFits();
    SignificandScaled(sig, places);
    status := ShiftScaled(parts, places, integer);
  }

  /** One shift takes the product with 5^places to its place. */
  method ShiftScaled(parts: FormatBinaryFloat, places: nat, integer: FormatBigUInt) returns (status: Result<RemainderHalf>)
    requires integer.Valid() && integer.Value() == parts.Significand() * Pow(5, places) > 0
    modifies integer`len, integer.words
    ensures status.Ok? ==> integer.Valid() && integer.Value() == parts.Num(places) / parts.Den(places)
    ensures status.Ok? ==> status.value == Classify(parts.Num(places) % parts.Den(places), parts.Den(places))
    ensures status.Err? ==> status == Err(EOVERFLOW)
    ensures status.Ok? <==>
      var n, shift := parts.Significand() * Pow(5, places), parts.binaryExponent + places;
      shift > 0 ==> WordCount(n) + shift / 32 + (if shift % 32 != 0 then 1 else 0) <= integer.words.Length
  {
    WordCountIs(integer.words[..integer.len]);
    integer.ZeroIsEmpty();
    var binaryShift := parts.binaryExponent + places;
    if binaryShift >= 0 {
      ScaledUp(parts, places);
      var r := integer.ShiftLeft(binaryShift);
      return if r.Err? then Err(r.errno) else Ok(Zero);
    }
    binaryShift := -binaryShift;
    ScaledDown(parts, places);
    var remainder := integer.RemainderOf(binaryShift);
    integer.ShiftRight(binaryShift);
    return Ok(remainder);
  }

  lemma FiveTimes(sig: nat, i: nat)
    ensures sig * Pow(5, i) * 5 == sig * Pow(5, i + 1)
  {
    MulAssoc(sig, Pow(5, i), 5);
  }

  lemma ZeroScaled(parts: FormatBinaryFloat, places: nat)
    requires parts.Significand() == 0
    ensures parts.Num(places) == 0 && 0 / parts.Den(places) == 0 && 0 % parts.Den(places) == 0
  {
    DivModUnique(0, parts.Den(places), 0, 0);
  }

  /** With a shift to the left the scaled value is an integer. */
  lemma ScaledUp(parts: FormatBinaryFloat, places: nat)
    requires parts.binaryExponent + places >= 0
    ensures
      var n := parts.Significand() * Pow(5, places) * Pow(2, parts.binaryExponent + places);
      && parts.Num(places) == n * parts.Den(places)
      && parts.Num(places) / parts.Den(places) == n && parts.Num(places) % parts.Den(places) == 0
  {
    var sig, e := parts.Significand(), parts.binaryExponent;
    PowProduct(2, 5, places);
    var five, two := Pow(5, places), Pow(2, places);
    if e >= 0 {
      PowAdd(2, e, places);
      Regroup(sig, Pow(2, e), two, five);
    } else {
      PowAdd(2, e + places, -e);
      Regroup(sig, 1, two, five);
      MulAssoc(sig * five, Pow(2, e + places), Pow(2, -e));
    }
    var n := sig * five * Pow(2, e + places);
    DivModUnique(parts.Num(places), parts.Den(places), n, 0);
  }

  lemma Regroup(sig: nat, a: nat, two: nat, five: nat)
    ensures sig * a * (two * five) == sig * five * (a * two)
  {
    calc {
      sig * a * (two * five);
      { MulAssoc(sig, a, two * five); MulAssoc(a, two, five); }
      sig * (a * two * five);
      { MulAssoc(sig, five, a * two); }
      sig * five * (a * two);
    }
  }

  /** With a shift to the right, quotient and remainder class are those of the shift. */
  lemma ScaledDown(parts: FormatBinaryFloat, places: nat)
    requires parts.binaryExponent + places < 0
    ensures
      var n := parts.Significand() * Pow(5, places);
      var d := Pow(2, -(parts.binaryExponent + places));
      && parts.Num(places) / parts.Den(places) == n / d
      && Classify(parts.Num(places) % parts.Den(places), parts.Den(places)) == Classify(n % d, d)
  {
    var sig, e := parts.Significand(), parts.binaryExponent;
    PowProduct(2, 5, places);
    PowAdd(2, -(e + places), places);
    Regroup(sig, 1, Pow(2, places), Pow(5, places));
    CancelFactor(sig * Pow(5, places), Pow(2, -(e + places)), Pow(2, places));
  }

  lemma SignificandScaled(sig: nat, places: nat)
    ensures sig * Pow(5, places) == 0 <==> sig == 0
  {
    if sig > 0 { MulMono(1, sig, Pow(5, places)); }
  }

  /** When every intermediate result is below the bits of the words, nothing is refused. */
  lemma FitsIsEnough(parts: FormatBinaryFloat, places: nat, words: nat)
    requires parts.Consistent()
    ensures Fits(parts, places, words) ==> ScaledFits(parts, places, words)
  {
    if Fits(parts, places, words) && !parts.zero {
      var bits: nat :| bits + 31 <= 32 * words && BoundedBy(parts, places, bits);
      var n := parts.Significand() * Pow(5, places);
      MulMono(1, Pow(2, Max(parts.binaryExponent + places, 0)), n);
      PowMono(2, bits, 32 * words);
      BasePower(words);
      SignificandScaled(parts.Significand(), places);
      if parts.binaryExponent + places > 0 { ShiftFits(n, parts.binaryExponent + places, bits, words); }
    }
  }

  lemma ShiftFits(n: nat, shift: nat, bits: nat, words: nat)
    requires n > 0 && n * Pow(2, shift) < Pow(2, bits) && bits + 31 <= 32 * words
    ensures WordCount(n) + shift / 32 + (if shift % 32 != 0 then 1 else 0) <= words
  {
    WordCountLow(n);
    var low := 32 * (WordCount(n) - 1);
    BasePower(WordCount(n) - 1);
    PowAdd(2, low, shift);
    MulMono(Pow(2, low), n, Pow(2, shift));
    if low + shift >= bits { PowMono(2, bits, low + shift); }
  }

  lemma {:induction false} WordCountLow(n: nat)
    requires n > 0
    ensures WordCount(n) > 0 && Pow(BASE, WordCount(n) - 1) <= n
  {
    if n / BASE > 0 {
      WordCountLow(n / BASE);
      DivMod(n, BASE);
      MulMono(Pow(BASE, WordCount(n) - 2), n / BASE, BASE);
    }
  }
}
