/** Decimal digit strings and the natural numbers they denote. */
module Decimal {
  import opened Powers

  predicate IsDigit(c: char) { '0' <= c <= '9' }

  ghost predicate AllDigits(s: string) { forall i :: 0 <= i < |s| ==> IsDigit(s[i]) }

  function DigitValue(c: char): nat
    requires IsDigit(c)
  {
    (c - '0') as nat
  }

  function DigitChar(d: nat): (c: char)
    requires d < 10
    ensures IsDigit(c) && DigitValue(c) == d
  {
    '0' + d as char
  }

  /** The number a digit string denotes, most significant digit first. */
  ghost function ReadDec(s: string): nat
    requires AllDigits(s)
  {
    if s == [] then 0 else 10 * ReadDec(s[..|s| - 1]) + DigitValue(s[|s| - 1])
  }

  /** The shortest digit string that denotes n. */
  ghost function Dec(n: nat): (s: string)
    ensures |s| > 0 && AllDigits(s)
  {
    if n < 10 then [DigitChar(n)] else Dec(n / 10) + [DigitChar(n % 10)]
  }

  /** The last k digits of n, with leading zeros. */
  ghost function Pad(n: nat, k: nat): (s: string)
    ensures |s| == k && AllDigits(s)
  {
    if k == 0 then [] else Pad(n / 10, k - 1) + [DigitChar(n % 10)]
  }

  ghost function Zeros(k: nat): (s: string)
    ensures |s| == k && forall i :: 0 <= i < k ==> s[i] == '0'
  {
    seq(k, _ => '0')
  }

  lemma ReadOne(c: char)
    requires IsDigit(c)
    ensures AllDigits([c]) && ReadDec([c]) == DigitValue(c)
  {
    assert [c][..0] == [];
  }

  lemma ReadSnoc(s: string, c: char)
    requires AllDigits(s) && IsDigit(c)
    ensures AllDigits(s + [c]) && ReadDec(s + [c]) == 10 * ReadDec(s) + DigitValue(c)
  {
    assert (s + [c])[..|s|] == s;
  }

  lemma {:induction false} DecRead(n: nat)
    ensures ReadDec(Dec(n)) == n
    ensures Dec(n)[0] == '0' ==> n == 0
  {
    if n < 10 {
      ReadOne(DigitChar(n));
    } else {
      DecRead(n / 10);
      assert Dec(n)[..|Dec(n)| - 1] == Dec(n / 10);
    }
  }

  lemma {:induction false} PadRead(n: nat, k: nat)
    ensures ReadDec(Pad(n, k)) == n % Pow(10, k)
  {
    if k != 0 {
      PadRead(n / 10, k - 1);
      assert Pad(n, k)[..k - 1] == Pad(n / 10, k - 1);
      SplitLastDigit(n, Pow(10, k - 1));
    }
  }

  lemma SplitLastDigit(n: nat, p: nat)
    requires p > 0
    ensures n % (10 * p) == 10 * (n / 10 % p) + n % 10
    ensures n / (10 * p) == n / 10 / p
  {
    var m := n / 10;
    DivMod(m, p);
    assert n == m / p * (10 * p) + (10 * (m % p) + n % 10) by {
      MulAssoc(m / p, 10, p); MulAssoc(10, m / p, p);
    }
    DivModUnique(n, 10 * p, m / p, 10 * (m % p) + n % 10);
  }

  lemma {:induction false} ReadAppend(s: string, t: string)
    requires AllDigits(s) && AllDigits(t)
    ensures AllDigits(s + t)
    ensures ReadDec(s + t) == ReadDec(s) * Pow(10, |t|) + ReadDec(t)
  {
    if t == [] {
      assert s + t == s;
    } else {
      var n := |t| - 1;
      ReadAppend(s, t[..n]);
      assert (s + t)[..|s + t| - 1] == s + t[..n];
      MulAssoc(10, ReadDec(s), Pow(10, n));
      MulAssoc(ReadDec(s), 10, Pow(10, n));
    }
  }

  lemma {:induction false} ReadBound(s: string)
    requires AllDigits(s)
    ensures ReadDec(s) < Pow(10, |s|)
  {
    if s != [] { ReadBound(s[..|s| - 1]); }
  }

  lemma {:induction false} ReadZeros(s: string)
    requires forall i :: 0 <= i < |s| ==> s[i] == '0'
    ensures ReadDec(s) == 0
  {
    if s != [] { ReadZeros(s[..|s| - 1]); }
  }

  lemma {:induction false} ReadIsZero(s: string)
    requires AllDigits(s)
    ensures ReadDec(s) == 0 <==> forall i :: 0 <= i < |s| ==> s[i] == '0'
  {
    if s != [] {
      var n := |s| - 1;
      ReadIsZero(s[..n]);
      assert s == s[..n] + [s[n]];
    }
  }

  lemma {:induction false} ReadNines(s: string)
    requires forall i :: 0 <= i < |s| ==> s[i] == '9'
    ensures ReadDec(s) + 1 == Pow(10, |s|)
  {
    if s != [] { ReadNines(s[..|s| - 1]); }
  }

  lemma LeadingZeros(zeros: string, s: string)
    requires forall i :: 0 <= i < |zeros| ==> zeros[i] == '0'
    requires AllDigits(s)
    ensures AllDigits(zeros) && AllDigits(zeros + s) && ReadDec(zeros + s) == ReadDec(s)
  {
    ReadZeros(zeros);
    ReadAppend(zeros, s);
  }

  /** A nonzero leading digit fixes the length. */
  lemma {:induction false} ReadLeading(s: string)
    requires AllDigits(s) && s != []
    ensures s[0] != '0' <==> ReadDec(s) >= Pow(10, |s| - 1)
  {
    var rest := s[1..];
    assert s == s[..1] + rest;
    ReadAppend(s[..1], rest);
    assert s[..1] == [s[0]];
    ReadOne(s[0]);
    ReadBound(rest);
    if s[0] != '0' { MulMono(1, DigitValue(s[0]), Pow(10, |rest|)); }
  }

  /** How many digits n has. */
  lemma {:induction false} DecLength(n: nat)
    ensures n < Pow(10, |Dec(n)|)
    ensures n > 0 ==> Pow(10, |Dec(n)| - 1) <= n
  {
    DecRead(n);
    ReadBound(Dec(n));
    if n > 0 { ReadLeading(Dec(n)); }
  }

  lemma DecLengthIs(n: nat, k: nat)
    requires n < Pow(10, k)
    requires k > 0
    ensures |Dec(n)| <= k
    ensures Pow(10, k - 1) <= n ==> |Dec(n)| == k
  {
    DecLength(n);
    if |Dec(n)| > k { PowMono(10, k, |Dec(n)| - 1); }
    if |Dec(n)| < k && Pow(10, k - 1) <= n { PowMono(10, |Dec(n)|, k - 1); }
  }

  lemma DecLeading(n: nat)
    ensures Dec(n)[0] != '0' || |Dec(n)| == 1
  {
    DecRead(n);
  }

  lemma SameParts(a: nat, x: nat, b: nat, y: nat)
    requires 10 * a + x == 10 * b + y && x < 10 && y < 10
    ensures a == b && x == y
  {
  }

  /** Digit strings of the same length that denote the same number are equal. */
  lemma {:induction false} ReadInjective(s: string, t: string)
    requires AllDigits(s) && AllDigits(t) && |s| == |t|
    requires ReadDec(s) == ReadDec(t)
    ensures s == t
  {
    if s != [] {
      var n := |s| - 1;
      SameParts(ReadDec(s[..n]), DigitValue(s[n]), ReadDec(t[..n]), DigitValue(t[n]));
      ReadInjective(s[..n], t[..n]);
      assert s == s[..n] + [s[n]] && t == t[..n] + [t[n]];
    }
  }

  /** A digit string without a superfluous leading zero is the one `Dec` writes. */
  lemma DecUnique(s: string)
    requires AllDigits(s) && s != []
    requires s[0] != '0' || |s| == 1
    ensures s == Dec(ReadDec(s))
  {
    var n := ReadDec(s);
    assert |Dec(n)| == |s| by { SameLength(s); }
    DecRead(n);
    ReadInjective(s, Dec(n));
  }

  lemma SameLength(s: string)
    requires AllDigits(s) && s != []
    requires s[0] != '0' || |s| == 1
    ensures |Dec(ReadDec(s))| == |s|
  {
    ReadBound(s);
    if s[0] != '0' { ReadLeading(s); }
    DecLengthIs(ReadDec(s), |s|);
  }

  /** Cutting the last k digits off a long enough number. */
  lemma {:induction false} DecSplit(n: nat, k: nat)
    requires n >= Pow(10, k)
    ensures Dec(n) == Dec(n / Pow(10, k)) + Pad(n % Pow(10, k), k)
  {
    if k != 0 {
      var p := Pow(10, k - 1);
      DecSplit(n / 10, k - 1);
      SplitLastDigit(n, p);
      PadStep(n, k, p);
      DecStep(n);
    } else {
      WholeNumber(n);
    }
  }

  lemma WholeNumber(n: nat)
    ensures Dec(n / Pow(10, 0)) + Pad(n % Pow(10, 0), 0) == Dec(n)
  {
    assert Pow(10, 0) == 1;
  }

  lemma DecStep(n: nat)
    requires n >= 10
    ensures Dec(n) == Dec(n / 10) + [DigitChar(n % 10)]
  {
  }

  lemma PadStep(n: nat, k: nat, p: nat)
    requires k > 0 && p > 0 && n % (10 * p) == 10 * (n / 10 % p) + n % 10
    ensures Pad(n % (10 * p), k) == Pad(n / 10 % p, k - 1) + [DigitChar(n % 10)]
  {
    LastDigit(n % (10 * p), n / 10 % p, n % 10);
  }

  lemma LastDigit(r: nat, q: nat, d: nat)
    requires r == 10 * q + d && d < 10
    ensures r / 10 == q && r % 10 == d
  {
  }
}
