/** Comparing a binary float with powers of ten: which decade it lies in. */
module Magnitude {
  import opened Powers
  import opened Decimal
  import opened Rounding
  import opened BinaryFloat

  /** |value| >= 10^e */
  ghost predicate AtLeastTenTo(parts: FormatBinaryFloat, e: int) {
    parts.Num(-e) >= parts.Den(-e)
  }

  /** 10^e <= |value| < 10^(e+1) */
  ghost predicate InDecade(parts: FormatBinaryFloat, e: int) {
    AtLeastTenTo(parts, e) && !AtLeastTenTo(parts, e + 1)
  }

  /** The two ways of writing |value| * 10^(k+j) as a fraction agree. */
  lemma ScaleTenfold(parts: FormatBinaryFloat, k: int, j: nat, m: int)
    requires m == k + j
    ensures parts.Num(m) * parts.Den(k) == parts.Num(k) * Pow(10, j) * parts.Den(m)
  {
    TenPowers(k, j, m);
    ScaleFactors(parts.Significand() * Pow(2, Max(parts.binaryExponent, 0)), Pow(2, Max(-parts.binaryExponent, 0)),
                 Pow(10, Max(m, 0)), Pow(10, Max(-k, 0)), Pow(10, Max(k, 0)), Pow(10, j), Pow(10, Max(-m, 0)));
  }

  lemma ScaleFactors(a: nat, b: nat, u: nat, d: nat, u': nat, t: nat, d': nat)
    requires u * d == u' * t * d'
    ensures a * u * (b * d) == a * u' * t * (b * d')
  {
    Rearrange(a, b, u, d, u' * t, d');
    MulAssoc(a, u', t);
  }

  lemma TenPowers(k: int, j: nat, m: int)
    requires m == k + j
    ensures Pow(10, Max(m, 0)) * Pow(10, Max(-k, 0)) == Pow(10, Max(k, 0)) * Pow(10, j) * Pow(10, Max(-m, 0))
  {
    PowAdd(10, Max(m, 0), Max(-k, 0));
    PowAdd(10, Max(k, 0), j);
    PowAdd(10, Max(k, 0) + j, Max(-m, 0));
    assert Max(m, 0) + Max(-k, 0) == Max(k, 0) + j + Max(-m, 0);
  }

  lemma Rearrange(a: nat, b: nat, u: nat, d: nat, u': nat, d': nat)
    requires u * d == u' * d'
    ensures a * u * (b * d) == a * u' * (b * d')
  {
    FourFactors(a, b, u, d);
    FourFactors(a, b, u', d');
  }

  lemma FourFactors(a: nat, b: nat, u: nat, d: nat)
    ensures a * u * (b * d) == a * b * (u * d)
  {
    calc {
      a * u * (b * d);
      { MulAssoc(a * u, b, d); MulAssoc(a, u, b); MulAssoc(a, b, u); }
      a * b * u * d;
      { MulAssoc(a * b, u, d); }
      a * b * (u * d);
    }
  }

  lemma CrossCompare(a: nat, b: nat, c: nat, d: nat, n: nat, t: nat)
    requires b > 0 && d > 0 && t > 0
    requires a * d == c * t * b
    ensures a >= n * t * b <==> c >= n * d
  {
    assert n * t * b * d == n * d * (t * b) by {
      MulAssoc(n, t, b); MulAssoc(n, t * b, d); MulAssoc(n, d, t * b);
    }
    assert c * t * b == c * (t * b) by { MulAssoc(c, t, b); }
    MulMono(1, t, b);
    if a >= n * t * b {
      MulMono(n * t * b, a, d);
      MulCancelLe(n * d, c, t * b);
    }
    if c >= n * d {
      MulMono(n * d, c, t * b);
      MulCancelLe(n * t * b, a, d);
    }
  }

  /** Being at least a power of ten, told at any finer scale. */
  lemma AtLeastAtScale(parts: FormatBinaryFloat, k: int, j: nat, m: int)
    requires m == k + j
    ensures parts.Num(k) >= parts.Den(k) <==> parts.Num(m) >= Pow(10, j) * parts.Den(m)
  {
    ScaleTenfold(parts, k, j, m);
    CrossCompareOne(parts.Num(m), parts.Den(m), parts.Num(k), parts.Den(k), Pow(10, j));
  }

  lemma CrossCompareOne(a: nat, b: nat, c: nat, d: nat, t: nat)
    requires b > 0 && d > 0 && t > 0
    requires a * d == c * t * b
    ensures a >= t * b <==> c >= d
  {
    CrossCompare(a, b, c, d, 1, t);
  }

  lemma {:induction false} DecadeOrder(parts: FormatBinaryFloat, e: int, f: int)
    requires e <= f && AtLeastTenTo(parts, f)
    ensures AtLeastTenTo(parts, e)
  {
    AtLeastAtScale(parts, -f, f - e, -e);
    MulMono(1, Pow(10, f - e), parts.Den(-e));
  }

  lemma DecadeUnique(parts: FormatBinaryFloat, e: int, f: int)
    requires InDecade(parts, e) && InDecade(parts, f)
    ensures e == f
  {
    if e < f { DecadeOrder(parts, e + 1, f); }
    if f < e { DecadeOrder(parts, f + 1, e); }
  }

  /** Every nonzero value lies in some decade. */
  lemma DecadeExists(parts: FormatBinaryFloat) returns (e: int)
    requires parts.Significand() > 0
    ensures InDecade(parts, e)
  {
    var high := HighPower(parts);
    e := LowPower(parts);
    if e >= high { DecadeOrder(parts, high, e); }
    while AtLeastTenTo(parts, e + 1)
      invariant AtLeastTenTo(parts, e) && e < high
      decreases high - e
    {
      e := e + 1;
    }
  }

  /** The decade of a nonzero value. */
  ghost function Decade(parts: FormatBinaryFloat): (e: int)
    ensures parts.Significand() > 0 ==> InDecade(parts, e)
  {
    if parts.Significand() == 0 then 0
    else
      DecadeIsThere(parts);
      var e :| InDecade(parts, e);
      e
  }

  lemma DecadeIsThere(parts: FormatBinaryFloat)
    requires parts.Significand() > 0
    ensures exists e :: InDecade(parts, e)
  {
    var e := DecadeExists(parts);
  }

  lemma LowPower(parts: FormatBinaryFloat) returns (e: int)
    requires parts.Significand() > 0
    ensures AtLeastTenTo(parts, e)
  {
    var b := Max(-parts.binaryExponent, 0);
    e := -b;
    PowBaseMono(2, 10, b);
    MulMono(1, Pow(2, Max(parts.binaryExponent, 0)), parts.Significand());
    MulMono(1, parts.Significand() * Pow(2, Max(parts.binaryExponent, 0)), Pow(10, b));
  }

  lemma HighPower(parts: FormatBinaryFloat) returns (e: int)
    ensures !AtLeastTenTo(parts, e)
  {
    var a := parts.Significand() * Pow(2, Max(parts.binaryExponent, 0));
    e := a;
    PowerExceeds(a);
    MulMono(1, Pow(2, Max(-parts.binaryExponent, 0)), Pow(10, a));
  }

  lemma {:induction false} PowerExceeds(n: nat)
    ensures Pow(10, n) > n
  {
    if n > 0 { PowerExceeds(n - 1); }
  }

  // ---- rounding at a coarser scale ------------------------------------------

  /** |value| * 10^k as printed: rounded to an integer, ties to even. */
  ghost function RoundedAt(parts: FormatBinaryFloat, k: int): nat {
    RoundHalfEven(parts.Num(k), parts.Den(k))
  }

  /**
   When rounding at scale k+j gives exactly 10^j * n, rounding at the coarser scale k gives n, provided
   the finer rounding error cannot reach half of the coarser unit.
   */
  lemma CoarserRounding(parts: FormatBinaryFloat, k: int, j: nat, n: nat)
    requires j > 0 && RoundedAt(parts, k + j) == n * Pow(10, j)
    ensures RoundedAt(parts, k) == n
  {
    var a, b, c, d := parts.Num(k + j), parts.Den(k + j), parts.Num(k), parts.Den(k);
    RoundedIsNearest(a, b);
    ScaleTenfold(parts, k, j, k + j);
    PowMono(10, 1, j);
    NearestScaled(a, b, c, d, n, Pow(10, j));
    NearestIs(n, c, d);
  }

  lemma NearestScaled(a: nat, b: nat, c: nat, d: nat, n: nat, t: nat)
    requires b > 0 && d > 0 && t >= 10
    requires a * d == c * t * b
    requires RoundsHalfEven(n * t, a, b)
    ensures RoundsHalfEven(n, c, d)
  {
    var x, y := n * d - c, n * t * b - a;
    assert n * d * (t * b) == n * t * b * d by { MulAssoc(n, t, b); MulAssoc(n, t * b, d); MulAssoc(n, d, t * b); }
    assert c * (t * b) == a * d by { MulAssoc(c, t, b); }
    DiffProduct(n * d, c, t * b);
    DiffProduct(n * t * b, a, d);
    MulMono(10, t, b);
    ErrorShrinks(x, y, t * b, b, d);
  }

  lemma DiffProduct(a: int, b: int, c: int)
    ensures (a - b) * c == a * c - b * c
  {
  }

  /** An error of at most half a unit b is less than half of a unit ten times as large. */
  lemma ErrorShrinks(x: int, y: int, tb: nat, b: nat, d: nat)
    requires b > 0 && d > 0 && tb >= 10 * b
    requires x * tb == y * d && 2 * Abs(y) <= b
    ensures 2 * Abs(x) < d
  {
    SameSign(x, tb, y, d);
    NegProduct(x, tb);
    NegProduct(y, d);
    MagnitudeShrinks(Abs(x), Abs(y), tb, b, d);
  }

  lemma MagnitudeShrinks(ax: nat, ay: nat, tb: nat, b: nat, d: nat)
    requires b > 0 && d > 0 && tb >= 10 * b
    requires ax * tb == ay * d && 2 * ay <= b
    ensures 2 * ax < d
  {
    if 2 * ax >= d {
      MulMono(d, 2 * ax, tb);
      MulAssoc(2, ax, tb);
      MulMono(2 * ay, b, d);
      MulAssoc(2, ay, d);
      MulMono(10 * b, tb, d);
      MulAssoc(10, b, d);
      MulMono(1, b, d);
      assert false;
    }
  }

  lemma NegProduct(a: int, b: int)
    ensures (-a) * b == -(a * b)
  {
  }

  lemma SameSign(a: int, b: nat, c: int, d: nat)
    requires a * b == c * d && b > 0 && d > 0
    ensures a < 0 <==> c < 0
  {
    if a < 0 { MulMono(a, -1, b); if c >= 0 { MulMono(0, c, d); } }
    if c < 0 { MulMono(c, -1, d); if a >= 0 { MulMono(0, a, b); } }
  }
}
