/** Rounding a rational number to an integer: roundTiesToEven of IEEE 754-2008, section 4.3.1. */
module Rounding {
  import opened Powers
  import opened BigUInt

  /** n is an integer nearest to num/den, and an even one when two are equally near. */
  ghost predicate RoundsHalfEven(n: nat, num: nat, den: nat) {
    && 2 * Abs(n * den - num) <= den
    && (2 * Abs(n * den - num) == den ==> n % 2 == 0)
  }

  function RoundHalfEven(num: nat, den: nat): nat
    requires den > 0
  {
    var q, r := num / den, num % den;
    if ShouldRound(Classify(r, den), q % 2 == 1) then q + 1 else q
  }

  /** The decision made from the class of what is cut off and the parity of what is kept. */
  function ShouldRound(remainder: RemainderHalf, odd: bool): bool {
    remainder == MoreHalf || (remainder == Half && odd)
  }

  lemma RoundedIsNearest(num: nat, den: nat)
    requires den > 0
    ensures RoundsHalfEven(RoundHalfEven(num, den), num, den)
  {
    DivMod(num, den);
    MulDist(den, num / den, 1);
  }

  /** The rounded integer is determined by the rational number alone. */
  lemma NearestIsUnique(m: nat, n: nat, num: nat, den: nat)
    requires den > 0
    requires RoundsHalfEven(m, num, den) && RoundsHalfEven(n, num, den)
    ensures m == n
  {
    if m < n {
      NotBothNearest(n, m, num, den);
    } else if n < m {
      NotBothNearest(m, n, num, den);
    }
  }

  lemma NotBothNearest(m: nat, n: nat, num: nat, den: nat)
    requires den > 0 && m > n
    ensures !(RoundsHalfEven(m, num, den) && RoundsHalfEven(n, num, den))
  {
    MulMono(n + 1, m, den);
    MulDist(den, n, 1);
    if m > n + 1 {
      MulMono(n + 2, m, den);
      MulDist(den, n, 2);
    }
  }

  lemma NearestIs(n: nat, num: nat, den: nat)
    requires den > 0 && RoundsHalfEven(n, num, den)
    ensures n == RoundHalfEven(num, den)
  {
    RoundedIsNearest(num, den);
    NearestIsUnique(n, RoundHalfEven(num, den), num, den);
  }

  /** Cancelling a common factor changes neither quotient nor remainder class. */
  lemma CancelFactor(num: nat, den: nat, c: nat)
    requires den > 0 && c > 0
    ensures den * c > 0
    ensures num * c / (den * c) == num / den
    ensures Classify(num * c % (den * c), den * c) == Classify(num % den, den)
  {
    var q, r := num / den, num % den;
    DivMod(num, den);
    MulMono(1, c, den);
    assert num * c == q * (den * c) + r * c by { MulDist(c, q * den, r); MulAssoc(q, den, c); }
    assert r * c < den * c by { MulMono(r + 1, den, c); MulDist(c, r, 1); }
    DivModUnique(num * c, den * c, q, r * c);
    assert 2 * (r * c) == (2 * r) * c by { MulAssoc(2, r, c); }
    if 2 * r < den { MulMono(2 * r + 1, den, c); MulDist(c, 2 * r, 1); }
    if 2 * r > den { MulMono(den + 1, 2 * r, c); MulDist(c, den, 1); }
    if r > 0 { MulMono(1, r, c); }
  }

  /** Rounding never passes an integer. */
  lemma RoundingIsMonotone(num: nat, den: nat, bound: nat)
    requires den > 0
    ensures num <= bound * den ==> RoundHalfEven(num, den) <= bound
    ensures num >= bound * den ==> RoundHalfEven(num, den) >= bound
  {
    DivMod(num, den);
    var q := num / den;
    if num <= bound * den {
      if q >= bound { MulMono(bound, q, den); }
    }
    if num >= bound * den { DivGe(num, den, bound); }
  }
}
