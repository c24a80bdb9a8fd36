/** Powers of a natural base, and the few nonlinear facts the other modules lean on. */
module Powers {

  function Pow(b: nat, e: nat): (p: nat)
    ensures b > 0 ==> p > 0
  {
    if e == 0 then 1 else b * Pow(b, e - 1)
  }

  function Min(a: int, b: int): int { if a < b then a else b }

  function Max(a: int, b: int): int { if a < b then b else a }

  /** |a| */
  function Abs(a: int): nat { if a < 0 then -a else a }

  /** Division of C: towards zero. */
  function TruncatedDiv(n: int, d: int): int
    requires d > 0
  {
    if n < 0 then -((-n) / d) else n / d
  }

  lemma {:induction false} PowAdd(b: nat, m: nat, n: nat)
    ensures Pow(b, m + n) == Pow(b, m) * Pow(b, n)
  {
    if m != 0 {
      PowAdd(b, m - 1, n);
      calc {
        Pow(b, m + n);
        b * Pow(b, m + n - 1);
        b * (Pow(b, m - 1) * Pow(b, n));
        { MulAssoc(b, Pow(b, m - 1), Pow(b, n)); }
        b * Pow(b, m - 1) * Pow(b, n);
      }
    }
  }

  lemma {:induction false} PowMono(b: nat, m: nat, n: nat)
    requires b > 0 && m <= n
    ensures Pow(b, m) <= Pow(b, n)
    decreases n
  {
    if m < n {
      PowMono(b, m, n - 1);
      MulMono(1, b, Pow(b, n - 1));
    }
  }

  lemma {:induction false} PowStrict(b: nat, m: nat, n: nat)
    requires b > 1 && m < n
    ensures Pow(b, m) < Pow(b, n)
  {
    PowMono(b, m, n - 1);
    MulMono(2, b, Pow(b, n - 1));
  }

  lemma {:induction false} PowProduct(a: nat, b: nat, n: nat)
    ensures Pow(a * b, n) == Pow(a, n) * Pow(b, n)
  {
    if n != 0 {
      PowProduct(a, b, n - 1);
      var x, y := Pow(a, n - 1), Pow(b, n - 1);
      calc {
        a * b * (x * y);
        { MulAssoc(a, b, x * y); MulAssoc(b, x, y); MulAssoc(x, b, y); }
        a * (x * (b * y));
        { MulAssoc(a, x, b * y); }
        (a * x) * (b * y);
      }
    }
  }

  /** (b^m)^n == b^(m*n) */
  lemma {:induction false} PowPow(b: nat, m: nat, n: nat)
    ensures m * n >= 0 && Pow(Pow(b, m), n) == Pow(b, m * n)
  {
    if n == 0 {
      assert m * n == 0;
    } else {
      PowPow(b, m, n - 1);
      assert m * n == m + m * (n - 1) by { MulDist(m, 1, n - 1); }
      PowAdd(b, m, m * (n - 1));
    }
  }

  lemma {:induction false} PowBaseMono(a: nat, b: nat, n: nat)
    requires a <= b
    ensures Pow(a, n) <= Pow(b, n)
  {
    if n != 0 {
      PowBaseMono(a, b, n - 1);
      MulMono(a, b, Pow(a, n - 1));
      MulMono(Pow(a, n - 1), Pow(b, n - 1), b);
    }
  }

  // ---- products -----------------------------------------------------------

  lemma MulAssoc(a: int, b: int, c: int)
    ensures a * b * c == a * (b * c)
  {
  }

  lemma MulDist(a: int, b: int, c: int)
    ensures a * (b + c) == a * b + a * c
    ensures (b + c) * a == b * a + c * a
  {
  }

  lemma MulMono(a: int, b: int, c: nat)
    requires a <= b
    ensures a * c <= b * c
    ensures c * a <= c * b
  {
  }

  lemma MulCancelLe(a: int, b: int, c: nat)
    requires c > 0 && a * c <= b * c
    ensures a <= b
  {
    if b < a { MulMono(b + 1, a, c); }
  }

  lemma MulCancelLt(a: int, b: int, c: nat)
    requires c > 0 && a * c < b * c
    ensures a < b
  {
    if b <= a { MulMono(b, a, c); }
  }

  // ---- quotient and remainder --------------------------------------------

  /** The quotient and the remainder are the only pair that fits. */
  lemma DivModUnique(n: int, d: nat, q: int, r: int)
    requires d > 0 && n == q * d + r && 0 <= r < d
    ensures n / d == q && n % d == r
  {
    var k := n / d - q;
    assert k * d == r - n % d by {
      assert n == (n / d) * d + n % d;
      MulDist(d, n / d, -q);
    }
    if k >= 1 { MulMono(1, k, d); assert false; }
    if k <= -1 { MulMono(k, -1, d); assert false; }
  }

  lemma DivModSplit(n: int, d: nat, high: int, low: int)
    requires n == low + d * high && 0 <= low < d
    ensures n / d == high && n % d == low
  {
    DivModUnique(n, d, high, low);
  }

  lemma DivMod(n: int, d: nat)
    requires d > 0
    ensures n == (n / d) * d + n % d && 0 <= n % d < d
  {
  }

  /** n / (c*d) is n / c / d. */
  lemma DivDiv(n: nat, c: nat, d: nat)
    requires c > 0 && d > 0
    ensures c * d > 0 && n / (c * d) == n / c / d
  {
    var q, r := n / c, n % c;
    var q', r' := q / d, q % d;
    assert n == q' * (c * d) + (r' * c + r) by {
      assert n == q * c + r;
      assert q == q' * d + r';
      assert q * c == q' * d * c + r' * c by { MulDist(c, q' * d, r'); }
      MulAssoc(q', d, c);
    }
    assert r' * c + r < c * d by { MulMono(r' + 1, d, c); }
    MulMono(1, c, d);
    DivModUnique(n, c * d, q', r' * c + r);
  }

  lemma DivLt(n: nat, d: nat, m: nat)
    requires d > 0 && n < m * d
    ensures n / d < m
  {
    MulCancelLt(n / d, m, d);
  }

  lemma DivGe(n: nat, d: nat, m: nat)
    requires d > 0 && n >= m * d
    ensures n / d >= m
  {
    MulCancelLt(m, n / d + 1, d);
  }
}
