/**
 Triangular probing modulo a power of two: the sequence base + i(i+1)/2 visits every slot exactly once.
 */
module Probing {
  import opened Powers
  import opened Bits
  import opened Words

  /** i(i+1)/2 */
  function Triangle(i: nat): nat {
    if i == 0 then 0 else Triangle(i - 1) + i
  }

  lemma {:induction false} TriangleFormula(i: nat)
    ensures 2 * Triangle(i) == i + i * i
  {
    if i > 0 {
      TriangleFormula(i - 1);
      assert i * i == (i - 1) * (i - 1) + 2 * i - 1;
    }
  }

  /** The slot looked at in step i. */
  function Slot(base: nat, i: nat, power: nat): (s: nat)
    ensures s < Pow(2, power)
  {
    (base + Triangle(i)) % Pow(2, power)
  }

  /** What the code computes with 64-bit intermediate values, a cut to 32 bits, and a mask. */
  function ProbeIndex(base: nat, i: nat, power: nat): nat {
    And((base + (i + i * i) / 2) % BASE, Pow(2, power) - 1)
  }

  lemma ProbeIndexIsSlot(base: nat, i: nat, power: nat)
    requires power <= 32
    ensures ProbeIndex(base, i, power) == Slot(base, i, power)
  {
    TriangleFormula(i);
    var n := base + Triangle(i);
    AndMask(n % BASE, power);
    PowersOfTwoDivide(power);
    DivMod(n, BASE);
    assert n == n % BASE + BASE * (n / BASE);
    LowBits(n % BASE, n / BASE, Pow(2, power), Pow(2, 32 - power));
  }

  // ---- each slot at most once ---------------------------------------------------

  /** An odd factor contributes nothing to divisibility by a power of two. */
  lemma {:induction false} OddFactor(m: nat, a: nat, b: nat, product: nat)
    requires a % 2 == 1 && product == a * b && product % Pow(2, m) == 0
    ensures b % Pow(2, m) == 0
  {
    if m > 0 {
      var p := Pow(2, m - 1);
      EvenMultiple(product, p);
      EvenCofactor(a, b, product);
      var h := b / 2;
      assert product == 2 * (a * h) by { assert b == 2 * h; MulAssoc(a, 2, h); MulAssoc(2, a, h); }
      HalfMultiple(a * h, p);
      OddFactor(m - 1, a, h, a * h);
      HalfMultiple(h, p);
    }
  }

  lemma EvenMultiple(n: nat, p: nat)
    requires p > 0 && n % (2 * p) == 0
    ensures n % 2 == 0
  {
    DivMod(n, 2 * p);
    assert n == 2 * (n / (2 * p) * p) by { MulAssoc(n / (2 * p), 2, p); MulAssoc(2, n / (2 * p), p); }
  }

  lemma EvenCofactor(a: nat, b: nat, product: nat)
    requires a % 2 == 1 && product == a * b && product % 2 == 0
    ensures b % 2 == 0
  {
    if b % 2 == 1 { OddProduct(a, b); }
  }

  lemma OddProduct(a: nat, b: nat)
    requires a % 2 == 1 && b % 2 == 1
    ensures (a * b) % 2 == 1
  {
    var x, y := a / 2, b / 2;
    MulDist(b, 2 * x, 1);
    MulAssoc(2, x, b);
    assert a * b == 2 * (x * b + y) + 1;
  }

  lemma HalfMultiple(n: nat, p: nat)
    requires p > 0
    ensures (2 * n) % (2 * p) == 0 <==> n % p == 0
  {
    DivMod(n, p);
    var q, r := n / p, n % p;
    assert 2 * n == q * (2 * p) + 2 * r by { MulAssoc(q, 2, p); MulAssoc(2, q, p); }
    DivModUnique(2 * n, 2 * p, q, 2 * r);
  }

  lemma SameRemainder(m: nat, n: nat, d: nat)
    requires d > 0 && m <= n && m % d == n % d
    ensures (n - m) % d == 0
  {
    DivMod(m, d);
    DivMod(n, d);
    var k := n / d - m / d;
    assert k * d == n - m by { MulDist(d, n / d, 0 - m / d); }
    DivModUnique(n - m, d, k, 0);
  }

  lemma ShiftedDiffer(base: nat, x: nat, y: nat, d: nat)
    requires d > 0 && x <= y && (y - x) % d != 0
    ensures (base + x) % d != (base + y) % d
  {
    if (base + x) % d == (base + y) % d {
      SameRemainder(base + x, base + y, d);
    }
  }

  lemma TriangleDifference(i: nat, j: nat)
    requires i <= j
    ensures Triangle(j) >= Triangle(i)
    ensures 2 * (Triangle(j) - Triangle(i)) == (j - i) * (j + i + 1)
  {
    TriangleFormula(i);
    TriangleFormula(j);
    calc {
      (j - i) * (j + i + 1);
      { MulDist(j - i, j + i, 1); MulDist(j + i, j, 0 - i); }
      j * (j + i) - i * (j + i) + (j - i);
      { MulDist(j, j, i); MulDist(i, j, i); }
      j * j - i * i + (j - i);
    }
    MulMono(0, j - i, j + i + 1);
  }

  lemma NoMultipleBetween(i: nat, j: nat, power: nat)
    requires i < j < Pow(2, power)
    ensures Triangle(i) <= Triangle(j) && (Triangle(j) - Triangle(i)) % Pow(2, power) != 0
  {
    TriangleDifference(i, j);
    var t := Triangle(j) - Triangle(i);
    OddSum(j - i, j + i + 1, 2 * t, power + 1);
    HalfMultiple(t, Pow(2, power));
  }

  /** Two different steps below the capacity look at different slots. */
  lemma SlotsDiffer(base: nat, i: nat, j: nat, power: nat)
    requires i < j < Pow(2, power)
    ensures Slot(base, i, power) != Slot(base, j, power)
  {
    NoMultipleBetween(i, j, power);
    ShiftedDiffer(base, Triangle(i), Triangle(j), Pow(2, power));
  }

  /** Of two factors with an odd sum one is odd. */
  lemma OddSum(a: nat, b: nat, product: nat, m: nat)
    requires product == a * b && (a + b) % 2 == 1 && 0 < a < Pow(2, m) && 0 < b < Pow(2, m)
    ensures product % Pow(2, m) != 0
  {
    hide Pow;
    if a % 2 == 1 { NotAMultiple(a, b, product, m); } else { NotAMultiple(b, a, product, m); }
  }

  /** A product with an odd factor is no multiple of a power of two above the other factor. */
  lemma NotAMultiple(a: nat, b: nat, product: nat, m: nat)
    requires product == a * b && a % 2 == 1 && 0 < b < Pow(2, m)
    ensures product % Pow(2, m) != 0
  {
    if product % Pow(2, m) == 0 {
      OddFactor(m, a, b, product);
      SmallMultiple(b, Pow(2, m));
    }
  }

  lemma SmallMultiple(n: nat, d: nat)
    requires 0 < n < d
    ensures n % d != 0
  {
    DivModUnique(n, d, 0, n);
  }

  // ---- each slot at least once --------------------------------------------------------

  /** The slots looked at in the first n steps. */
  ghost function Visited(base: nat, n: nat, power: nat): set<nat> {
    if n == 0 then {} else Visited(base, n - 1, power) + {Slot(base, n - 1, power)}
  }

  lemma {:induction false} VisitedMembers(base: nat, n: nat, power: nat, s: nat)
    ensures s in Visited(base, n, power) <==> exists i: nat :: i < n && Slot(base, i, power) == s
  {
    if n > 0 { VisitedMembers(base, n - 1, power, s); }
  }

  lemma {:induction false} VisitedCount(base: nat, n: nat, power: nat)
    requires n <= Pow(2, power)
    ensures |Visited(base, n, power)| == n
  {
    if n > 0 {
      VisitedCount(base, n - 1, power);
      var s := Slot(base, n - 1, power);
      VisitedMembers(base, n - 1, power, s);
      if s in Visited(base, n - 1, power) {
        var i: nat :| i < n - 1 && Slot(base, i, power) == s;
        SlotsDiffer(base, i, n - 1, power);
      }
    }
  }

  ghost function Below(n: nat): set<nat> {
    if n == 0 then {} else Below(n - 1) + {n - 1}
  }

  lemma {:induction false} BelowMembers(n: nat, k: nat)
    ensures k in Below(n) <==> k < n
  {
    if n > 0 { BelowMembers(n - 1, k); }
  }

  lemma {:induction false} BelowCount(n: nat)
    ensures |Below(n)| == n
  {
    if n > 0 {
      BelowCount(n - 1);
      BelowMembers(n - 1, n - 1);
    }
  }

  lemma SameSizeSubset(a: set<nat>, b: set<nat>)
    requires a <= b && |a| == |b|
    ensures a == b
  {
    var rest := b - a;
    assert b == a + rest;
    assert |rest| == 0;
  }

  /** Every slot is looked at in some step below the capacity. */
  lemma StepOf(base: nat, s: nat, power: nat) returns (i: nat)
    requires s < Pow(2, power)
    ensures i < Pow(2, power) && Slot(base, i, power) == s
  {
    var n := Pow(2, power);
    var visited := Visited(base, n, power);
    VisitedCount(base, n, power);
    BelowCount(n);
    forall t | t in visited ensures t in Below(n) { VisitedMembers(base, n, power, t); BelowMembers(n, t); }
    SameSizeSubset(visited, Below(n));
    BelowMembers(n, s);
    VisitedMembers(base, n, power, s);
    i :| i < n && Slot(base, i, power) == s;
  }

  /** Below the capacity every slot is looked at in exactly one step. */
  lemma EachSlotExactlyOnce(base: nat, s: nat, power: nat) returns (i: nat)
    requires s < Pow(2, power)
    ensures i < Pow(2, power)
    ensures forall j: nat :: j < Pow(2, power) ==> (Slot(base, j, power) == s <==> j == i)
  {
    i := StepOf(base, s, power);
    forall j: nat | j < Pow(2, power) && j != i ensures Slot(base, j, power) != s {
      if j < i { SlotsDiffer(base, j, i, power); } else { SlotsDiffer(base, i, j, power); }
    }
  }

  /** Only the hash modulo the capacity matters as the base. */
  lemma MaskedBase(hash: nat, i: nat, power: nat)
    ensures Slot(And(hash, Pow(2, power) - 1), i, power) == Slot(hash, i, power)
    ensures Slot(hash, 0, power) == And(hash, Pow(2, power) - 1)
  {
    AndMask(hash, power);
    ReducedBase(hash, Triangle(i), Pow(2, power));
  }

  lemma ReducedBase(n: nat, t: nat, d: nat)
    requires d > 0
    ensures (n % d + t) % d == (n + t) % d
  {
    DivMod(n, d);
    var q, r := n / d, n % d;
    ShiftByMultiple(r + t, q, d);
    assert r + t + q * d == n + t;
  }

  lemma ShiftByMultiple(n: nat, k: nat, d: nat)
    requires d > 0
    ensures (n + k * d) % d == n % d
  {
    DivMod(n, d);
    MulDist(d, n / d, k);
    DivModUnique(n + k * d, d, n / d + k, n % d);
  }
}
