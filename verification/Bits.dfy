/** The bitwise operators of C on unsigned values, and the places where they are arithmetic. */
module Bits {
  import opened Powers

  function Bit(n: nat): nat { n % 2 }

  function Or(a: nat, b: nat): nat
    decreases a + b
  {
    if a + b == 0 then 0 else (if Bit(a) == 1 || Bit(b) == 1 then 1 else 0) + 2 * Or(a / 2, b / 2)
  }

  function And(a: nat, b: nat): nat
    decreases a + b
  {
    if a + b == 0 then 0 else (if Bit(a) == 1 && Bit(b) == 1 then 1 else 0) + 2 * And(a / 2, b / 2)
  }

  function Xor(a: nat, b: nat): nat
    decreases a + b
  {
    if a + b == 0 then 0 else (if Bit(a) != Bit(b) then 1 else 0) + 2 * Xor(a / 2, b / 2)
  }

  lemma {:induction false} OrZero(a: nat)
    ensures Or(a, 0) == a
  {
    if a != 0 { OrZero(a / 2); }
  }

  lemma {:induction false} AndZero(a: nat)
    ensures And(a, 0) == 0
  {
    if a != 0 { AndZero(a / 2); }
  }

  /** Bits that do not overlap add. */
  lemma {:induction false} OrDisjoint(a: nat, b: nat, k: nat)
    requires b < Pow(2, k)
    ensures Or(a * Pow(2, k), b) == a * Pow(2, k) + b
  {
    if k == 0 {
      OrZero(a);
    } else {
      var p := Pow(2, k - 1);
      assert a * Pow(2, k) == 2 * (a * p) by { MulAssoc(a, 2, p); MulAssoc(2, a, p); }
      if a * Pow(2, k) + b != 0 {
        OrDisjoint(a, b / 2, k - 1);
      }
    }
  }

  /** Masking with 2^k - 1 is the remainder modulo 2^k. */
  lemma {:induction false} AndMask(a: nat, k: nat)
    ensures And(a, Pow(2, k) - 1) == a % Pow(2, k)
  {
    if k == 0 {
      AndZero(a);
    } else {
      var p := Pow(2, k - 1);
      assert (Pow(2, k) - 1) / 2 == p - 1;
      assert Bit(Pow(2, k) - 1) == 1;
      AndMask(a / 2, k - 1);
      DivMod(a / 2, p);
      var q, r := a / 2 / p, (a / 2) % p;
      assert a == q * (2 * p) + (2 * r + a % 2) by { MulAssoc(q, 2, p); MulAssoc(2, q, p); }
      DivModUnique(a, 2 * p, q, 2 * r + a % 2);
    }
  }

  /** Masking with 2^k keeps bit k. */
  lemma {:induction false} AndBit(a: nat, k: nat)
    ensures And(a, Pow(2, k)) == (a / Pow(2, k) % 2) * Pow(2, k)
  {
    if k == 0 {
      AndZero(a / 2);
    } else {
      AndBit(a / 2, k - 1);
      HalvedBit(a, Pow(2, k - 1));
    }
  }

  lemma HalvedBit(a: nat, p: nat)
    requires p > 0
    ensures (a / (2 * p) % 2) * (2 * p) == 2 * ((a / 2 / p % 2) * p)
  {
    DivDiv(a, 2, p);
    MulAssoc(2, a / 2 / p % 2, p);
    MulAssoc(a / 2 / p % 2, 2, p);
  }

  /** Bit k of n. */
  ghost predicate BitAt(n: nat, k: nat) { n / Pow(2, k) % 2 == 1 }

  lemma BitsDown(n: nat, k: nat)
    requires k > 0
    ensures BitAt(n, k) <==> BitAt(n / 2, k - 1)
  {
    DivDiv(n, 2, Pow(2, k - 1));
  }

  lemma LowestBit(n: nat)
    ensures BitAt(n, 0) <==> n % 2 == 1
  {
  }

  // Each operator does to every bit what C says.

  lemma OrHalves(a: nat, b: nat)
    ensures Or(a, b) / 2 == Or(a / 2, b / 2) && (Or(a, b) % 2 == 1 <==> a % 2 == 1 || b % 2 == 1)
  {
  }

  lemma {:induction false} OrBits(a: nat, b: nat, k: nat)
    ensures BitAt(Or(a, b), k) <==> BitAt(a, k) || BitAt(b, k)
  {
    hide Or;
    OrHalves(a, b);
    if k == 0 {
      LowestBit(a);
      LowestBit(b);
      LowestBit(Or(a, b));
    } else {
      OrBits(a / 2, b / 2, k - 1);
      BitsDown(a, k);
      BitsDown(b, k);
      BitsDown(Or(a, b), k);
    }
  }

  lemma AndHalves(a: nat, b: nat)
    ensures And(a, b) / 2 == And(a / 2, b / 2) && (And(a, b) % 2 == 1 <==> a % 2 == 1 && b % 2 == 1)
  {
  }

  lemma {:induction false} AndBits(a: nat, b: nat, k: nat)
    ensures BitAt(And(a, b), k) <==> BitAt(a, k) && BitAt(b, k)
  {
    hide And;
    AndHalves(a, b);
    if k == 0 {
      LowestBit(a);
      LowestBit(b);
      LowestBit(And(a, b));
    } else {
      AndBits(a / 2, b / 2, k - 1);
      BitsDown(a, k);
      BitsDown(b, k);
      BitsDown(And(a, b), k);
    }
  }

  lemma XorHalves(a: nat, b: nat)
    ensures Xor(a, b) / 2 == Xor(a / 2, b / 2) && (Xor(a, b) % 2 == 1 <==> a % 2 != b % 2)
  {
  }

  lemma {:induction false} XorBits(a: nat, b: nat, k: nat)
    ensures BitAt(Xor(a, b), k) <==> BitAt(a, k) != BitAt(b, k)
  {
    hide Xor;
    XorHalves(a, b);
    if k == 0 {
      LowestBit(a);
      LowestBit(b);
      LowestBit(Xor(a, b));
    } else {
      XorBits(a / 2, b / 2, k - 1);
      BitsDown(a, k);
      BitsDown(b, k);
      BitsDown(Xor(a, b), k);
    }
  }
}
