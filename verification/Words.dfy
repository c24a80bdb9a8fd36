/** Little-endian sequences of 32-bit words and the natural numbers they stand for. */
module Words {
  import opened Powers
  import opened Bits

  const BASE: nat := 0x1_0000_0000
  const WORD_BITS: nat := 32

  type Word = w: nat | w < 0x1_0000_0000

  function Nat(s: seq<Word>): nat {
    if s == [] then 0 else s[0] + BASE * Nat(s[1..])
  }

  lemma {:induction false} NatAppend(s: seq<Word>, t: seq<Word>)
    ensures Nat(s + t) == Nat(s) + Pow(BASE, |s|) * Nat(t)
  {
    if s == [] {
      assert s + t == t;
    } else {
      NatAppend(s[1..], t);
      assert (s + t)[1..] == s[1..] + t;
      MulAssoc(BASE, Pow(BASE, |s| - 1), Nat(t));
    }
  }

  lemma NatSnoc(s: seq<Word>, w: Word)
    ensures Nat(s + [w]) == Nat(s) + w * Pow(BASE, |s|)
  {
    NatOne(w);
    NatAppend(s, [w]);
  }

  lemma NatOne(w: Word)
    ensures Nat([w]) == w
  {
    assert [w][1..] == [];
  }

  lemma NatSuffix(s: seq<Word>, i: nat)
    requires i <= |s|
    ensures Nat(s) == Nat(s[..i]) + Pow(BASE, i) * Nat(s[i..])
  {
    assert s == s[..i] + s[i..];
    NatAppend(s[..i], s[i..]);
  }

  lemma {:induction false} NatBound(s: seq<Word>)
    ensures Nat(s) < Pow(BASE, |s|)
  {
    if s != [] { NatBound(s[1..]); }
  }

  /** A word count is exact when the top word is not zero. */
  lemma NatTop(s: seq<Word>)
    requires s != []
    ensures s[|s| - 1] != 0 <==> Pow(BASE, |s| - 1) <= Nat(s)
  {
    var n := |s| - 1;
    assert s == s[..n] + [s[n]];
    NatSnoc(s[..n], s[n]);
    NatBound(s[..n]);
    if s[n] != 0 { MulMono(1, s[n], Pow(BASE, n)); }
  }

  /** How many words a number needs. */
  function WordCount(n: nat): nat {
    if n == 0 then 0 else 1 + WordCount(n / BASE)
  }

  lemma {:induction false} WordCountIs(s: seq<Word>)
    requires s == [] || s[|s| - 1] != 0
    ensures WordCount(Nat(s)) == |s|
  {
    if s != [] {
      WordCountIs(s[1..]);
      DivModUnique(Nat(s), BASE, Nat(s[1..]), s[0]);
      if Nat(s) == 0 { NatZeros(s); }
    }
  }

  lemma TopStays(after: seq<Word>, before: seq<Word>)
    requires 0 < |after| == |before| && before[|before| - 1] != 0
    requires Nat(after) >= Nat(before)
    ensures after[|after| - 1] != 0
  {
    NatTop(before);
    NatTop(after);
  }

  lemma {:induction false} NatZeros(s: seq<Word>)
    ensures Nat(s) == 0 <==> forall i :: 0 <= i < |s| ==> s[i] == 0
  {
    if s != [] {
      NatZeros(s[1..]);
      assert (forall i :: 0 <= i < |s| ==> s[i] == 0) <==> s[0] == 0 && forall i :: 0 <= i < |s[1..]| ==> s[1..][i] == 0
      by {
        if s[0] == 0 && forall i :: 0 <= i < |s[1..]| ==> s[1..][i] == 0 {
          forall i | 0 <= i < |s| ensures s[i] == 0 {
            if i > 0 { assert s[i] == s[1..][i - 1]; }
          }
        }
      }
    }
  }

  lemma BaseIsTwoTo32()
    ensures Pow(2, 32) == BASE
  {
    assert Pow(2, 4) == 16;
    PowAdd(2, 4, 4);
    PowAdd(2, 8, 8);
    PowAdd(2, 16, 16);
  }

  /** 2^(32 n) is BASE^n. */
  lemma BasePower(n: nat)
    ensures Pow(2, 32 * n) == Pow(BASE, n)
  {
    BaseIsTwoTo32();
    PowPow(2, 32, n);
  }

  lemma PowersOfTwoDivide(k: nat)
    requires k <= 32
    ensures Pow(2, k) * Pow(2, 32 - k) == BASE
  {
    BaseIsTwoTo32();
    PowAdd(2, k, 32 - k);
  }

  /**
   What a pass that multiplies by `factor` and adds `addend`, lowest word first, has achieved:
   the words `done` and the carry hold the result for the words `source`.
   */
  ghost predicate Pass(done: seq<Word>, carry: nat, source: seq<Word>, factor: nat, addend: nat) {
    |done| == |source| && Nat(done) + carry * Pow(BASE, |done|) == Nat(source) * factor + addend
  }

  lemma PassStep(done: seq<Word>, carry: nat, source: seq<Word>, factor: nat, addend: nat, word: Word, product: nat)
    requires Pass(done, carry, source, factor, addend)
    requires product == word * factor + carry
    ensures Pass(done + [product % BASE], product / BASE, source + [word], factor, addend)
  {
    NatSnoc(done, product % BASE);
    NatSnoc(source, word);
    CarryStep(Nat(done), carry, Pow(BASE, |done|), Nat(source), word, factor, addend, product);
  }

  lemma CarryStep(done: nat, carry: nat, weight: nat, source: nat, word: nat, factor: nat, addend: nat, product: nat)
    requires done + carry * weight == source * factor + addend
    requires product == word * factor + carry
    ensures done + (product % BASE) * weight + (product / BASE) * (BASE * weight) == (source + word * weight) * factor + addend
  {
    calc {
      done + (product % BASE) * weight + (product / BASE) * (BASE * weight);
      { MulAssoc(product / BASE, BASE, weight); MulDist(weight, product % BASE, product / BASE * BASE); }
      done + product * weight;
      { MulDist(weight, word * factor, carry); }
      done + carry * weight + word * factor * weight;
      { MulAssoc(word, factor, weight); MulAssoc(word, weight, factor); MulDist(factor, source, word * weight); }
      (source + word * weight) * factor + addend;
    }
  }

  /** A pass over the words of `before` from `start`, running in the buffer `w`, that has reached word i. */
  ghost predicate PassAt(w: seq<Word>, before: seq<Word>, start: nat, i: nat, carry: nat, factor: nat, addend: nat) {
    && start <= i <= |before| <= |w|
    && w[..start] == before[..start]
    && w[i..|before|] == before[i..]
    && Pass(w[start..i], carry, before[start..i], factor, addend)
  }

  /** Before the first word, with one to add. */
  lemma PassAtStart(w: seq<Word>, before: seq<Word>)
    requires before <= w
    ensures PassAt(w, before, 0, 0, 1, 1, 1)
  {
  }

  lemma PassAtStep(w: seq<Word>, before: seq<Word>, start: nat, i: nat, carry: nat, factor: nat, addend: nat, product: nat)
    requires PassAt(w, before, start, i, carry, factor, addend) && i < |before|
    requires product == w[i] * factor + carry
    ensures PassAt(w[i := product % BASE], before, start, i + 1, product / BASE, factor, addend)
  {
    var w' := w[i := product % BASE];
    assert w[i] == before[i] by { assert w[i..|before|][0] == before[i..][0]; }
    PassStep(w[start..i], carry, before[start..i], factor, addend, before[i], product);
    assert w'[start..i + 1] == w[start..i] + [product % BASE];
    assert before[start..i + 1] == before[start..i] + [before[i]];
    assert w'[i + 1..|before|] == before[i + 1..] by { assert w[i..|before|][1..] == before[i..][1..]; }
    assert w'[..start] == w[..start];
  }

  /** A pass can stop early when nothing is carried and the remaining words are only copied. */
  lemma PassAtStop(w: seq<Word>, before: seq<Word>, i: nat, addend: nat)
    requires PassAt(w, before, 0, i, 0, 1, addend)
    ensures Nat(w[..|before|]) == Nat(before) + addend
  {
    NatAppend(w[..i], before[i..]);
    NatAppend(before[..i], before[i..]);
    assert w[..|before|] == w[0..i] + w[i..|before|];
    assert before == before[..i] + before[i..];
    assert w[0..i] == w[..i] && before[0..i] == before[..i];
  }

  lemma PassAtEnd(w: seq<Word>, before: seq<Word>, start: nat, carry: nat, factor: nat, addend: nat)
    requires PassAt(w, before, start, |before|, carry, factor, addend)
    ensures Pass(w[start..|before|], carry, before[start..], factor, addend)
  {
    assert before[start..|before|] == before[start..];
  }

  /** One step of dividing from the top word down. */
  lemma DivStep(high: nat, quotient: nat, remainder: nat, divisor: nat, word: Word, current: nat)
    requires divisor > 0 && remainder < divisor
    requires high == quotient * divisor + remainder
    requires current == remainder * BASE + word
    ensures 0 <= current / divisor < BASE
    ensures word + BASE * high == (current / divisor + BASE * quotient) * divisor + current % divisor
  {
    MulMono(remainder + 1, divisor, BASE);
    DivLt(current, divisor, BASE);
    DivMod(current, divisor);
    MulDist(divisor, current / divisor, BASE * quotient);
    MulAssoc(BASE, quotient, divisor);
    MulDist(BASE, quotient * divisor, remainder);
  }

  /** A division from the top word down, running in the buffer `w`, that has done the words from i on. */
  ghost predicate DividedDown(w: seq<Word>, before: seq<Word>, i: nat, divisor: nat, remainder: nat) {
    && i <= |before| <= |w|
    && remainder < divisor
    && w[..i] == before[..i]
    && Nat(before[i..]) == Nat(w[i..|before|]) * divisor + remainder
  }

  lemma DividedDownStep(w: seq<Word>, before: seq<Word>, i: nat, divisor: nat, remainder: nat, current: nat)
    requires DividedDown(w, before, i + 1, divisor, remainder)
    requires current == remainder * BASE + w[i]
    ensures 0 <= current / divisor < BASE
    ensures DividedDown(w[i := current / divisor], before, i, divisor, current % divisor)
  {
    assert w[i] == before[i] by { assert w[..i + 1][i] == before[..i + 1][i]; }
    var high := w[i + 1..|before|];
    DivStep(Nat(before[i + 1..]), Nat(high), remainder, divisor, w[i], current);
    var w' := w[i := current / divisor];
    assert w'[i..|before|] == [current / divisor] + high;
    assert before[i..] == [before[i]] + before[i + 1..];
    assert w'[..i] == before[..i] by { assert w[..i + 1][..i] == before[..i + 1][..i]; }
  }

  lemma DividedAll(w: seq<Word>, before: seq<Word>, divisor: nat, remainder: nat)
    requires DividedDown(w, before, 0, divisor, remainder)
    ensures Nat(w[..|before|]) == Nat(before) / divisor && remainder == Nat(before) % divisor
  {
    assert before[0..] == before && w[0..|before|] == w[..|before|];
    DivModUnique(Nat(before), divisor, Nat(w[..|before|]), remainder);
  }

  // ---- shifting right by less than a word ----------------------------------

  /** (low >> bits) | (high << (32 - bits)), the left shift truncated to one word. */
  function ShiftedWord(low: Word, high: Word, bits: nat): Word
    requires bits < 32
  {
    if bits == 0 then low else
      var word := Or(high * Pow(2, 32 - bits) % BASE, low / Pow(2, bits));
      assert word < BASE by { ShiftedWordFits(low, high, bits); }
      word
  }

  /** The words of `s` shifted right by `bits`, each one borrowing the low bits of its neighbour. */
  function ShiftedRight(s: seq<Word>, bits: nat): (t: seq<Word>)
    requires bits < 32
    ensures |t| == |s|
  {
    if s == [] then [] else
      [ShiftedWord(s[0], if |s| > 1 then s[1] else 0, bits)] + ShiftedRight(s[1..], bits)
  }

  lemma {:induction false} ShiftedRightAt(s: seq<Word>, bits: nat, k: nat)
    requires bits < 32 && k < |s|
    ensures ShiftedRight(s, bits)[k] == ShiftedWord(s[k], if bits != 0 && k + 1 < |s| then s[k + 1] else 0, bits)
  {
    if k > 0 { ShiftedRightAt(s[1..], bits, k - 1); }
  }

  lemma ShiftedWordFits(low: Word, high: Word, bits: nat)
    requires 0 < bits < 32
    ensures Or(high * Pow(2, 32 - bits) % BASE, low / Pow(2, bits))
         == low / Pow(2, bits) + (high % Pow(2, bits)) * Pow(2, 32 - bits) < BASE
  {
    TruncatedShift(low, high, Pow(2, bits), Pow(2, 32 - bits)) by { PowersOfTwoDivide(bits); }
    OrDisjoint(high % Pow(2, bits), low / Pow(2, bits), 32 - bits);
  }

  lemma ShiftedWordValue(low: Word, high: Word, bits: nat)
    requires bits < 32
    ensures ShiftedWord(low, high, bits) == low / Pow(2, bits) + (high % Pow(2, bits)) * Pow(2, 32 - bits)
  {
    if bits > 0 { ShiftedWordFits(low, high, bits); }
  }

  lemma TruncatedShift(low: Word, high: Word, p: nat, q: nat)
    requires p > 0 && p * q == BASE
    ensures high * q % BASE == (high % p) * q
    ensures 0 <= low / p < q && 0 <= high % p
    ensures low / p + (high % p) * q < BASE
  {
    DivLt(low, p, q);
    DivMod(high, p);
    var k, h := high / p, high % p;
    MulMono(h + 1, p, q);
    assert high * q == k * BASE + h * q by { MulDist(q, k * p, h); MulAssoc(k, p, q); }
    DivModUnique(high * q, BASE, k, h * q);
  }

  lemma {:induction false} ShiftedRightValue(s: seq<Word>, bits: nat)
    requires bits < 32
    ensures Nat(ShiftedRight(s, bits)) == Nat(s) / Pow(2, bits)
  {
    if s != [] {
      ShiftedRightValue(s[1..], bits);
      ShiftedRightStep(s[0], s[1..], bits);
      assert ShiftedRight(s, bits)[1..] == ShiftedRight(s[1..], bits);
    }
  }

  lemma ShiftedRightStep(word: Word, rest: seq<Word>, bits: nat)
    requires bits < 32
    ensures ShiftedWord(word, if rest == [] then 0 else rest[0], bits) + BASE * (Nat(rest) / Pow(2, bits))
         == (word + BASE * Nat(rest)) / Pow(2, bits)
  {
    var next: Word := if rest == [] then 0 else rest[0];
    ShiftedWordValue(word, next, bits);
    ShiftedRightStepAt(word, rest, Pow(2, bits), Pow(2, 32 - bits)) by { PowersOfTwoDivide(bits); }
  }

  lemma ShiftedRightStepAt(word: Word, rest: seq<Word>, p: nat, q: nat)
    requires p > 0 && p * q == BASE
    ensures word / p + ((if rest == [] then 0 else rest[0]) % p) * q + BASE * (Nat(rest) / p) == (word + BASE * Nat(rest)) / p
  {
    if rest != [] { LowBits(rest[0], Nat(rest[1..]), p, q); }
    ShiftStep(word, Nat(rest), p, q);
  }

  lemma ShiftStep(word: Word, high: nat, p: nat, q: nat)
    requires p > 0 && p * q == BASE
    ensures (word + BASE * high) / p == word / p + (high % p) * q + BASE * (high / p)
  {
    var w, k, h := word / p, high / p, high % p;
    DivMod(word, p);
    DivMod(high, p);
    calc {
      (w + h * q + BASE * k) * p;
      { MulDist(p, w, h * q); MulDist(p, w + h * q, BASE * k); }
      w * p + h * q * p + BASE * k * p;
      { MulAssoc(h, q, p); MulAssoc(BASE, k, p); MulDist(BASE, k * p, h); }
      w * p + BASE * high;
    }
    DivModUnique(word + BASE * high, p, w + h * q + BASE * k, word % p);
  }

  /** Only the lowest word decides the remainder by a divisor of BASE. */
  lemma LowBits(word: Word, high: nat, p: nat, q: nat)
    requires p > 0 && p * q == BASE
    ensures (word + BASE * high) % p == word % p
  {
    DivMod(word, p);
    assert BASE * high == (q * high) * p by { MulAssoc(q, high, p); MulAssoc(q, p, high); }
    MulDist(p, word / p, q * high);
    DivModUnique(word + BASE * high, p, word / p + q * high, word % p);
  }

  // ---- low bits -------------------------------------------------------------

  /** The remainder by 2^(32 f + p) joins the lowest f words and p bits of the next one. */
  lemma LowPart(s: seq<Word>, f: nat, p: nat)
    requires f < |s| && p < 32
    ensures Nat(s) % Pow(2, 32 * f + p) == Nat(s[..f]) + Pow(BASE, f) * (s[f] % Pow(2, p))
  {
    BasePower(f);
    PowAdd(2, 32 * f, p);
    NatSuffix(s, f);
    NatBound(s[..f]);
    assert s[f..][1..] == s[f + 1..];
    LowBits(s[f], Nat(s[f + 1..]), Pow(2, p), Pow(2, 32 - p)) by { PowersOfTwoDivide(p); }
    ModOfProduct(Nat(s[..f]), Pow(BASE, f), Nat(s[f..]), Pow(2, p));
  }

  lemma ModOfProduct(low: nat, b: nat, high: nat, m: nat)
    requires low < b && m > 0
    ensures b * m > 0 && (low + b * high) % (b * m) == low + b * (high % m)
  {
    var q, r := high / m, high % m;
    DivMod(high, m);
    MulMono(1, b, m);
    assert low + b * high == q * (b * m) + (low + b * r) by {
      MulDist(b, q * m, r);
      MulAssoc(q, b, m); MulAssoc(b, q, m);
    }
    assert low + b * r < b * m by { MulMono(r + 1, m, b); }
    DivModUnique(low + b * high, b * m, q, low + b * r);
  }

  /** Bit 32 f + p of the number is bit p of word f. */
  lemma BitOfWord(s: seq<Word>, f: nat, p: nat)
    requires f < |s| && p < 32
    ensures Nat(s) / Pow(2, 32 * f + p) % 2 == s[f] / Pow(2, p) % 2
  {
    BasePower(f);
    PowAdd(2, 32 * f, p);
    DropWords(s, f);
    DivDiv(Nat(s), Pow(BASE, f), Pow(2, p));
    assert s[f..][1..] == s[f + 1..];
    LowWordBit(s[f], Nat(s[f + 1..]), p);
  }

  lemma DropWords(s: seq<Word>, f: nat)
    requires f <= |s|
    ensures Nat(s) / Pow(BASE, f) == Nat(s[f..])
  {
    NatSuffix(s, f);
    NatBound(s[..f]);
    DivModSplit(Nat(s), Pow(BASE, f), Nat(s[f..]), Nat(s[..f]));
  }

  lemma LowWordBit(word: Word, high: nat, p: nat)
    requires p < 32
    ensures (word + BASE * high) / Pow(2, p) % 2 == word / Pow(2, p) % 2
  {
    var half := Pow(2, 31 - p);
    assert Pow(2, p) * (2 * half) == BASE by { PowersOfTwoDivide(p); }
    WordParity(word, high, Pow(2, p), half);
  }

  lemma WordParity(word: Word, high: nat, p: nat, half: nat)
    requires p > 0 && p * (2 * half) == BASE
    ensures (word + BASE * high) / p % 2 == word / p % 2
  {
    ShiftStep(word, high, p, 2 * half);
    var h := high % p;
    EvenProduct(h, half);
    SameParity(word / p, h * half, high / p);
  }

  lemma EvenProduct(h: int, half: int)
    ensures h * (2 * half) == 2 * (h * half)
  {
  }

  lemma SameParity(a: int, b: int, c: int)
    ensures (a + 2 * b + BASE * c) % 2 == a % 2
  {
  }

  /** Beyond the top word there is nothing. */
  lemma PastTop(s: seq<Word>, shift: nat)
    requires 32 * |s| <= shift
    ensures Nat(s) % Pow(2, shift) == Nat(s) && Nat(s) / Pow(2, shift) == 0
  {
    NatBound(s);
    BasePower(|s|);
    PowMono(2, 32 * |s|, shift);
    DivModUnique(Nat(s), Pow(2, shift), 0, Nat(s));
  }

  /** The remainder by 2^(k+1) is bit k on top of the remainder by 2^k. */
  lemma TopBitOfRemainder(n: nat, h: nat)
    requires h > 0
    ensures n % (2 * h) == (n / h % 2) * h + n % h
  {
    DivMod(n, h);
    var q, r := n / h, n % h;
    assert n == q / 2 * (2 * h) + (q % 2 * h + r) by {
      MulDist(h, 2 * (q / 2), q % 2);
      MulAssoc(q / 2, 2, h);
    }
    assert q % 2 == 0 || q % 2 == 1;
    DivModUnique(n, 2 * h, q / 2, q % 2 * h + r);
  }
}
