/**
 rapidhash (cbase/rapidhash.c): the portable multiplication is exact, the unrolled and the compact loop and the
 128-bit variant compute one function, and every byte of the key is read, none outside it.
 */
module Rapidhash {
  import opened Powers
  import opened Bits

  const HALF: nat := 0x1_0000_0000
  const FULL: nat := 0x1_0000_0000_0000_0000

  type Uint64 = n: nat | n < 0x1_0000_0000_0000_0000

  type Byte = n: nat | n < 0x100

  // ---- the 64 by 64 bit multiplication -------------------------------------------------------

  lemma ProductOfHalves(ha: nat, la: nat, hb: nat, lb: nat)
    ensures (ha * HALF + la) * (hb * HALF + lb)
         == ha * hb * FULL + (ha * lb) * HALF + (hb * la) * HALF + la * lb
  {
    MulDist(hb * HALF + lb, ha * HALF, la);
    MulDist(ha * HALF, hb * HALF, lb);
    MulDist(la, hb * HALF, lb);
    Swap(ha, hb);
    assert ha * HALF * lb == (ha * lb) * HALF;
    assert la * (hb * HALF) == (hb * la) * HALF;
  }

  lemma Swap(x: nat, y: nat)
    ensures x * HALF * (y * HALF) == x * y * FULL
  {
    var p := x * y;
    assert x * HALF * (y * HALF) == p * (HALF * HALF);
  }

  lemma ProductBelow(a: Uint64, b: Uint64)
    ensures a * b < FULL * FULL
  {
    MulMono(a, FULL - 1, b);
    MulMono(b, FULL - 1, FULL - 1);
  }

  /** A shift left by half a word in 64 bits, and what it drops. */
  lemma HalfShift(n: nat)
    ensures n * HALF % FULL == n % HALF * HALF
    ensures n * HALF == n / HALF * FULL + n * HALF % FULL
  {
  }

  /** A sum in 64 bits has wrapped around exactly when it is below its first operand. */
  lemma CarryOut(x: nat, y: nat)
    requires x < FULL && y < FULL
    ensures (x + y) % FULL + (if (x + y) % FULL < x then FULL else 0) == x + y
  {
  }

  /** The partial products, with what the shifts drop and what the sums carry, make up the product. */
  lemma PartialSums(rh: nat, rm0: nat, rm1: nat, rl: nat, s0: nat, s1: nat, t: nat, lo: nat)
    requires rl < FULL && s0 == rm0 * HALF % FULL && s1 == rm1 * HALF % FULL
    requires t == (rl + s0) % FULL && lo == (t + s1) % FULL
    ensures var c := (if t < rl then 1 else 0) + (if lo < t then 1 else 0);
            rh * FULL + rm0 * HALF + rm1 * HALF + rl == (rh + rm0 / HALF + rm1 / HALF + c) * FULL + lo
  {
    HalfShift(rm0);
    HalfShift(rm1);
    CarryOut(rl, s0);
    CarryOut(t, s1);
  }

  /** rapid_mum, the portable branch without protection: the low and the high half of the exact product. */
  method Mum(a: Uint64, b: Uint64) returns (lo: Uint64, hi: Uint64)
    ensures hi * FULL + lo == a * b
  {
    var ha, hb := a / HALF, b / HALF;
    var la, lb := a % HALF, b % HALF;
    lo, hi := Recombine(ha * hb, ha * lb, hb * la, la * lb, a, b);
  }

  /** The second half of rapid_mum: shifts, sums and carries. */
  method Recombine(rh: nat, rm0: nat, rm1: nat, rl: nat, ghost a: Uint64, ghost b: Uint64) returns (lo: Uint64, hi: Uint64)
    requires rh == (a / HALF) * (b / HALF) && rm0 == (a / HALF) * (b % HALF)
    requires rm1 == (b / HALF) * (a % HALF) && rl == (a % HALF) * (b % HALF)
    ensures hi * FULL + lo == a * b
  {
    HalvesSmall(a / HALF, b / HALF, a % HALF, b % HALF);
    ProductOfHalves(a / HALF, a % HALF, b / HALF, b % HALF);
    ProductBelow(a, b);
    Halves(a);
    Halves(b);
    ghost var product := a * b;
    assert product == rh * FULL + rm0 * HALF + rm1 * HALF + rl;
    lo, hi := Sums(rh, rm0, rm1, rl, product);
  }

  lemma Halves(n: Uint64)
    ensures n == n / HALF * HALF + n % HALF && n / HALF < HALF
  {
  }

  method Sums(rh: nat, rm0: nat, rm1: nat, rl: nat, ghost product: nat) returns (lo: Uint64, hi: Uint64)
    requires product == rh * FULL + rm0 * HALF + rm1 * HALF + rl < FULL * FULL && rl < FULL
    ensures hi * FULL + lo == product
  {
    var s0: nat, s1: nat := rm0 * HALF % FULL, rm1 * HALF % FULL;
    var t: nat := (rl + s0) % FULL;
    var c: nat := if t < rl then 1 else 0;
    lo := (t + s1) % FULL;
    c := c + if lo < t then 1 else 0;
    PartialSums(rh, rm0, rm1, rl, s0, s1, t, lo);
    var high := rh + rm0 / HALF + rm1 / HALF + c;
    HighFits(high, lo, product);
    hi := high % FULL;
  }

  lemma HalvesSmall(ha: nat, hb: nat, la: nat, lb: nat)
    requires ha < HALF && hb < HALF && la < HALF && lb < HALF
    ensures la * lb < FULL
  {
    MulMono(la, HALF - 1, lb);
  }

  lemma HighFits(hi: nat, lo: nat, product: nat)
    requires product == hi * FULL + lo < FULL * FULL
    ensures hi % FULL == hi < FULL
  {
  }

  /** The two halves of the product. */
  function Product(a: Uint64, b: Uint64): (r: (Uint64, Uint64))
    ensures r.1 * FULL + r.0 == a * b
  {
    ProductBelow(a, b);
    HighFits(a * b / FULL, a * b % FULL, a * b);
    (a * b % FULL, a * b / FULL)
  }

  // ---- the hash as a function of the key ---------------------------------------------------------

  lemma {:induction false} XorBound(a: nat, b: nat, k: nat)
    requires a < Pow(2, k) && b < Pow(2, k)
    ensures Xor(a, b) < Pow(2, k)
    decreases k
  {
    if k > 0 { XorBound(a / 2, b / 2, k - 1); }
  }

  lemma SixtyFourBits()
    ensures Pow(2, 64) == FULL
  {
    PowAdd(2, 16, 16);
    PowAdd(2, 32, 32);
    PowAdd(2, 8, 8);
    assert Pow(2, 8) == 256;
  }

  function Xor64(a: Uint64, b: Uint64): Uint64 {
    SixtyFourBits();
    XorBound(a, b, 64);
    Xor(a, b)
  }

  /** rapid_mix */
  function Mix(a: Uint64, b: Uint64): Uint64 {
    var (lo, hi) := Product(a, b);
    Xor64(lo, hi)
  }

  /** rapid_read_64: eight bytes, the lowest first. */
  function Word64(key: seq<Byte>, at: nat): (w: Uint64)
    requires at + 8 <= |key|
  {
    Word32(key, at) + Word32(key, at + 4) * HALF
  }

  function Word32(key: seq<Byte>, at: nat): (w: nat)
    requires at + 4 <= |key|
    ensures w < HALF
  {
    var b0: nat, b1: nat, b2: nat, b3: nat := key[at], key[at + 1], key[at + 2], key[at + 3];
    b0 + b1 * 0x100 + b2 * 0x1_0000 + b3 * 0x100_0000
  }

  datatype Secret = Secret(s0: Uint64, s1: Uint64, s2: Uint64)

  datatype Lanes = Lanes(seed: Uint64, see1: Uint64, see2: Uint64)

  /** One block of 48 bytes. */
  function Block(key: seq<Byte>, at: nat, l: Lanes, s: Secret): Lanes
    requires at + 48 <= |key|
  {
    Lanes(Mix(Xor64(Word64(key, at), s.s0), Xor64(Word64(key, at + 8), l.seed)),
          Mix(Xor64(Word64(key, at + 16), s.s1), Xor64(Word64(key, at + 24), l.see1)),
          Mix(Xor64(Word64(key, at + 32), s.s2), Xor64(Word64(key, at + 40), l.see2)))
  }

  /** All whole blocks from index `at` on, and where they end. */
  function Blocks(key: seq<Byte>, at: nat, l: Lanes, s: Secret): (r: (Lanes, nat))
    requires at <= |key|
    ensures at <= r.1 <= |key| && |key| - r.1 < 48
    decreases |key| - at
  {
    if |key| - at < 48 then (l, at) else Blocks(key, at + 48, Block(key, at, l, s), s)
  }

  /** The two words a key gives, and the seed it leaves. */
  datatype Words = Words(a: Uint64, b: Uint64, seed: Uint64)

  function Delta(length: nat): nat {
    if length < 8 then 0 else 4
  }

  /** The word readSmall makes of three bytes. */
  function SmallWord(first: nat, middle: nat, last: nat): nat {
    first * 0x100_0000_0000_0000 + middle * HALF + last
  }

  function Short(key: seq<Byte>, seed: Uint64): Words
    requires |key| <= 16
  {
    var n := |key|;
    if n >= 4 then
      Words(Word32(key, 0) * HALF + Word32(key, n - 4),
            Word32(key, Delta(n)) * HALF + Word32(key, n - 4 - Delta(n)), seed)
    else if n > 0 then Words(SmallWord(key[0], key[n / 2], key[n - 1]), 0, seed)
    else Words(0, 0, seed)
  }

  /** The last bytes, fewer than a block or at most one. */
  function Tail(key: seq<Byte>, at: nat, seed: Uint64, s: Secret): Words
    requires 16 < |key| && at <= |key|
  {
    var i := |key| - at;
    var seed1 := if i > 16 then Mix(Xor64(Word64(key, at), s.s2), Xor64(Xor64(Word64(key, at + 8), seed), s.s1)) else seed;
    var seed2 := if i > 32 then Mix(Xor64(Word64(key, at + 16), s.s2), Xor64(Word64(key, at + 24), seed1)) else seed1;
    Words(Word64(key, |key| - 16), Word64(key, |key| - 8), seed2)
  }

  function Long(key: seq<Byte>, seed: Uint64, s: Secret): Words
    requires 16 < |key|
  {
    if |key| > 48 then
      var (l, at) := Blocks(key, 0, Lanes(seed, seed, seed), s);
      Tail(key, at, Xor64(l.seed, Xor64(l.see1, l.see2)), s)
    else Tail(key, 0, seed, s)
  }

  /** The seed mixed with the secret and the length. */
  function Seeded(seed: Uint64, length: Uint64, s: Secret): Uint64 {
    Xor64(seed, Xor64(Mix(Xor64(seed, s.s0), s.s1), length))
  }

  function Gathered(key: seq<Byte>, seed: Uint64, s: Secret): Words
    requires |key| < FULL
  {
    var seeded := Seeded(seed, |key|, s);
    if |key| <= 16 then Short(key, seeded) else Long(key, seeded, s)
  }

  /** The end of the hash: low and high word of the 128-bit variant. */
  function Finished(w: Words, length: Uint64, s: Secret): (Uint64, Uint64) {
    var (a, b) := Product(Xor64(w.a, s.s1), Xor64(w.b, w.seed));
    (Mix(Xor64(Xor64(a, s.s0), length), Xor64(b, s.s1)), Mix(Xor64(Xor64(b, s.s0), length), Xor64(a, s.s1)))
  }

  /** The hash of a key. */
  function Hash(key: seq<Byte>, seed: Uint64, s: Secret): Uint64
    requires |key| < FULL
  {
    Finished(Gathered(key, seed, s), |key|, s).0
  }

  // ---- reading ------------------------------------------------------------------------------------

  ghost function Indices(at: nat, n: nat): (s: set<nat>)
    ensures forall k: nat :: k in s <==> at <= k < at + n
  {
    if n == 0 then {} else Indices(at, n - 1) + {at + n - 1}
  }

  method Read64(key: seq<Byte>, at: nat, ghost read: set<nat>) returns (w: Uint64, ghost read': set<nat>)
    requires at + 8 <= |key|
    ensures w == Word64(key, at) && read' == read + Indices(at, 8)
  {
    w := Word64(key, at);
    read' := read + Indices(at, 8);
  }

  method Read32(key: seq<Byte>, at: nat, ghost read: set<nat>) returns (w: nat, ghost read': set<nat>)
    requires at + 4 <= |key|
    ensures w == Word32(key, at) < HALF && read' == read + Indices(at, 4)
  {
    w := Word32(key, at);
    read' := read + Indices(at, 4);
  }

  /** Two words into one mix. */
  method MixPair(key: seq<Byte>, at: nat, secret: Uint64, seed: Uint64, ghost read: set<nat>)
    returns (m: Uint64, ghost read': set<nat>)
    requires at + 16 <= |key|
    ensures m == Mix(Xor64(Word64(key, at), secret), Xor64(Word64(key, at + 8), seed))
    ensures read' == read + Indices(at, 16)
  {
    hide Xor64;
    hide Word64;
    hide Product;
    var x, y;
    x, read' := Read64(key, at, read);
    y, read' := Read64(key, at + 8, read');
    assert Indices(at, 16) == Indices(at, 8) + Indices(at + 8, 8);
    var lo, hi := Mum(Xor64(x, secret), Xor64(y, seed));
    ProductUnique(Xor64(x, secret), Xor64(y, seed), lo, hi);
    m := Xor64(lo, hi);
  }

  /** The first mix behind the blocks takes one more word of the secret. */
  method MixTriple(key: seq<Byte>, at: nat, secret: Uint64, seed: Uint64, extra: Uint64, ghost read: set<nat>)
    returns (m: Uint64, ghost read': set<nat>)
    requires at + 16 <= |key|
    ensures m == Mix(Xor64(Word64(key, at), secret), Xor64(Xor64(Word64(key, at + 8), seed), extra))
    ensures read' == read + Indices(at, 16)
  {
    hide Xor64;
    hide Word64;
    hide Product;
    var x, y;
    x, read' := Read64(key, at, read);
    y, read' := Read64(key, at + 8, read');
    assert Indices(at, 16) == Indices(at, 8) + Indices(at + 8, 8);
    var second := Xor64(Xor64(y, seed), extra);
    var lo, hi := Mum(Xor64(x, secret), second);
    ProductUnique(Xor64(x, secret), second, lo, hi);
    m := Xor64(lo, hi);
  }

  lemma ProductUnique(a: Uint64, b: Uint64, lo: Uint64, hi: Uint64)
    requires hi * FULL + lo == a * b
    ensures Product(a, b) == (lo, hi)
  {
    hide Product;
    var (x, y) := Product(a, b);
    SameSplit(x, y, lo, hi);
  }

  lemma SameSplit(x: Uint64, y: Uint64, lo: Uint64, hi: Uint64)
    requires y * FULL + x == hi * FULL + lo
    ensures x == lo && y == hi
  {
  }

  method ReadBlock(key: seq<Byte>, at: nat, l: Lanes, s: Secret, ghost read: set<nat>) returns (l': Lanes, ghost read': set<nat>)
    requires at + 48 <= |key|
    ensures l' == Block(key, at, l, s) && read' == read + Indices(at, 48)
  {
    hide Xor64;
    hide Word64;
    hide Mix;
    var x, y, z;
    x, read' := MixPair(key, at, s.s0, l.seed, read);
    y, read' := MixPair(key, at + 16, s.s1, l.see1, read');
    z, read' := MixPair(key, at + 32, s.s2, l.see2, read');
    assert Indices(at, 48) == Indices(at, 16) + Indices(at + 16, 16) + Indices(at + 32, 16);
    l' := Lanes(x, y, z);
  }

  // ---- the three variants -----------------------------------------------------------------------------

  /** What has been read: all bytes before index `at`, and none outside the key. */
  ghost predicate ReadUpTo(read: set<nat>, at: nat, length: nat) {
    Indices(0, at) <= read <= Indices(0, length)
  }

  /** The unrolled loop: two blocks at a time, then one more if it is there. */
  method UnrolledBlocks(key: seq<Byte>, l0: Lanes, s: Secret) returns (l: Lanes, at: nat, ghost read: set<nat>)
    ensures (l, at) == Blocks(key, 0, l0, s) && ReadUpTo(read, at, |key|)
  {
    hide Block;
    l, at, read := l0, 0, {};
    while |key| - at >= 96
      invariant at <= |key| && Blocks(key, at, l, s) == Blocks(key, 0, l0, s) && ReadUpTo(read, at, |key|)
    {
      l, read := ReadBlock(key, at, l, s, read);
      l, read := ReadBlock(key, at + 48, l, s, read);
      at := at + 96;
    }
    if |key| - at >= 48 {
      l, read := ReadBlock(key, at, l, s, read);
      at := at + 48;
    }
  }

  /** The compact loop: one block at a time, at least one. */
  method CompactBlocks(key: seq<Byte>, l0: Lanes, s: Secret) returns (l: Lanes, at: nat, ghost read: set<nat>)
    requires |key| > 48
    ensures (l, at) == Blocks(key, 0, l0, s) && ReadUpTo(read, at, |key|)
  {
    hide Block;
    l, at, read := l0, 0, {};
    while true
      invariant at + 48 <= |key| && Blocks(key, at, l, s) == Blocks(key, 0, l0, s) && ReadUpTo(read, at, |key|)
      decreases |key| - at
    {
      l, read := ReadBlock(key, at, l, s, read);
      at := at + 48;
      if |key| - at < 48 { break; }
    }
  }

  /** Masking with 24 leaves the two bits above the lowest three. */
  lemma MaskTwentyFour(n: nat)
    ensures And(n, 24) == n / 8 % 4 * 8
  {
    AndEven(n, 12);
    AndEven(n / 2, 6);
    AndEven(n / 4, 3);
    AndMask(n / 8, 2);
    assert Pow(2, 2) == 4;
  }

  lemma AndEven(n: nat, mask: nat)
    requires mask > 0
    ensures And(n, 2 * mask) == 2 * And(n / 2, mask)
  {
  }

  /** How far inside the second pair of reads starts, as the code computes it. */
  lemma DeltaIs(n: nat)
    requires 4 <= n <= 16
    ensures And(n, 24) / Pow(2, n / 8) == Delta(n)
  {
    MaskTwentyFour(n);
    SmallPowers();
    var q := n / 8;
    assert q == if n < 8 then 0 else if n < 16 then 1 else 2;
    hide And;
    hide Pow;
    Quotient(And(n, 24), Pow(2, q), Delta(n));
  }

  lemma SmallPowers()
    ensures Pow(2, 0) == 1 && Pow(2, 1) == 2 && Pow(2, 2) == 4
  {
  }

  lemma Quotient(m: nat, p: nat, q: nat)
    requires p == 1 || p == 2 || p == 4
    requires m == q * p
    ensures m / p == q
  {
  }

  lemma JoinHalves(x: nat, y: nat)
    requires y < HALF
    ensures Or(x * HALF, y) == x * HALF + y
  {
    ThirtyTwoBits();
    OrDisjoint(x, y, 32);
  }

  lemma ThirtyTwoBits()
    ensures Pow(2, 32) == HALF && Pow(2, 56) == 0x100_0000_0000_0000
  {
    PowAdd(2, 8, 8);
    PowAdd(2, 16, 16);
    PowAdd(2, 24, 32);
    PowAdd(2, 16, 8);
    assert Pow(2, 8) == 256;
  }

  /** The three bytes of readSmall do not overlap in the word. */
  lemma JoinBytes(first: Byte, middle: Byte, last: Byte)
    ensures Or(Or(first * 0x100_0000_0000_0000, middle * HALF), last)
         == first * 0x100_0000_0000_0000 + middle * HALF + last
  {
    hide Or;
    hide Pow;
    ThirtyTwoBits();
    OrDisjoint(first, middle * HALF, 56);
    OrDisjoint(first * 0x100_0000 + middle, last, 32);
  }

  /** readSmall */
  method ReadSmall(key: seq<Byte>) returns (w: nat, ghost read: set<nat>)
    requires 0 < |key| < 4
    ensures w == SmallWord(key[0], key[|key| / 2], key[|key| - 1]) < FULL
    ensures read == Indices(0, |key|)
  {
    var first: nat, middle: nat, last: nat := key[0], key[|key| / 2], key[|key| - 1];
    JoinBytes(first, middle, last);
    w := Or(Or(first * 0x100_0000_0000_0000, middle * HALF), last);
    read := {|key| / 2, 0, |key| - 1};
    assert read == Indices(0, |key|);
  }

  /** Two half words, the second one from behind. */
  method ReadPair(key: seq<Byte>, at: nat, behind: nat, ghost read: set<nat>) returns (w: Uint64, ghost read': set<nat>)
    requires at + 4 <= |key| && behind + 4 <= |key|
    ensures w == Word32(key, at) * HALF + Word32(key, behind)
    ensures read' == read + Indices(at, 4) + Indices(behind, 4)
  {
    hide Word32;
    var x, y;
    x, read' := Read32(key, at, read);
    y, read' := Read32(key, behind, read');
    JoinHalves(x, y);
    w := Or(x * HALF, y);
  }

  /** Keys of up to 16 bytes: overlapping reads cover all of them. */
  method ReadShort(key: seq<Byte>, seed: Uint64) returns (w: Words, ghost read: set<nat>)
    requires |key| <= 16
    ensures w == Short(key, seed) && read == Indices(0, |key|)
  {
    hide Word32;
    var n := |key|;
    if n >= 4 {
      var delta := And(n, 24) / Pow(2, n / 8);
      DeltaIs(n);
      var a, b;
      a, read := ReadPair(key, 0, n - 4, {});
      b, read := ReadPair(key, delta, n - 4 - delta, read);
      w := Words(a, b, seed);
      assert read == Indices(0, |key|);
    } else if n > 0 {
      var a;
      a, read := ReadSmall(key);
      w := Words(a, 0, seed);
    } else {
      w, read := Words(0, 0, seed), {};
      assert read == Indices(0, 0);
    }
  }

  /** The end of a longer key: what the blocks have left, and always the last 16 bytes. */
  method ReadTail(key: seq<Byte>, at: nat, seed: Uint64, s: Secret, ghost read: set<nat>) returns (w: Words, ghost read': set<nat>)
    requires 16 < |key| && at <= |key| && |key| - at <= 48 && ReadUpTo(read, at, |key|)
    ensures w == Tail(key, at, seed, s) && read' == Indices(0, |key|)
  {
    hide Word64;
    hide Xor64;
    hide Mix;
    var i := |key| - at;
    var seed' := seed;
    read' := read;
    if i > 16 {
      seed', read' := MixTriple(key, at, s.s2, seed, s.s1, read');
      if i > 32 {
        seed', read' := MixPair(key, at + 16, s.s2, seed', read');
      }
    }
    var a, b;
    a, read' := Read64(key, |key| - 16, read');
    b, read' := Read64(key, |key| - 8, read');
    w := Words(a, b, seed');
    assert read' == Indices(0, |key|);
  }

  /** Everything before the key is read. */
  method Seed(seed: Uint64, length: Uint64, s: Secret) returns (seeded: Uint64)
    ensures seeded == Seeded(seed, length, s)
  {
    hide Xor64;
    hide Product;
    var lo, hi := Mum(Xor64(seed, s.s0), s.s1);
    ProductUnique(Xor64(seed, s.s0), s.s1, lo, hi);
    seeded := Xor64(seed, Xor64(Xor64(lo, hi), length));
  }

  /** Everything after it: the words mixed twice more, into the low word and the high word. */
  method Finish(w: Words, length: Uint64, s: Secret) returns (low: Uint64, high: Uint64)
    ensures (low, high) == Finished(w, length, s)
  {
    hide Xor64;
    hide Product;
    var a, b := Mum(Xor64(w.a, s.s1), Xor64(w.b, w.seed));
    ProductUnique(Xor64(w.a, s.s1), Xor64(w.b, w.seed), a, b);
    var x, y := Mum(Xor64(Xor64(a, s.s0), length), Xor64(b, s.s1));
    ProductUnique(Xor64(Xor64(a, s.s0), length), Xor64(b, s.s1), x, y);
    low := Xor64(x, y);
    x, y := Mum(Xor64(Xor64(b, s.s0), length), Xor64(a, s.s1));
    ProductUnique(Xor64(Xor64(b, s.s0), length), Xor64(a, s.s1), x, y);
    high := Xor64(x, y);
  }

  /** The part of the key the variants gather differently. */
  method GatherUnrolled(key: seq<Byte>, seed: Uint64, s: Secret) returns (w: Words, ghost read: set<nat>)
    requires |key| < FULL
    ensures w == Gathered(key, seed, s) && read == Indices(0, |key|)
  {
    hide Block;
    hide Blocks;
    hide Xor64;
    hide Tail;
    var seeded := Seed(seed, |key|, s);
    if |key| <= 16 {
      w, read := ReadShort(key, seeded);
    } else if |key| > 48 {
      var l, at;
      l, at, read := UnrolledBlocks(key, Lanes(seeded, seeded, seeded), s);
      w, read := ReadTail(key, at, Xor64(l.seed, Xor64(l.see1, l.see2)), s, read);
    } else {
      w, read := ReadTail(key, 0, seeded, s, {});
    }
  }

  method GatherCompact(key: seq<Byte>, seed: Uint64, s: Secret) returns (w: Words, ghost read: set<nat>)
    requires |key| < FULL
    ensures w == Gathered(key, seed, s) && read == Indices(0, |key|)
  {
    hide Block;
    hide Blocks;
    hide Xor64;
    hide Tail;
    var seeded := Seed(seed, |key|, s);
    if |key| <= 16 {
      w, read := ReadShort(key, seeded);
    } else if |key| > 48 {
      var l, at;
      l, at, read := CompactBlocks(key, Lanes(seeded, seeded, seeded), s);
      w, read := ReadTail(key, at, Xor64(l.seed, Xor64(l.see1, l.see2)), s, read);
    } else {
      w, read := ReadTail(key, 0, seeded, s, {});
    }
  }

  /** rapidhash_internal with the unrolled loop. */
  method RapidhashUnrolled(key: seq<Byte>, seed: Uint64, s: Secret) returns (hash: Uint64, ghost read: set<nat>)
    requires |key| < FULL
    ensures hash == Hash(key, seed, s) && read == Indices(0, |key|)
  {
    hide Gathered;
    hide Finished;
    var w;
    w, read := GatherUnrolled(key, seed, s);
    var high;
    hash, high := Finish(w, |key|, s);
  }

  /** rapidhash_internal with the compact loop: the same hash. */
  method RapidhashCompact(key: seq<Byte>, seed: Uint64, s: Secret) returns (hash: Uint64, ghost read: set<nat>)
    requires |key| < FULL
    ensures hash == Hash(key, seed, s) && read == Indices(0, |key|)
  {
    hide Gathered;
    hide Finished;
    var w;
    w, read := GatherCompact(key, seed, s);
    var high;
    hash, high := Finish(w, |key|, s);
  }

  /** rapidhash128_internal: its low word is the 64-bit hash. */
  method Rapidhash128(key: seq<Byte>, seed: Uint64, s: Secret) returns (low: Uint64, high: Uint64, ghost read: set<nat>)
    requires |key| < FULL
    ensures low == Hash(key, seed, s) && read == Indices(0, |key|)
    ensures high == Finished(Gathered(key, seed, s), |key|, s).1
  {
    hide Gathered;
    hide Finished;
    var w;
    w, read := GatherCompact(key, seed, s);
    low, high := Finish(w, |key|, s);
  }
}
