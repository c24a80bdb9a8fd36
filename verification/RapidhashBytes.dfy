/** What of a key reaches the hash: every word carries its bytes, and the words that are mixed determine the key. */
module RapidhashBytes {
  import opened Powers
  import opened Bits
  import opened Rapidhash

  // ---- words carry their bytes ----------------------------------------------------------------

  lemma LowByte(b: Byte, rest: nat)
    ensures (b + rest * 0x100) % 0x100 == b && (b + rest * 0x100) / 0x100 == rest
  {
  }

  lemma NextByte(n: nat, i: nat)
    requires i > 0
    ensures n / Pow(0x100, i) == n / 0x100 / Pow(0x100, i - 1)
  {
    DivDiv(n, 0x100, Pow(0x100, i - 1));
  }

  /** Byte i of a four-byte word, the lowest first. */
  lemma Word32Carries(key: seq<Byte>, at: nat, i: nat)
    requires at + 4 <= |key| && i < 4
    ensures Word32(key, at) / Pow(0x100, i) % 0x100 == key[at + i]
  {
    var b0, b1, b2, b3: nat := key[at], key[at + 1], key[at + 2], key[at + 3];
    FourBytes(Word32(key, at), b0, b1, b2, b3, i);
  }

  lemma FourBytes(w: nat, b0: Byte, b1: Byte, b2: Byte, b3: Byte, i: nat)
    requires w == b0 + (b1 + (b2 + b3 * 0x100) * 0x100) * 0x100 && i < 4
    ensures w / Pow(0x100, i) % 0x100 == if i == 0 then b0 else if i == 1 then b1 else if i == 2 then b2 else b3
  {
    LowByte(b0, b1 + (b2 + b3 * 0x100) * 0x100);
    LowByte(b1, b2 + b3 * 0x100);
    LowByte(b2, b3);
    assert Pow(0x100, 0) == 1;
    if i > 0 { NextByte(w, i); }
    if i > 1 { NextByte(w / 0x100, i - 1); }
    if i > 2 { NextByte(w / 0x100 / 0x100, i - 2); }
  }

  /** Byte i of an eight-byte word, the lowest first. */
  lemma Word64Carries(key: seq<Byte>, at: nat, i: nat)
    requires at + 8 <= |key| && i < 8
    ensures Word64(key, at) / Pow(0x100, i) % 0x100 == key[at + i]
  {
    hide Word32;
    hide Pow;
    var low, high := Word32(key, at), Word32(key, at + 4);
    if i < 4 {
      Word32Carries(key, at, i);
      LowHalf(low, high, i);
    } else {
      Word32Carries(key, at + 4, i - 4);
      HighHalf(low, high, i);
    }
  }

  lemma FourByteUnits()
    ensures Pow(0x100, 1) == 0x100 && Pow(0x100, 2) == 0x1_0000 && Pow(0x100, 3) == 0x100_0000 && Pow(0x100, 4) == HALF
  {
  }

  lemma LowHalf(low: nat, high: nat, i: nat)
    requires low < HALF && i < 4
    ensures (low + high * HALF) / Pow(0x100, i) % 0x100 == low / Pow(0x100, i) % 0x100
  {
    hide Pow;
    FourByteUnits();
    PowAdd(0x100, i, 4 - i);
    PowAdd(0x100, 1, 3 - i);
    var p, q := Pow(0x100, i), Pow(0x100, 3 - i);
    Regroup(high, p, q);
    SameLowByte(low, high * q, p);
  }

  lemma Regroup(high: nat, p: nat, q: nat)
    ensures high * (p * (0x100 * q)) == 0x100 * (high * q) * p
  {
    MulAssoc(0x100, q, p);
    MulAssoc(high, 0x100 * q, p);
    MulAssoc(high, 0x100, q);
    MulAssoc(0x100, high, q);
  }

  lemma SameLowByte(low: nat, h: nat, p: nat)
    requires p > 0
    ensures (low + 0x100 * h * p) / p % 0x100 == low / p % 0x100
  {
    DivMod(low, p);
    MulDist(p, low / p, 0x100 * h);
    MulMono(0, h, p);
    DivModUnique(low + 0x100 * h * p, p, low / p + 0x100 * h, low % p);
    LowByteOnly(low / p, h);
  }

  lemma LowByteOnly(n: nat, h: nat)
    ensures (n + 0x100 * h) % 0x100 == n % 0x100
  {
  }

  lemma HighHalf(low: nat, high: nat, i: nat)
    requires low < HALF && 4 <= i
    ensures (low + high * HALF) / Pow(0x100, i) == high / Pow(0x100, i - 4)
  {
    hide Pow;
    FourByteUnits();
    PowAdd(0x100, 4, i - 4);
    DivDiv(low + high * HALF, HALF, Pow(0x100, i - 4));
    DivModUnique(low + high * HALF, HALF, high, low);
  }

  /** Equal words come from equal bytes. */
  lemma SameWord32(key: seq<Byte>, other: seq<Byte>, at: nat)
    requires at + 4 <= |key| && at + 4 <= |other| && Word32(key, at) == Word32(other, at)
    ensures key[at..at + 4] == other[at..at + 4]
  {
    var s, t := key[at..at + 4], other[at..at + 4];
    forall i | 0 <= i < 4 ensures s[i] == t[i] {
      Word32Carries(key, at, i);
      Word32Carries(other, at, i);
    }
  }

  lemma SameWord64(key: seq<Byte>, other: seq<Byte>, at: nat)
    requires at + 8 <= |key| && at + 8 <= |other| && Word64(key, at) == Word64(other, at)
    ensures key[at..at + 8] == other[at..at + 8]
  {
    hide Word64;
    var s, t := key[at..at + 8], other[at..at + 8];
    forall i | 0 <= i < 8 ensures s[i] == t[i] {
      Word64Carries(key, at, i);
      Word64Carries(other, at, i);
    }
  }

  // ---- short keys ---------------------------------------------------------------------------

  lemma SamePair(x: nat, y: nat, x': nat, y': nat)
    requires y < HALF && y' < HALF && x * HALF + y == x' * HALF + y'
    ensures x == x' && y == y'
  {
  }

  lemma SameThree(f: Byte, m: Byte, l: Byte, f': Byte, m': Byte, l': Byte)
    requires SmallWord(f, m, l) == SmallWord(f', m', l')
    ensures f == f' && m == m' && l == l'
  {
  }

  /** Up to 16 bytes the two words alone determine a key of known length. */
  lemma ShortDetermines(key: seq<Byte>, other: seq<Byte>, seed: Uint64, seed': Uint64)
    requires |key| == |other| <= 16
    requires Short(key, seed).a == Short(other, seed').a && Short(key, seed).b == Short(other, seed').b
    ensures key == other
  {
    hide Word32;
    var n := |key|;
    if n >= 4 {
      var d := Delta(n);
      SamePair(Word32(key, 0), Word32(key, n - 4), Word32(other, 0), Word32(other, n - 4));
      SamePair(Word32(key, d), Word32(key, n - 4 - d), Word32(other, d), Word32(other, n - 4 - d));
      SameWord32(key, other, 0);
      SameWord32(key, other, n - 4);
      SameWord32(key, other, d);
      SameWord32(key, other, n - 4 - d);
      FourParts(key, other, d);
    } else if n > 0 {
      SameThree(key[0], key[n / 2], key[n - 1], other[0], other[n / 2], other[n - 1]);
    }
  }

  lemma FourParts(key: seq<Byte>, other: seq<Byte>, d: nat)
    requires 4 <= |key| == |other| <= 16 && d == if |key| < 8 then 0 else 4
    requires key[0..4] == other[0..4] && key[|key| - 4..|key|] == other[|key| - 4..|key|]
    requires key[d..d + 4] == other[d..d + 4] && key[|key| - 4 - d..|key| - d] == other[|key| - 4 - d..|key| - d]
    ensures key == other
  {
    var n := |key|;
    forall i | 0 <= i < n ensures key[i] == other[i] {
      if i < 4 { assert key[0..4][i] == other[0..4][i]; }
      else if i >= n - 4 { assert key[n - 4..n][i - (n - 4)] == other[n - 4..n][i - (n - 4)]; }
      else if i < 8 { assert key[d..d + 4][i - d] == other[d..d + 4][i - d]; }
      else { assert key[n - 4 - d..n - d][i - (n - 4 - d)] == other[n - 4 - d..n - d][i - (n - 4 - d)]; }
    }
  }

  // ---- long keys ------------------------------------------------------------------------------

  /** The words of a longer key in the order they are mixed: of the blocks, of what they leave, and the last two. */
  datatype Fed = Fed(blocks: seq<Uint64>, rest: seq<Uint64>, a: Uint64, b: Uint64)

  ghost function BlockWords(key: seq<Byte>, at: nat): seq<Uint64>
    requires at <= |key|
    decreases |key| - at
  {
    if |key| - at < 48 then []
    else [Word64(key, at), Word64(key, at + 8), Word64(key, at + 16), Word64(key, at + 24), Word64(key, at + 32), Word64(key, at + 40)]
         + BlockWords(key, at + 48)
  }

  /** Where the whole blocks from index `at` on end. */
  ghost function BlocksEnd(length: nat, at: nat): (end: nat)
    requires at <= length
    ensures at <= end <= length && length - end < 48
    decreases length - at
  {
    if length - at < 48 then at else BlocksEnd(length, at + 48)
  }

  ghost function RestWords(key: seq<Byte>, at: nat): seq<Uint64>
    requires at <= |key|
  {
    (if |key| - at > 16 then [Word64(key, at), Word64(key, at + 8)] else [])
    + if |key| - at > 32 then [Word64(key, at + 16), Word64(key, at + 24)] else []
  }

  ghost function FedOf(key: seq<Byte>): Fed
    requires |key| > 16
  {
    var at := if |key| > 48 then BlocksEnd(|key|, 0) else 0;
    Fed(if |key| > 48 then BlockWords(key, 0) else [], RestWords(key, at), Word64(key, |key| - 16), Word64(key, |key| - 8))
  }

  /** The lanes after mixing in the words, six at a time. */
  ghost function Absorbed(w: seq<Uint64>, l: Lanes, s: Secret): Lanes
    decreases |w|
  {
    if |w| < 6 then l
    else
      Absorbed(w[6..], Lanes(Mix(Xor64(w[0], s.s0), Xor64(w[1], l.seed)), Mix(Xor64(w[2], s.s1), Xor64(w[3], l.see1)),
                             Mix(Xor64(w[4], s.s2), Xor64(w[5], l.see2))), s)
  }

  /** What the end of the hash works on, from the words alone. */
  ghost function FromFed(f: Fed, seed: Uint64, s: Secret): Words {
    var l := Absorbed(f.blocks, Lanes(seed, seed, seed), s);
    var seed0 := if f.blocks == [] then seed else Xor64(l.seed, Xor64(l.see1, l.see2));
    var seed1 := if |f.rest| < 2 then seed0 else Mix(Xor64(f.rest[0], s.s2), Xor64(Xor64(f.rest[1], seed0), s.s1));
    var seed2 := if |f.rest| < 4 then seed1 else Mix(Xor64(f.rest[2], s.s2), Xor64(f.rest[3], seed1));
    Words(f.a, f.b, seed2)
  }

  lemma {:induction false} BlocksAbsorb(key: seq<Byte>, at: nat, l: Lanes, s: Secret)
    requires at <= |key|
    ensures Blocks(key, at, l, s) == (Absorbed(BlockWords(key, at), l, s), BlocksEnd(|key|, at))
    decreases |key| - at
  {
    hide Word64;
    hide Mix;
    hide Xor64;
    if |key| - at >= 48 {
      var w := BlockWords(key, at);
      assert w[6..] == BlockWords(key, at + 48);
      BlocksAbsorb(key, at + 48, Block(key, at, l, s), s);
    }
  }

  /** The hash of a longer key is a function of these words, the length, the seed and the secret. */
  lemma HashFromWords(key: seq<Byte>, seed: Uint64, s: Secret)
    requires 16 < |key| < FULL
    ensures Hash(key, seed, s) == Finished(FromFed(FedOf(key), Seeded(seed, |key|, s), s), |key|, s).0
  {
    hide Word64;
    hide Mix;
    hide Xor64;
    hide Finished;
    var seeded := Seeded(seed, |key|, s);
    if |key| > 48 {
      BlocksAbsorb(key, 0, Lanes(seeded, seeded, seeded), s);
      assert BlockWords(key, 0) != [];
    }
  }

  lemma {:induction false} BlocksDetermine(key: seq<Byte>, other: seq<Byte>, at: nat)
    requires at <= |key| == |other| && BlockWords(key, at) == BlockWords(other, at)
    ensures key[at..BlocksEnd(|key|, at)] == other[at..BlocksEnd(|key|, at)]
    decreases |key| - at
  {
    hide Word64;
    if |key| - at >= 48 {
      var w, v := BlockWords(key, at), BlockWords(other, at);
      assert w[6..] == BlockWords(key, at + 48) && v[6..] == BlockWords(other, at + 48);
      BlocksDetermine(key, other, at + 48);
      assert w[0] == v[0] && w[1] == v[1] && w[2] == v[2] && w[3] == v[3] && w[4] == v[4] && w[5] == v[5];
      SameBlock(key, other, at);
      JoinParts(key, other, at, at + 48, BlocksEnd(|key|, at));
    }
  }

  lemma JoinParts(key: seq<Byte>, other: seq<Byte>, from: nat, middle: nat, to: nat)
    requires from <= middle <= to <= |key| == |other| && key[from..middle] == other[from..middle] && key[middle..to] == other[middle..to]
    ensures key[from..to] == other[from..to]
  {
    assert key[from..to] == key[from..middle] + key[middle..to];
    assert other[from..to] == other[from..middle] + other[middle..to];
  }

  lemma SameBlock(key: seq<Byte>, other: seq<Byte>, at: nat)
    requires at + 48 <= |key| == |other|
    requires Word64(key, at) == Word64(other, at) && Word64(key, at + 8) == Word64(other, at + 8)
    requires Word64(key, at + 16) == Word64(other, at + 16) && Word64(key, at + 24) == Word64(other, at + 24)
    requires Word64(key, at + 32) == Word64(other, at + 32) && Word64(key, at + 40) == Word64(other, at + 40)
    ensures key[at..at + 48] == other[at..at + 48]
  {
    hide Word64;
    SameTwo(key, other, at);
    SameTwo(key, other, at + 16);
    SameTwo(key, other, at + 32);
    JoinParts(key, other, at, at + 16, at + 32);
    JoinParts(key, other, at, at + 32, at + 48);
  }

  lemma SameTwo(key: seq<Byte>, other: seq<Byte>, at: nat)
    requires at + 16 <= |key| == |other| && Word64(key, at) == Word64(other, at) && Word64(key, at + 8) == Word64(other, at + 8)
    ensures key[at..at + 16] == other[at..at + 16]
  {
    hide Word64;
    SameWord64(key, other, at);
    SameWord64(key, other, at + 8);
    JoinParts(key, other, at, at + 8, at + 16);
  }

  /** Of more than 16 bytes the words determine a key of known length: no byte is left out. */
  lemma FedDetermines(key: seq<Byte>, other: seq<Byte>)
    requires |key| == |other| > 16 && FedOf(key) == FedOf(other)
    ensures key == other
  {
    hide Word64;
    hide BlockWords;
    var n := |key|;
    var at := if n > 48 then BlocksEnd(n, 0) else 0;
    if n > 48 { BlocksDetermine(key, other, 0); }
    SameTwo(key, other, n - 16);
    RestDetermines(key, other, at);
    assert key[0..at] == other[0..at];
    var cut := if n - at > 32 then at + 32 else if n - at > 16 then at + 16 else at;
    JoinParts(key, other, 0, at, cut);
    CoverEnd(key, other, cut, n - 16);
  }

  lemma RestDetermines(key: seq<Byte>, other: seq<Byte>, at: nat)
    requires at <= |key| == |other| && RestWords(key, at) == RestWords(other, at)
    ensures |key| - at > 16 ==> key[at..at + 16] == other[at..at + 16]
    ensures |key| - at > 32 ==> key[at..at + 32] == other[at..at + 32]
  {
    hide Word64;
    var w, v := RestWords(key, at), RestWords(other, at);
    if |key| - at > 16 {
      assert w[0] == v[0] && w[1] == v[1];
      SameTwo(key, other, at);
    }
    if |key| - at > 32 {
      assert w[2] == v[2] && w[3] == v[3];
      SameTwo(key, other, at + 16);
      JoinParts(key, other, at, at + 16, at + 32);
    }
  }

  lemma CoverEnd(key: seq<Byte>, other: seq<Byte>, cut: nat, last: nat)
    requires last <= cut <= |key| == |other| && key[0..cut] == other[0..cut] && key[last..|key|] == other[last..|key|]
    ensures key == other
  {
    forall i | 0 <= i < |key| ensures key[i] == other[i] {
      if i < cut { assert key[0..cut][i] == other[0..cut][i]; }
      else { assert key[last..|key|][i - last] == other[last..|key|][i - last]; }
    }
  }
}
