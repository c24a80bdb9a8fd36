/**
 The fixed-capacity bignum behind `%Lf`, `%Le` and `%Lg`: 32-bit words changed in place.
 Every operation is proved against the natural number the words stand for.
 */
module BigUInt {
  import opened Powers
  import opened Bits
  import opened Results
  import opened Words
  import opened Decimal

  /** How a discarded remainder compares with half a unit. */
  datatype RemainderHalf = Zero | LessHalf | Half | MoreHalf

  /** The class of remainder r of a division by d. */
  function Classify(r: nat, d: nat): RemainderHalf {
    if r == 0 then Zero else if 2 * r < d then LessHalf else if 2 * r == d then Half else MoreHalf
  }

  const GROUP_BASE: nat := 1_000_000_000
  const GROUP_DIGITS: nat := 9

  /** memmove within one buffer. */
  method MemMove(buffer: array<char>, target: nat, source: nat, count: nat)
    requires target + count <= buffer.Length && source + count <= buffer.Length
    modifies buffer
    ensures buffer[target..target + count] == old(buffer[source..source + count])
    ensures buffer[..target] == old(buffer[..target])
    ensures buffer[target + count..] == old(buffer[target + count..])
  {
    forall i | 0 <= i < count { buffer[target + i] := buffer[source + i]; }
  }

  class FormatBigUInt {
    const words: array<Word>
    var len: nat

    constructor (maxWords: nat)
      ensures words.Length == maxWords && fresh(words)
      ensures Valid() && Value() == 0
    {
      words := new Word[maxWords](_ => 0);
      len := 0;
    }

    /** The stored words fit and the top one is not zero. */
    ghost predicate Valid()
      reads this, words
    {
      len <= words.Length && (len == 0 || words[len - 1] != 0)
    }

    ghost function Value(): nat
      requires len <= words.Length
      reads this, words
    {
      Nat(words[..len])
    }

    /** Strictly more than the buffer can hold. */
    ghost predicate TooBig(n: nat) {
      n >= Pow(BASE, words.Length)
    }

    method SetZero()
      modifies this`len, words
      ensures Valid() && Value() == 0
    {
      forall i | 0 <= i < words.Length { words[i] := 0; }
      len := 0;
    }

    /** Drops leading zero words. */
    method Normalize()
      requires len <= words.Length
      modifies this`len
      ensures Valid() && Value() == old(Value()) && len <= old(len)
    {
      while len > 0 && words[len - 1] == 0
        invariant len <= old(len)
        invariant Value() == old(Value())
      {
        assert words[..len] == words[..len - 1] + [words[len - 1]];
        NatSnoc(words[..len - 1], words[len - 1]);
        len := len - 1;
      }
    }

    /** Makes sure that word `index` exists. */
    method EnsureWord(index: nat) returns (status: Result<()>)
      requires len <= words.Length
      modifies this`len, words
      ensures status.Err? <==> index >= words.Length
      ensures status.Err? ==> status == Err(EOVERFLOW) && len == old(len) && words[..] == old(words[..])
      ensures status.Ok? ==> len == Max(old(len), index + 1) && words[..old(len)] == old(words[..len])
      ensures status.Ok? ==> forall i :: old(len) <= i < len ==> words[i] == 0
      ensures len <= words.Length
    {
      if index >= words.Length {
        return Err(EOVERFLOW);
      }
      while len <= index
        invariant old(len) <= len <= Max(old(len), index + 1)
        invariant words[..old(len)] == old(words[..len])
        invariant forall i :: old(len) <= i < len ==> words[i] == 0
      {
        words[len] := 0;
        len := len + 1;
      }
      return Ok(());
    }

    /** Stores a carry out of the top word in a new word. */
    method AppendCarry(carry: Word) returns (status: Result<()>)
      requires len <= words.Length && carry != 0
      modifies this`len, words
      ensures status.Ok? <==> old(len) < words.Length
      ensures status.Err? ==> status == Err(EOVERFLOW)
      ensures status.Ok? ==> Valid() && Value() == old(Value()) + carry * Pow(BASE, old(len))
      ensures len <= words.Length
    {
      status := EnsureWord(len);
      if status.Err? {
        return;
      }
      words[len - 1] := carry;
      assert words[..len] == old(words[..len]) + [carry];
      NatSnoc(old(words[..len]), carry);
    }

    /** A top word that was not zero stays so when the value does not shrink. */
    lemma StaysNormal(n: nat)
      requires 0 < len <= words.Length
      requires Nat(words[..len]) >= n >= Pow(BASE, len - 1)
      ensures Valid()
    {
      NatTop(words[..len]);
    }

    /** The value of a whole pass, and when it fits. */
    lemma PassTotal(done: seq<Word>, carry: Word, source: seq<Word>, factor: nat, addend: nat)
      requires Pass(done, carry, source, factor, addend) && |done| <= words.Length
      ensures carry == 0 ==> Nat(done) == Nat(source) * factor + addend && !TooBig(Nat(done))
      ensures carry != 0 && |done| == words.Length ==> TooBig(Nat(source) * factor + addend)
      ensures carry != 0 && |done| < words.Length ==>
        Nat(done + [carry]) == Nat(source) * factor + addend && !TooBig(Nat(done + [carry]))
    {
      NatSnoc(done, carry);
      NatBound(done);
      NatBound(done + [carry]);
      PowMono(BASE, |done|, words.Length);
      if carry != 0 { MulMono(1, carry, Pow(BASE, |done|)); }
      if |done| < words.Length { PowMono(BASE, |done| + 1, words.Length); }
    }

    /** Ends a pass: stores the last carry, if there is one and room for it. */
    method FinishPass(carry: Word, ghost source: seq<Word>, ghost factor: nat, ghost addend: nat) returns (status: Result<()>)
      requires len <= words.Length && |source| == len
      requires Pass(words[..len], carry, source, factor, addend)
      requires len > 0 ==> source[len - 1] != 0
      requires factor > 0
      modifies this`len, words
      ensures status.Ok? <==> !TooBig(Nat(source) * factor + addend)
      ensures status.Err? ==> status == Err(EOVERFLOW)
      ensures status.Ok? ==> Valid() && Value() == Nat(source) * factor + addend
    {
      PassTotal(words[..len], carry, source, factor, addend);
      if carry != 0 {
        status := AppendCarry(carry);
      } else {
        status := Ok(());
        if len > 0 {
          NatTop(source);
          MulMono(1, factor, Nat(source));
          StaysNormal(Nat(source));
        }
      }
    }

    method AddOne() returns (status: Result<()>)
      requires Valid()
      modifies this`len, words
      ensures status.Ok? <==> !TooBig(old(Value()) + 1)
      ensures status.Err? ==> status == Err(EOVERFLOW)
      ensures status.Ok? ==> Valid() && Value() == old(Value()) + 1
    {
      hide PassAt;
      hide Nat;
      PassAtStart(words[..], words[..len]);
      ghost var before := words[..len];
      var carry: nat := 1;
      for i := 0 to len
        invariant len == old(len) && carry == 1
        invariant PassAt(words[..], before, 0, i, carry, 1, 1)
      {
        var sum := words[i] + carry;
        PassAtStep(words[..], before, 0, i, carry, 1, 1, sum);
        ghost var w: seq<Word> := words[..];
        words[i] := sum % BASE;
        carry := sum / BASE;
        assert words[..] == w[i := sum % BASE];
        if carry == 0 {
          AddedOne(words[..], before, i + 1);
          return Ok(());
        }
      }
      PassAtEnd(words[..], before, 0, carry, 1, 1);
      status := FinishPass(carry, before, 1, 1);
    }

    /** Adding one ended within the words: nothing is carried out of the top one. */
    lemma AddedOne(w: seq<Word>, before: seq<Word>, i: nat)
      requires 0 < |before| <= |w| == words.Length && before[|before| - 1] != 0
      requires PassAt(w, before, 0, i, 0, 1, 1)
      ensures Nat(w[..|before|]) == Nat(before) + 1 && w[|before| - 1] != 0 && !TooBig(Nat(before) + 1)
    {
      var after := w[..|before|];
      assert Nat(after) == Nat(before) + 1 by { PassAtStop(w, before, i, 1); }
      TopStays(after, before);
      assert w[|before| - 1] == after[|before| - 1];
      NatBound(after);
      PowMono(BASE, |after|, words.Length);
    }

    method MulSmall(factor: Word) returns (status: Result<()>)
      requires Valid()
      modifies this`len, words
      ensures status.Ok? <==> !TooBig(old(Value()) * factor)
      ensures status.Err? ==> status == Err(EOVERFLOW)
      ensures status.Ok? ==> Valid() && Value() == old(Value()) * factor
    {
      AlreadyFits();
      if len == 0 || factor == 1 {
        return Ok(());
      }
      if factor == 0 {
        SetZero();
        return Ok(());
      }
      status := MulPass(factor);
    }

    /** Multiplies word by word, lowest first. */
    method MulPass(factor: Word) returns (status: Result<()>)
      requires Valid() && len > 0 && factor > 0
      modifies this`len, words
      ensures status.Ok? <==> !TooBig(old(Value()) * factor)
      ensures status.Err? ==> status == Err(EOVERFLOW)
      ensures status.Ok? ==> Valid() && Value() == old(Value()) * factor
    {
      ghost var before := words[..len];
      var carry: Word := 0;
      for i := 0 to len
        invariant len == old(len)
        invariant PassAt(words[..], before, 0, i, carry, factor, 0)
      {
        var product: nat, low: Word, high: Word := Multiply(words[i], factor, carry);
        PassAtStep(words[..], before, 0, i, carry, factor, 0, product);
        ghost var w: seq<Word> := words[..];
        words[i] := low;
        carry := high;
        assert words[..] == w[i := low];
      }
      PassAtEnd(words[..], before, 0, carry, factor, 0);
      status := FinishPass(carry, before, factor, 0);
    }

    lemma AlreadyFits()
      requires len <= words.Length
      ensures !TooBig(Value()) && !TooBig(0)
    {
      NatBound(words[..len]);
      PowMono(BASE, len, words.Length);
    }

    /** A 32 by 32 bit product plus a carry, as 64 bits and as its two halves. */
    static method Multiply(word: Word, factor: Word, carry: Word) returns (product: nat, low: Word, high: Word)
      ensures product == word * factor + carry && low == product % BASE && high == product / BASE
    {
      ProductFits(word, factor, carry);
      product := word * factor + carry;
      low, high := product % BASE, product / BASE;
    }

    static lemma ProductFits(word: Word, factor: Word, carry: Word)
      ensures (word * factor + carry) / BASE < BASE
    {
      MulMono(word, 0xFFFF_FFFF, factor);
    }

    /** value <<= shift, refused when the words might not fit. */
    method ShiftLeft(shift: nat) returns (status: Result<()>)
      requires Valid()
      modifies this`len, words
      ensures status.Err? <==> ShiftRefused(old(len), shift)
      ensures status.Err? ==> status == Err(EOVERFLOW)
      ensures status.Ok? ==> Valid() && Value() == old(Value()) * Pow(2, shift)
    {
      if len == 0 || shift == 0 {
        return Ok(());
      }
      var originalLen := len;
      var wordShift := shift / WORD_BITS;
      var bitShift := shift % WORD_BITS;
      var maxNewLen := originalLen + wordShift;
      if bitShift != 0 {
        maxNewLen := maxNewLen + 1;
      }
      if maxNewLen > words.Length {
        return Err(EOVERFLOW);
      }
      ShiftInPlace(wordShift, bitShift);
      return Ok(());
    }

    method ShiftInPlace(wordShift: nat, bitShift: nat)
      requires Valid() && len > 0 && bitShift < 32
      requires len + wordShift + (if bitShift != 0 then 1 else 0) <= words.Length
      modifies this`len, words
      ensures Valid() && Value() == old(Value()) * Pow(2, 32 * wordShift + bitShift)
    {
      hide Pow;
      hide Nat;
      ghost var before := words[..len];
      var originalLen := len;
      if wordShift != 0 {
        MoveWordsUp(wordShift);
      }
      len := originalLen + wordShift;
      assert words[wordShift..len] == before;
      ghost var zeros := words[..wordShift];
      NotShifted(Nat(before));
      if bitShift != 0 {
        ShiftBits(wordShift, bitShift);
      }
      assert words[..wordShift] == zeros && words[..len][wordShift..] == words[wordShift..len];
      ShiftedLeftValue(words[..len], before, wordShift, bitShift);
      Normalize();
    }

    static lemma NotShifted(n: nat)
      ensures n * Pow(2, 0) == n
    {
    }

    /** The conservative word count check made before shifting left. */
    ghost predicate ShiftRefused(length: nat, shift: nat) {
      length != 0 && shift != 0 && length + shift / 32 + (if shift % 32 != 0 then 1 else 0) > words.Length
    }

    lemma ShiftedLeftValue(after: seq<Word>, before: seq<Word>, wordShift: nat, bitShift: nat)
      requires |after| >= wordShift && forall i :: 0 <= i < wordShift ==> after[i] == 0
      requires Nat(after[wordShift..]) == Nat(before) * Pow(2, bitShift)
      ensures Nat(after) == Nat(before) * Pow(2, 32 * wordShift + bitShift)
    {
      NatSuffix(after, wordShift);
      NatZeros(after[..wordShift]);
      BasePower(wordShift);
      PowAdd(2, 32 * wordShift, bitShift);
      MulAssoc(Nat(before), Pow(2, bitShift), Pow(2, 32 * wordShift));
    }

    /** Moves every word up, highest first, and clears the words below. */
    method MoveWordsUp(wordShift: nat)
      requires 0 < wordShift && len + wordShift <= words.Length
      modifies words
      ensures words[wordShift..len + wordShift] == old(words[..len])
      ensures forall i :: 0 <= i < wordShift ==> words[i] == 0
    {
      ghost var before: seq<Word> := words[..len];
      for i := len downto 0
        invariant MovedUp(words[..], before, wordShift, i)
      {
        ghost var w: seq<Word> := words[..];
        words[i + wordShift] := words[i];
        assert words[..] == w[i + wordShift := w[i]];
      }
      assert words[..][wordShift..len + wordShift] == words[wordShift..len + wordShift] && before[0..] == before;
      for i := 0 to wordShift
        invariant forall k :: 0 <= k < i ==> words[k] == 0
        invariant words[wordShift..len + wordShift] == before
      {
        words[i] := 0;
      }
    }

    /** The words from i on are in place, those below still where they were. */
    static ghost predicate MovedUp(w: seq<Word>, before: seq<Word>, wordShift: nat, i: nat) {
      && i <= |before| && |before| + wordShift <= |w|
      && (forall k :: 0 <= k < i ==> w[k] == before[k])
      && (forall k :: i + wordShift <= k < |before| + wordShift ==> w[k] == before[k - wordShift])
    }

    /** Shifts the words from `start` on by less than a word, carrying upwards. */
    method ShiftBits(start: nat, bitShift: nat)
      requires start < len < words.Length && 0 < bitShift < 32
      modifies this`len, words
      ensures old(len) <= len <= words.Length
      ensures words[..start] == old(words[..start])
      ensures Nat(words[start..len]) == old(Nat(words[start..len])) * Pow(2, bitShift)
    {
      ghost var before := words[..len];
      ghost var factor := Pow(2, bitShift);
      var carry: nat := 0;
      for i := start to len
        invariant len == old(len)
        invariant carry < factor
        invariant PassAt(words[..], before, start, i, carry, factor, 0)
      {
        var shifted := Or(words[i] * Pow(2, bitShift), carry);
        ShiftedWordParts(words[i], carry, bitShift);
        PassAtStep(words[..], before, start, i, carry, factor, 0, shifted);
        ghost var w: seq<Word> := words[..];
        words[i] := shifted % BASE;
        carry := shifted / BASE;
        assert words[..] == w[i := shifted % BASE];
      }
      PassAtEnd(words[..], before, start, carry, factor, 0);
      assert before[start..] == old(words[start..len]);
      assert before[..start] == old(words[..start]);
      if carry != 0 {
        AppendShifted(start, carry, bitShift);
      }
    }

    /** Stores the bits shifted out of the top word in a new word. */
    method AppendShifted(start: nat, carry: nat, ghost bitShift: nat)
      requires start <= len < words.Length && carry < Pow(2, bitShift) && bitShift < 32
      modifies this`len, words
      ensures len == old(len) + 1 && words[..start] == old(words[..start])
      ensures Nat(words[start..len]) == old(Nat(words[start..len])) + carry * Pow(BASE, old(len) - start)
    {
      assert carry < BASE by { PowStrict(2, bitShift, 32); BaseIsTwoTo32(); }
      ghost var done := words[start..len];
      words[len] := carry;
      len := len + 1;
      assert words[start..len] == done + [carry];
      NatSnoc(done, carry);
    }

    lemma ShiftedWordParts(word: Word, carry: nat, bitShift: nat)
      requires 0 < bitShift < 32 && carry < Pow(2, bitShift)
      ensures Or(word * Pow(2, bitShift), carry) == word * Pow(2, bitShift) + carry
      ensures (word * Pow(2, bitShift) + carry) / BASE < Pow(2, bitShift)
    {
      OrDisjoint(word, carry, bitShift);
      CarryFits(word, Pow(2, bitShift), Pow(2, 32 - bitShift), carry) by { PowersOfTwoDivide(bitShift); }
    }

    /** Shifting a word left moves at most `bitShift` bits out of it. */
    lemma CarryFits(word: Word, factor: nat, rest: nat, carry: nat)
      requires factor * rest == BASE && carry < factor
      ensures (word * factor + carry) / BASE < factor
    {
      MulMono(word, BASE - 1, factor);
      DivLt(word * factor + carry, BASE, factor);
    }

    /** value >>= shift. */
    method ShiftRight(shift: nat)
      requires Valid()
      modifies this`len, words
      ensures Valid() && Value() == old(Value()) / Pow(2, shift)
    {
      if len == 0 || shift == 0 {
        return;
      }
      var wordShift := shift / WORD_BITS;
      var bitShift := shift % WORD_BITS;
      ghost var before := words[..len];
      ShiftedRightTotal(before, wordShift, bitShift);
      if wordShift >= len {
        SetZero();
        return;
      }
      assert words[wordShift..len] == before[wordShift..];
      ShiftWordsDown(wordShift, bitShift);
      len := len - wordShift;
      Normalize();
    }

    /** Moves every word down, lowest first, borrowing bits from the word above. */
    method ShiftWordsDown(wordShift: nat, bitShift: nat)
      requires wordShift < len <= words.Length && bitShift < 32
      modifies words
      ensures words[..len - wordShift] == ShiftedRight(old(words[wordShift..len]), bitShift)
    {
      ghost var kept: seq<Word> := words[wordShift..len];
      var i := 0;
      while i + wordShift < len
        invariant i <= |kept| && MovedDown(words[..], kept, wordShift, bitShift, i)
      {
        var low := words[i + wordShift];
        var high: Word := 0;
        if bitShift != 0 && i + wordShift + 1 < len {
          high := words[i + wordShift + 1];
        }
        ghost var w: seq<Word> := words[..];
        words[i] := ShiftedWord(low, high, bitShift);
        assert words[..] == w[i := ShiftedWord(low, high, bitShift)];
        ShiftedRightAt(kept, bitShift, i);
        i := i + 1;
      }
      assert words[..len - wordShift] == ShiftedRight(kept, bitShift);
    }

    /** The first i words are in place and the ones still to be read are untouched. */
    static ghost predicate MovedDown(w: seq<Word>, kept: seq<Word>, wordShift: nat, bitShift: nat, i: nat)
      requires bitShift < 32
    {
      && i <= |kept| && |kept| + wordShift <= |w|
      && (forall k :: 0 <= k < i ==> w[k] == ShiftedRight(kept, bitShift)[k])
      && (forall k :: i + wordShift <= k < |kept| + wordShift ==> w[k] == kept[k - wordShift])
    }

    static lemma ShiftedRightTotal(before: seq<Word>, wordShift: nat, bitShift: nat)
      requires bitShift < 32
      ensures wordShift <= |before| ==>
        Nat(before) / Pow(2, 32 * wordShift + bitShift) == Nat(ShiftedRight(before[wordShift..], bitShift))
      ensures wordShift >= |before| ==> Nat(before) / Pow(2, 32 * wordShift + bitShift) == 0
    {
      if wordShift >= |before| { PastTop(before, 32 * wordShift + bitShift); }
      if wordShift <= |before| {
        BasePower(wordShift);
        PowAdd(2, 32 * wordShift, bitShift);
        DivDiv(Nat(before), Pow(BASE, wordShift), Pow(2, bitShift));
        DropWords(before, wordShift);
        ShiftedRightValue(before[wordShift..], bitShift);
      }
    }

    /** Whether any of the lowest `bits` bits is set. */
    method HasLowBits(bits: nat) returns (found: bool)
      requires Valid()
      ensures found <==> Value() % Pow(2, bits) != 0
    {
      ghost var s := words[..len];
      if bits == 0 || len == 0 {
        NoLowBits(s, bits);
        return false;
      }
      var fullWords := bits / WORD_BITS;
      var partialBits := bits % WORD_BITS;
      var i := 0;
      while i < fullWords && i < len
        invariant i <= fullWords && i <= len
        invariant forall k :: 0 <= k < i ==> s[k] == 0
      {
        if words[i] != 0 {
          LowWordSet(s, fullWords, partialBits, i);
          return true;
        }
        i := i + 1;
      }
      if partialBits != 0 && fullWords < len {
        AndMask(words[fullWords], partialBits);
        var mask := Pow(2, partialBits) - 1;
        if And(words[fullWords], mask) != 0 {
          PartialWordSet(s, fullWords, partialBits);
          return true;
        }
      }
      LowWordsClear(s, fullWords, partialBits);
      return false;
    }

    static lemma NoLowBits(s: seq<Word>, bits: nat)
      requires bits == 0 || s == []
      ensures Nat(s) % Pow(2, bits) == 0
    {
      if bits != 0 { DivModUnique(0, Pow(2, bits), 0, 0); }
    }

    static lemma LowWordSet(s: seq<Word>, fullWords: nat, partialBits: nat, i: nat)
      requires i < |s| && i < fullWords && partialBits < 32 && s[i] != 0
      ensures Nat(s) % Pow(2, 32 * fullWords + partialBits) != 0
    {
      if fullWords < |s| {
        LowPart(s, fullWords, partialBits);
        NatZeros(s[..fullWords]);
        assert s[..fullWords][i] != 0;
        MulMono(0, s[fullWords] % Pow(2, partialBits), Pow(BASE, fullWords));
      } else {
        PastTop(s, 32 * fullWords + partialBits);
        NatZeros(s);
      }
    }

    static lemma PartialWordSet(s: seq<Word>, fullWords: nat, partialBits: nat)
      requires fullWords < |s| && partialBits < 32 && s[fullWords] % Pow(2, partialBits) != 0
      ensures Nat(s) % Pow(2, 32 * fullWords + partialBits) != 0
    {
      LowPart(s, fullWords, partialBits);
      MulMono(1, s[fullWords] % Pow(2, partialBits), Pow(BASE, fullWords));
    }

    static lemma LowWordsClear(s: seq<Word>, fullWords: nat, partialBits: nat)
      requires partialBits < 32
      requires forall k :: 0 <= k < fullWords && k < |s| ==> s[k] == 0
      requires fullWords < |s| ==> s[fullWords] % Pow(2, partialBits) == 0
      ensures Nat(s) % Pow(2, 32 * fullWords + partialBits) == 0
    {
      if fullWords < |s| {
        LowPart(s, fullWords, partialBits);
        NatZeros(s[..fullWords]);
      } else {
        PastTop(s, 32 * fullWords + partialBits);
        NatZeros(s);
      }
    }

    /** Bit `bitIndex` of the value. */
    method TestBit(bitIndex: nat) returns (bit: bool)
      requires Valid()
      ensures bit <==> Value() / Pow(2, bitIndex) % 2 == 1
    {
      ghost var s := words[..len];
      var wordIndex := bitIndex / WORD_BITS;
      var bitOffset := bitIndex % WORD_BITS;
      if wordIndex >= len {
        PastTop(s, bitIndex);
        return false;
      }
      bit := And(words[wordIndex], Pow(2, bitOffset)) != 0;
      MaskedBit(s, wordIndex, bitOffset);
    }

    static lemma MaskedBit(s: seq<Word>, wordIndex: nat, bitOffset: nat)
      requires wordIndex < |s| && bitOffset < 32
      ensures And(s[wordIndex], Pow(2, bitOffset)) != 0 <==> Nat(s) / Pow(2, 32 * wordIndex + bitOffset) % 2 == 1
    {
      BitOfWord(s, wordIndex, bitOffset);
      AndBit(s[wordIndex], bitOffset);
      var bit := s[wordIndex] / Pow(2, bitOffset) % 2;
      assert bit == 0 || bit == 1;
    }

    /** How the part below bit `bits` compares with one half. */
    method RemainderOf(bits: nat) returns (half: RemainderHalf)
      requires Valid() && bits > 0
      ensures half == Classify(Value() % Pow(2, bits), Pow(2, bits))
    {
      var low := HasLowBits(bits);
      if !low {
        return Zero;
      }
      var halfBit := bits - 1;
      TopBitOfRemainder(Value(), Pow(2, halfBit));
      var top := TestBit(halfBit);
      if !top {
        return LessHalf;
      }
      low := HasLowBits(halfBit);
      return if low then MoreHalf else Half;
    }

    method IsOdd() returns (odd: bool)
      requires Valid()
      ensures odd <==> Value() % 2 == 1
    {
      ghost var s := words[..len];
      if len > 0 {
        MaskedBit(s, 0, 0);
      }
      return len > 0 && And(words[0], 1) != 0;
    }

    /** value /= divisor; the result is the remainder. */
    method DivSmall(divisor: Word) returns (remainder: nat)
      requires len <= words.Length && divisor > 0
      modifies this`len, words
      ensures Valid() && len <= old(len)
      ensures Value() == old(Value()) / divisor && remainder == old(Value()) % divisor
    {
      ghost var before: seq<Word> := words[..len];
      remainder := 0;
      for i := len downto 0
        invariant len == old(len)
        invariant DividedDown(words[..], before, i, divisor, remainder)
      {
        var current := JoinWords(remainder, words[i]);
        DividedDownStep(words[..], before, i, divisor, remainder, current);
        ghost var w: seq<Word> := words[..];
        var quotient: Word := current / divisor;
        words[i] := quotient;
        remainder := current % divisor;
        assert words[..] == w[i := quotient];
      }
      DividedAll(words[..], before, divisor, remainder);
      Normalize();
    }

    /** (high << 32) | low */
    static function JoinWords(high: nat, low: Word): (joined: nat)
      ensures joined == high * BASE + low
    {
      BaseIsTwoTo32();
      OrDisjoint(high, low, 32);
      Or(high * BASE, low)
    }

    /** The empty word sequence is the only representation of zero. */
    lemma ZeroIsEmpty()
      requires Valid()
      ensures len == 0 <==> Value() == 0
    {
      if len > 0 { NatTop(words[..len]); }
    }

    /**
     Writes the decimal digits of the value and a terminator into `buffer`. The value is consumed.
     The only failure is a buffer that is too short.
     */
    method ToDecimal(buffer: array<char>, capacity: nat) returns (status: Result<nat>)
      requires Valid() && 0 < capacity <= buffer.Length
      modifies this`len, words, buffer
      ensures status.Ok? <==> |Dec(old(Value()))| < capacity
      ensures status.Err? ==> status == Err(EOVERFLOW)
      ensures status.Ok? ==> status.value == |Dec(old(Value()))|
      ensures status.Ok? ==> buffer[..status.value] == Dec(old(Value())) && buffer[status.value] == '\0'
      ensures buffer[capacity..] == old(buffer[capacity..])
    {
      ZeroIsEmpty();
      if len == 0 {
        if capacity < 2 {
          return Err(EOVERFLOW);
        }
        buffer[0] := '0';
        buffer[1] := '\0';
        return Ok(1);
      }
      ghost var n := Value();
      var writeIndex :- WriteGroups(buffer, capacity);
      assert buffer[writeIndex..capacity] == Dec(n) + ['\0'];
      var count := capacity - 1 - writeIndex;
      MemMove(buffer, 0, writeIndex, count + 1);
      return Ok(count);
    }

    /** Writes the digits right to left, nine at a time, up to the end of the buffer. */
    method WriteGroups(buffer: array<char>, capacity: nat) returns (start: Result<nat>)
      requires Valid() && Value() > 0 && 0 < capacity <= buffer.Length
      modifies this`len, words, buffer
      ensures start.Ok? <==> |Dec(old(Value()))| < capacity
      ensures start.Err? ==> start == Err(EOVERFLOW)
      ensures start.Ok? ==> Written(buffer[..], old(buffer[..]), capacity, start.value, old(Value()), [])
      ensures buffer[capacity..] == old(buffer[capacity..])
    {
      ghost var n, original := Value(), buffer[..];
      var writeIndex: nat := capacity - 1;
      buffer[writeIndex] := '\0';
      while true
        invariant Valid() && Value() > 0
        invariant Written(buffer[..], original, capacity, writeIndex, n, Dec(Value()))
        decreases Value()
      {
        GroupSplit(Value());
        var group := DivSmall(GROUP_BASE);
        ZeroIsEmpty();
        if len == 0 {
          start := WriteTopGroup(group, buffer, capacity, writeIndex, original, n);
          return;
        }
        writeIndex :- WriteFullGroup(group, buffer, capacity, writeIndex, original, n, Dec(Value()));
      }
    }

    /** How many decimal digits the value has. The value is consumed. */
    method DecimalDigitCount() returns (count: nat)
      requires Valid()
      modifies this`len, words
      ensures Valid() && count == |Dec(old(Value()))|
    {
      ghost var n := Value();
      ZeroIsEmpty();
      if len == 0 {
        return 1;
      }
      var topGroup, groupCount: nat := 0, 0;
      while true
        invariant Valid() && Value() > 0 && |Dec(n)| == |Dec(Value())| + groupCount * GROUP_DIGITS
        decreases Value()
      {
        GroupSplit(Value());
        topGroup := DivSmall(GROUP_BASE);
        ZeroIsEmpty();
        groupCount := groupCount + 1;
        if len == 0 {
          break;
        }
      }
      var topDigits := 1;
      while topGroup >= 10
        invariant |Dec(n)| == |Dec(topGroup)| + topDigits - 1 + (groupCount - 1) * GROUP_DIGITS
      {
        topGroup := topGroup / 10;
        topDigits := topDigits + 1;
      }
      return (groupCount - 1) * GROUP_DIGITS + topDigits;
    }
  }

  /**
   The buffer holds the terminator and, before it, the last digits of n; the digits `left` of n are
   still to be written.
   */
  ghost predicate Written(b: seq<char>, original: seq<char>, capacity: nat, writeIndex: nat, n: nat, left: string) {
    && writeIndex < capacity <= |b| == |original|
    && b[capacity - 1] == '\0'
    && b[capacity..] == original[capacity..]
    && Dec(n) == left + b[writeIndex..capacity - 1]
  }

  /** Writes the digits of the most significant group, without leading zeros. */
  method WriteTopGroup(top: nat, buffer: array<char>, capacity: nat, start: nat,
                       ghost original: seq<char>, ghost n: nat) returns (writeIndex: Result<nat>)
    requires Written(buffer[..], original, capacity, start, n, Dec(top))
    modifies buffer
    ensures writeIndex.Ok? <==> |Dec(n)| < capacity
    ensures writeIndex.Err? ==> writeIndex == Err(EOVERFLOW) && buffer[capacity..] == original[capacity..]
    ensures writeIndex.Ok? ==> Written(buffer[..], original, capacity, writeIndex.value, n, [])
  {
    var group: nat, index: nat := top, start;
    while true
      invariant Written(buffer[..], original, capacity, index, n, Dec(group))
      decreases group
    {
      if index == 0 {
        return Err(EOVERFLOW);
      }
      WrittenStep(buffer[..], original, capacity, index, n, Dec(group));
      index := index - 1;
      ghost var b := buffer[..];
      buffer[index] := DigitChar(group % 10);
      assert buffer[..] == b[index := DigitChar(group % 10)];
      if group < 10 {
        break;
      }
      assert Dec(group)[..|Dec(group)| - 1] == Dec(group / 10);
      group := group / 10;
    }
    return Ok(index);
  }

  /** Writes all nine digits of a group that has more significant digits before it. */
  method WriteFullGroup(full: nat, buffer: array<char>, capacity: nat, start: nat,
                        ghost original: seq<char>, ghost n: nat, ghost left: string) returns (writeIndex: Result<nat>)
    requires Written(buffer[..], original, capacity, start, n, left + Pad(full, GROUP_DIGITS)) && left != []
    modifies buffer
    ensures writeIndex.Err? ==> writeIndex == Err(EOVERFLOW) && |Dec(n)| >= capacity && buffer[capacity..] == original[capacity..]
    ensures writeIndex.Ok? ==> Written(buffer[..], original, capacity, writeIndex.value, n, left)
  {
    var group: nat, index: nat := full, start;
    for i := 0 to GROUP_DIGITS
      invariant Written(buffer[..], original, capacity, index, n, left + Pad(group, GROUP_DIGITS - i))
    {
      if index == 0 {
        return Err(EOVERFLOW);
      }
      ghost var all := left + Pad(group, GROUP_DIGITS - i);
      assert all[..|all| - 1] == left + Pad(group / 10, GROUP_DIGITS - i - 1);
      WrittenStep(buffer[..], original, capacity, index, n, all);
      index := index - 1;
      ghost var b := buffer[..];
      buffer[index] := DigitChar(group % 10);
      assert buffer[..] == b[index := DigitChar(group % 10)];
      group := group / 10;
    }
    assert left + Pad(group, 0) == left;
    return Ok(index);
  }

  lemma WrittenStep(b: seq<char>, original: seq<char>, capacity: nat, writeIndex: nat, n: nat, left: string)
    requires Written(b, original, capacity, writeIndex, n, left)
    requires writeIndex > 0 && left != []
    ensures Written(b[writeIndex - 1 := left[|left| - 1]], original, capacity, writeIndex - 1, n, left[..|left| - 1])
  {
    var d := left[|left| - 1];
    var b' := b[writeIndex - 1 := d];
    assert b'[writeIndex - 1..capacity - 1] == [d] + b[writeIndex..capacity - 1];
    assert left == left[..|left| - 1] + [d];
  }

  /** A number too large for one group is its quotient's digits followed by nine more. */
  lemma GroupSplit(n: nat)
    ensures n / GROUP_BASE > 0 ==> Dec(n) == Dec(n / GROUP_BASE) + Pad(n % GROUP_BASE, GROUP_DIGITS)
    ensures n / GROUP_BASE == 0 ==> n % GROUP_BASE == n
  {
    assert Pow(10, 9) == GROUP_BASE by {
      assert Pow(10, 3) == 1000;
      PowAdd(10, 3, 3);
      PowAdd(10, 6, 3);
    }
    if n / GROUP_BASE > 0 { DecSplit(n, 9); }
  }
}
