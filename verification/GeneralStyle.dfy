/** `%Lg`: the exponent style, rewritten in fixed style when its exponent is small, without trailing zeros. */
module GeneralStyle {
  import opened Powers
  import opened Results
  import opened Decimal
  import opened BigUInt
  import opened Rounding
  import opened BinaryFloat
  import opened Magnitude
  import opened FixedStyle
  import opened ExpStyle
  import opened SignificantDigits
  import opened ExpText

  predicate IsExponentLetter(c: char) { c == 'e' || c == 'E' }

  ghost predicate NoLetter(s: string) { forall i :: 0 <= i < |s| ==> !IsExponentLetter(s[i]) }

  // ---- reading the exponent back ------------------------------------------------------

  /** What is after the first exponent letter, if there is one. */
  ghost predicate HasExponent(s: string, i: nat) {
    i < |s| && IsExponentLetter(s[i]) && NoLetter(s[..i])
  }

  /** An optional sign and digits. */
  ghost predicate SignedNumber(s: string, x: int) {
    if s != [] && (s[0] == '-' || s[0] == '+')
    then |s| > 1 && AllDigits(s[1..]) && x == if s[0] == '-' then 0 - ReadDec(s[1..]) else ReadDec(s[1..])
    else s != [] && AllDigits(s) && x == ReadDec(s)
  }

  /** The text carries exponent x, and x fits an int32. */
  ghost predicate ExponentIs(s: string, x: int) {
    Abs(x) <= INT32_MAX && exists i: nat :: HasExponent(s, i) && SignedNumber(s[i + 1..], x)
  }

  /** How many digits s starts with. */
  function DigitPrefix(s: string): (n: nat)
    ensures n <= |s| && AllDigits(s[..n]) && (n < |s| ==> !IsDigit(s[n]))
  {
    if s == "" || !IsDigit(s[0]) then 0
    else
      var n := DigitPrefix(s[1..]);
      assert s[..n + 1] == [s[0]] + s[1..][..n];
      n + 1
  }

  /** How reading a number fails: the digits at its start pass an int32, or something else than a digit is met first. */
  ghost function NumberError(s: string): Errno {
    if ReadDec(s[..DigitPrefix(s)]) > INT32_MAX then EOVERFLOW else EINVAL
  }

  ghost function WithoutSign(s: string): string {
    if s != "" && (s[0] == '-' || s[0] == '+') then s[1..] else s
  }

  /** The exponent a text carries, or how reading it fails. */
  ghost function ParsedExponent(s: string): Result<int> {
    if exists x :: ExponentIs(s, x) then
      var x :| ExponentIs(s, x);
      Ok(x)
    else if exists i: nat :: HasExponent(s, i) then
      var i: nat :| HasExponent(s, i);
      Err(NumberError(WithoutSign(s[i + 1..])))
    else Err(EINVAL)
  }

  /** A text carries no two exponents. */
  lemma ExponentUnique(s: string, x: int, y: int)
    requires ExponentIs(s, x) && ExponentIs(s, y)
    ensures x == y
  {
    var i: nat :| HasExponent(s, i) && SignedNumber(s[i + 1..], x);
    LetterUnique(s, i);
  }

  /** The first exponent letter, or the end of the text. */
  method FindLetter(body: array<char>, bodyLen: nat) returns (index: nat)
    requires bodyLen <= body.Length
    ensures index <= bodyLen && NoLetter(body[..index])
    ensures index < bodyLen ==> HasExponent(body[..bodyLen], index)
  {
    index := 0;
    while index < bodyLen && body[index] != 'e' && body[index] != 'E'
      invariant index <= bodyLen && NoLetter(body[..index])
    {
      assert body[..index + 1] == body[..index] + [body[index]];
      index := index + 1;
    }
    assert body[..bodyLen][..index] == body[..index];
  }

  /** Reads the exponent of a text; fails exactly when the text carries none. */
  method ParseDecimalExponent(body: array<char>, bodyLen: nat) returns (r: Result<int>)
    requires bodyLen <= body.Length
    ensures r.Ok? ==> ExponentIs(body[..bodyLen], r.value)
    ensures r.Err? ==> forall x :: !ExponentIs(body[..bodyLen], x)
    ensures r == ParsedExponent(body[..bodyLen])
  {
    hide SignedNumber;
    hide NumberError;
    hide WithoutSign;
    ghost var s := body[..bodyLen];
    var letter := FindLetter(body, bodyLen);
    if letter >= bodyLen {
      assert s == body[..letter];
      return Err(EINVAL);
    }
    LetterUnique(s, letter);
    assert s[letter + 1..] == body[letter + 1..bodyLen];
    r := ParseSigned(body, letter + 1, bodyLen);
    if r.Ok? {
      assert ExponentIs(s, r.value);
      OneExponent(s, r.value);
    }
  }

  lemma OneExponent(s: string, x: int)
    requires ExponentIs(s, x)
    ensures ParsedExponent(s) == Ok(x)
  {
    hide ExponentIs;
    var y :| ExponentIs(s, y) && ParsedExponent(s) == Ok(y);
    ExponentUnique(s, x, y);
  }

  /** Reads an optional sign and digits up to the end of the text. */
  method ParseSigned(body: array<char>, start: nat, bodyLen: nat) returns (r: Result<int>)
    requires start <= bodyLen <= body.Length
    ensures r.Ok? ==> Abs(r.value) <= INT32_MAX && SignedNumber(body[start..bodyLen], r.value)
    ensures r.Err? ==> forall x :: Abs(x) <= INT32_MAX ==> !SignedNumber(body[start..bodyLen], x)
    ensures r.Err? ==> r.errno == NumberError(WithoutSign(body[start..bodyLen]))
  {
    ghost var s := body[start..bodyLen];
    var index := start;
    if index >= bodyLen {
      return Err(EINVAL);
    }
    var negative := false;
    if body[index] == '-' {
      negative := true;
      index := index + 1;
    } else if body[index] == '+' {
      index := index + 1;
    }
    assert body[index..bodyLen] == if index > start then s[1..] else s;
    if index >= bodyLen || !IsDigit(body[index]) {
      assert index < bodyLen ==> body[index..bodyLen][0] == body[index];
      return Err(EINVAL);
    }
    var magnitude := ParseMagnitude(body, index, bodyLen);
    if magnitude.Err? {
      return Err(magnitude.errno);
    }
    var value: int := magnitude.value;
    r := Ok(if negative then -value else value);
  }

  /** Reads digits up to the end of the text, refusing anything beyond an int32. */
  method ParseMagnitude(body: array<char>, start: nat, bodyLen: nat) returns (r: Result<nat>)
    requires start <= bodyLen <= body.Length
    ensures r.Ok? <==> AllDigits(body[start..bodyLen]) && ReadDec(body[start..bodyLen]) <= INT32_MAX
    ensures r.Ok? ==> r.value == ReadDec(body[start..bodyLen])
    ensures r.Err? ==> r.errno == NumberError(body[start..bodyLen])
  {
    ghost var s := body[start..bodyLen];
    var index, value := start, 0;
    while index < bodyLen
      invariant start <= index <= bodyLen
      invariant AllDigits(s[..index - start]) && value == ReadDec(s[..index - start]) <= INT32_MAX
    {
      if !IsDigit(body[index]) {
        assert s[index - start] == body[index];
        PrefixIs(s, index - start);
        return Err(EINVAL);
      }
      var digit := DigitValue(body[index]);
      assert s[..index - start + 1] == s[..index - start] + [body[index]];
      ReadSnoc(s[..index - start], body[index]);
      if value > (INT32_MAX - digit) / 10 {
        PrefixReads(s, index - start + 1);
        PrefixPasses(s, index - start + 1);
        return Err(EOVERFLOW);
      }
      value := value * 10 + digit;
      index := index + 1;
    }
    assert s[..index - start] == s;
    return Ok(value);
  }

  lemma PrefixIs(s: string, n: nat)
    requires n < |s| && AllDigits(s[..n]) && !IsDigit(s[n])
    ensures DigitPrefix(s) == n
  {
    var m := DigitPrefix(s);
    if m > n { DigitAt(s, m, n); }
  }

  lemma DigitAt(s: string, k: nat, i: nat)
    requires i < k <= |s| && AllDigits(s[..k])
    ensures IsDigit(s[i])
  {
    assert s[..k][i] == s[i];
  }

  /** A number found too large before the digits end stays so. */
  lemma PrefixPasses(s: string, k: nat)
    requires k <= |s| && AllDigits(s[..k]) && ReadDec(s[..k]) > INT32_MAX
    ensures NumberError(s) == EOVERFLOW
  {
    var m := DigitPrefix(s);
    assert s[..m][..k] == s[..k];
    PrefixReads(s[..m], k);
  }

  /** A longer digit string does not denote less. */
  lemma PrefixReads(s: string, k: nat)
    requires k <= |s|
    ensures AllDigits(s) ==> AllDigits(s[..k]) && ReadDec(s) >= ReadDec(s[..k])
  {
    if AllDigits(s) {
      assert s == s[..k] + s[k..];
      ReadAppend(s[..k], s[k..]);
      MulMono(1, Pow(10, |s| - k), ReadDec(s[..k]));
    }
  }

  lemma LetterUnique(s: string, i: nat)
    requires HasExponent(s, i)
    ensures forall j: nat :: HasExponent(s, j) ==> j == i
  {
  }

  /** The exponent read back is the one that was printed. */
  lemma ExponentReadsBack(mantissa: string, x: int, upper: bool, y: int)
    requires NoLetter(mantissa) && ExponentIs(mantissa + ExponentText(x, upper), y)
    ensures y == x
  {
    var s, n := mantissa + ExponentText(x, upper), |mantissa|;
    assert s[..n] == mantissa;
    assert HasExponent(s, n);
    LetterUnique(s, n);
    assert s[n + 1..] == [if x < 0 then '-' else '+'] + ExponentDigits(Abs(x));
    assert s[n + 1..][1..] == ExponentDigits(Abs(x));
    ExponentDigitsRead(Abs(x));
  }

  lemma ExponentIsThere(mantissa: string, x: int, upper: bool)
    requires NoLetter(mantissa) && Abs(x) <= INT32_MAX
    ensures ExponentIs(mantissa + ExponentText(x, upper), x)
  {
    var s, n := mantissa + ExponentText(x, upper), |mantissa|;
    assert s[..n] == mantissa;
    assert HasExponent(s, n);
    assert s[n + 1..] == [if x < 0 then '-' else '+'] + ExponentDigits(Abs(x));
    assert s[n + 1..][1..] == ExponentDigits(Abs(x));
    ExponentDigitsRead(Abs(x));
    assert SignedNumber(s[n + 1..], x);
  }

  // ---- stripping trailing zeros -------------------------------------------------------

  /** The digits without the zeros at their end. */
  ghost function StripZeros(s: string): (t: string)
    ensures |t| <= |s| && s == t + Zeros(|s| - |t|)
    ensures t != [] ==> t[|t| - 1] != '0'
  {
    if s != [] && s[|s| - 1] == '0' then
      var t := StripZeros(s[..|s| - 1]);
      assert s == s[..|s| - 1] + ['0'];
      assert Zeros(|s| - |t|) == Zeros(|s| - 1 - |t|) + ['0'];
      t
    else
      assert Zeros(0) == [];
      s
  }

  /** A text of a whole part, a point, a fraction, and an exponent or nothing. */
  ghost predicate HasParts(t: string, whole: string, fraction: string, suffix: string) {
    && t == whole + "." + fraction + suffix
    && AllDigits(whole) && AllDigits(fraction)
    && (suffix == "" || IsExponentLetter(suffix[0]))
  }

  ghost function StrippedText(whole: string, fraction: string, suffix: string): string {
    whole + (if StripZeros(fraction) == "" then "" else "." + StripZeros(fraction)) + suffix
  }

  /** The first exponent letter of t, or its end, and the last point before that, or -1. */
  ghost predicate SplitsAt(t: string, point: int, letter: nat) {
    && letter <= |t| && NoLetter(t[..letter]) && (letter < |t| ==> IsExponentLetter(t[letter]))
    && -1 <= point < letter && (point >= 0 ==> t[point] == '.')
    && forall i :: point < i < letter ==> t[i] != '.'
  }

  /** t without the zeros before its exponent letter, and without its point when nothing is left behind it. */
  ghost function StrippedAt(t: string, point: int, letter: nat): string
    requires -1 <= point < letter <= |t|
  {
    if point < 0 then t else
      var s := StripZeros(t[point + 1..letter]);
      t[..if s == [] then point else point + 1 + |s|] + t[letter..]
  }

  lemma SplitUnique(t: string, point: int, letter: nat, point': int, letter': nat)
    requires SplitsAt(t, point, letter) && SplitsAt(t, point', letter')
    ensures point == point' && letter == letter'
  {
  }

  lemma {:induction false} SplitExists(t: string)
    ensures exists point: int, letter: nat :: SplitsAt(t, point, letter)
  {
    var n := |t| - 1;
    if t == "" {
      assert SplitsAt(t, -1, 0);
    } else {
      SplitExists(t[..n]);
      var point: int, letter: nat :| SplitsAt(t[..n], point, letter);
      assert t[..n][..letter] == t[..letter];
      if letter < n || IsExponentLetter(t[n]) {
        assert SplitsAt(t, point, letter);
      } else {
        assert t == t[..n] + [t[n]];
        assert SplitsAt(t, if t[n] == '.' then n else point, n + 1);
      }
    }
  }

  /** t without superfluous zeros at the end of its fraction. */
  ghost function Stripped(t: string): string {
    SplitExists(t);
    var point: int, letter: nat :| SplitsAt(t, point, letter);
    StrippedAt(t, point, letter)
  }

  lemma StrippedIs(t: string, point: int, letter: nat)
    requires SplitsAt(t, point, letter)
    ensures Stripped(t) == StrippedAt(t, point, letter)
  {
    SplitExists(t);
    var point': int, letter': nat :| SplitsAt(t, point', letter') && Stripped(t) == StrippedAt(t, point', letter');
    SplitUnique(t, point, letter, point', letter');
  }

  method FindPointAndLetter(body: array<char>, bodyLen: nat) returns (point: int, letter: nat)
    requires bodyLen <= body.Length
    ensures SplitsAt(body[..bodyLen], point, letter)
  {
    letter, point := bodyLen, -1;
    for i := 0 to bodyLen
      invariant letter == bodyLen && -1 <= point < i
      invariant NoLetter(body[..i])
      invariant point >= 0 ==> body[point] == '.'
      invariant forall k :: point < k < i ==> body[k] != '.'
    {
      if body[i] == '.' {
        point := i;
      } else if body[i] == 'e' || body[i] == 'E' {
        letter := i;
        break;
      }
      assert body[..i + 1] == body[..i] + [body[i]];
    }
    assert body[..bodyLen][..letter] == body[..letter];
  }

  /** Removes the zeros at the end of the fraction, and the point when nothing is left behind it. */
  method StripTrailingZeros(body: array<char>, bodyLen: nat) returns (end: nat, ghost point: int, ghost letter: nat)
    requires bodyLen <= body.Length
    modifies body
    ensures end <= bodyLen && SplitsAt(old(body[..bodyLen]), point, letter)
    ensures body[..end] == StrippedAt(old(body[..bodyLen]), point, letter) == Stripped(old(body[..bodyLen]))
  {
    var pointIndex, letterIndex := FindPointAndLetter(body, bodyLen);
    point, letter := pointIndex, letterIndex;
    StrippedIs(body[..bodyLen], point, letter);
    if pointIndex < 0 {
      return bodyLen, point, letter;
    }
    end := StripFraction(body, bodyLen, pointIndex, letterIndex);
  }

  method StripFraction(body: array<char>, bodyLen: nat, point: nat, letter: nat) returns (end: nat)
    requires point < letter <= bodyLen <= body.Length
    modifies body
    ensures end <= bodyLen && body[..end] == StrippedAt(old(body[..bodyLen]), point, letter)
  {
    hide StripZeros;
    hide StrippedAt;
    ghost var t := body[..bodyLen];
    end := ScanBackZeros(body, point + 1, letter);
    PartOfPrefix(body, bodyLen, point + 1, letter);
    PartOfPrefix(body, bodyLen, point + 1, end);
    StripsTo(t, point, letter, end);
    if end == point + 1 {
      end := point;
    }
    assert t[..end] == body[..end] && body[letter..bodyLen] == t[letter..];
    end := CloseGap(body, end, letter, bodyLen);
  }

  lemma PartOfPrefix(body: array<char>, n: nat, from: nat, to: nat)
    requires from <= to <= n <= body.Length
    ensures body[..n][from..to] == body[from..to]
  {
  }

  lemma StripsTo(t: string, point: nat, letter: nat, end: nat)
    requires point < end <= letter <= |t| && StripZeros(t[point + 1..letter]) == t[point + 1..end]
    ensures StrippedAt(t, point, letter) == t[..if end == point + 1 then point else end] + t[letter..]
  {
    hide StripZeros;
  }

  /** Moves the exponent, if there is one, next to what was kept. */
  method CloseGap(body: array<char>, kept: nat, letter: nat, bodyLen: nat) returns (end: nat)
    requires kept <= letter <= bodyLen <= body.Length
    modifies body
    ensures end == kept + bodyLen - letter
    ensures body[..end] == old(body[..kept]) + old(body[letter..bodyLen])
  {
    end := kept;
    if letter < bodyLen {
      MemMove(body, kept, letter, bodyLen - letter);
      end := kept + (bodyLen - letter);
    }
  }

  /** The end of the digits from `start` that remain when the zeros before `stop` go. */
  method ScanBackZeros(body: array<char>, start: nat, stop: nat) returns (end: nat)
    requires start <= stop <= body.Length
    ensures start <= end <= stop && body[start..end] == StripZeros(body[start..stop])
  {
    hide StripZeros;
    end := stop;
    while end > start && body[end - 1] == '0'
      invariant start <= end <= stop
      invariant StripZeros(body[start..end]) == StripZeros(body[start..stop])
    {
      StripOne(body[start..end]);
      assert body[start..end][..end - start - 1] == body[start..end - 1];
      end := end - 1;
    }
    StripNone(body[start..end]);
  }

  lemma StripOne(s: string)
    requires s != [] && s[|s| - 1] == '0'
    ensures StripZeros(s) == StripZeros(s[..|s| - 1])
  {
  }

  lemma StripNone(s: string)
    requires s == [] || s[|s| - 1] != '0'
    ensures StripZeros(s) == s
  {
  }

  /** On a text with the parts of a printed number, exactly the zeros at the end of the fraction go. */
  lemma StrippedParts(t: string, point: int, letter: nat, whole: string, fraction: string, suffix: string)
    requires SplitsAt(t, point, letter) && HasParts(t, whole, fraction, suffix)
    ensures StrippedAt(t, point, letter) == StrippedText(whole, fraction, suffix)
  {
    hide SplitsAt;
    hide HasParts;
    hide StripZeros;
    PartsAt(t, whole, fraction, suffix);
    WhereItSplits(t, point, letter, whole, fraction, suffix);
    var s := StripZeros(fraction);
    assert t[..point + 1 + |s|] == whole + "." + s;
  }

  lemma WhereItSplits(t: string, point: int, letter: nat, whole: string, fraction: string, suffix: string)
    requires SplitsAt(t, point, letter) && HasParts(t, whole, fraction, suffix)
    ensures point == |whole| && letter == |whole| + 1 + |fraction| <= |t|
  {
    var n := |whole| + 1 + |fraction|;
    PartsAt(t, whole, fraction, suffix);
    if n < |t| { assert IsExponentLetter(t[n]); }
  }

  lemma PartsAt(t: string, whole: string, fraction: string, suffix: string)
    requires HasParts(t, whole, fraction, suffix)
    ensures t[|whole|] == '.'
    ensures forall i :: 0 <= i < |whole| ==> IsDigit(t[i])
    ensures forall i :: |whole| < i < |whole| + 1 + |fraction| ==> IsDigit(t[i])
    ensures |t| > |whole| + 1 + |fraction| ==> IsExponentLetter(t[|whole| + 1 + |fraction|])
    ensures t[..|whole|] == whole && t[|whole| + 1..|whole| + 1 + |fraction|] == fraction && t[|whole| + 1 + |fraction|..] == suffix
  {
    assert forall i :: 0 <= i < |whole| ==> t[i] == whole[i];
    assert forall i :: |whole| < i < |whole| + 1 + |fraction| ==> t[i] == fraction[i - |whole| - 1];
  }

  // ---- the number that is left ------------------------------------------------------------

  /** n' / 10^p' is n / 10^p with no zero at the end of its fraction; nothing changes for `#`. */
  ghost predicate Trimmed(n': nat, p': nat, n: nat, p: nat, alternate: bool) {
    if alternate then n' == n && p' == p
    else p' <= p && n' * Pow(10, p - p') == n && (p' > 0 ==> n' % 10 != 0)
  }

  lemma StripNumber(whole: string, fraction: string)
    requires AllDigits(whole) && AllDigits(fraction)
    ensures
      var s := StripZeros(fraction);
      && AllDigits(s) && AllDigits(whole + s) && AllDigits(whole + fraction)
      && Trimmed(ReadDec(whole + s), |s|, ReadDec(whole + fraction), |fraction|, false)
  {
    var s := StripZeros(fraction);
    DigitsKept(s, fraction);
    TrailingZeros(whole + s, |fraction| - |s|);
    assert whole + fraction == (whole + s) + Zeros(|fraction| - |s|);
    if s != [] { LastDigitNonzero(whole + s); }
  }

  lemma DigitsKept(s: string, t: string)
    requires AllDigits(t) && |s| <= |t| && t == s + Zeros(|t| - |s|)
    ensures AllDigits(s)
  {
    assert forall i :: 0 <= i < |s| ==> s[i] == t[i];
  }

  lemma TrailingZeros(s: string, k: nat)
    requires AllDigits(s)
    ensures AllDigits(s + Zeros(k)) && ReadDec(s + Zeros(k)) == ReadDec(s) * Pow(10, k)
  {
    ReadAppend(s, Zeros(k));
    ReadZeros(Zeros(k));
  }

  lemma LastDigitNonzero(s: string)
    requires AllDigits(s) && s != [] && s[|s| - 1] != '0'
    ensures ReadDec(s) % 10 != 0
  {
  }

  lemma NoPointNoStrip(t: string, point: int, letter: nat)
    requires SplitsAt(t, point, letter) && '.' !in t[..letter]
    ensures StrippedAt(t, point, letter) == t
  {
  }

  /** Stripping a fixed text keeps the number it denotes. */
  lemma StripFixed(t: string, n: nat, p: nat, point: int, letter: nat) returns (n': nat, p': nat)
    requires ReadsAsFixed(t, n, p, false) && SplitsAt(t, point, letter)
    ensures ReadsAsFixed(StrippedAt(t, point, letter), n', p', false) && Trimmed(n', p', n, p, false)
  {
    var whole, fraction :| PartsRead(t, whole, fraction, n, p, false);
    if p == 0 {
      assert t == whole;
      NoPointNoStrip(t, point, letter);
      return n, 0;
    }
    assert t == whole + "." + fraction + "";
    StrippedParts(t, point, letter, whole, fraction, "");
    n', p' := StripWhole(StrippedAt(t, point, letter), whole, fraction);
  }

  lemma StripWhole(t: string, whole: string, fraction: string) returns (n: nat, p: nat)
    requires AllDigits(whole) && whole != [] && (whole[0] != '0' || |whole| == 1) && AllDigits(fraction)
    requires t == StrippedText(whole, fraction, "")
    ensures AllDigits(whole + fraction)
    ensures ReadsAsFixed(t, n, p, false) && Trimmed(n, p, ReadDec(whole + fraction), |fraction|, false)
  {
    var s := StripZeros(fraction);
    StripNumber(whole, fraction);
    n, p := ReadDec(whole + s), |s|;
    assert t == whole + (if p > 0 then "." else "") + s;
    assert PartsRead(t, whole, s, n, p, false);
  }

  /** Stripping an exponent text keeps the number it denotes. */
  lemma StripExp(t: string, m: nat, p: nat, x: int, upper: bool, point: int, letter: nat) returns (m': nat, p': nat)
    requires ReadsAsExp(t, m, p, x, false, upper) && SplitsAt(t, point, letter)
    ensures ReadsAsExp(StrippedAt(t, point, letter), m', p', x, false, upper) && Trimmed(m', p', m, p, false)
  {
    var lead, fraction :| ExpPartsRead(t, lead, fraction, m, p, x, false, upper);
    var suffix := ExponentText(x, upper);
    if p == 0 {
      assert t == [lead] + suffix;
      LetterIsAt(t, [lead], suffix, letter);
      NoPointNoStrip(t, point, letter);
      return m, 0;
    }
    var s := StripZeros(fraction);
    assert t == [lead] + "." + fraction + suffix;
    StrippedParts(t, point, letter, [lead], fraction, suffix);
    StripNumber([lead], fraction);
    m', p' := ReadDec([lead] + s), |s|;
    var t' := StrippedAt(t, point, letter);
    assert ExpPartsRead(t', lead, s, m', p', x, false, upper);
  }

  lemma LetterIsAt(t: string, front: string, suffix: string, letter: nat)
    requires t == front + suffix && NoLetter(front) && suffix != [] && IsExponentLetter(suffix[0])
    requires letter <= |t| && NoLetter(t[..letter]) && (letter < |t| ==> IsExponentLetter(t[letter]))
    ensures letter == |front| && t[..letter] == front
  {
    assert t[|front|] == suffix[0];
    if letter > |front| { assert IsExponentLetter(t[..letter][|front|]); }
  }

  /** The exponent that is parsed out of an exponent text is the one that was printed. */
  lemma ParsedIsPrinted(t: string, m: nat, p: nat, x: int, alternate: bool, upper: bool)
    requires ReadsAsExp(t, m, p, x, alternate, upper) && Abs(x) <= INT32_MAX
    ensures ExponentIs(t, x)
    ensures forall y :: ExponentIs(t, y) ==> y == x
  {
    var lead, fraction :| ExpPartsRead(t, lead, fraction, m, p, x, alternate, upper);
    var mantissa := [lead] + (if p > 0 || alternate then "." + fraction else "");
    assert t == mantissa + ExponentText(x, upper);
    ExponentIsThere(mantissa, x, upper);
    forall y | ExponentIs(t, y) ensures y == x {
      ExponentReadsBack(mantissa, x, upper, y);
    }
  }

  // ---- the whole body -----------------------------------------------------------------------

  ghost function GeneralMantissa(parts: FormatBinaryFloat, e: int, significant: nat): nat
    requires significant > 0
  {
    if parts.zero then 0 else ExpMantissa(parts, e, significant - 1)
  }

  ghost function GeneralExponent(parts: FormatBinaryFloat, e: int, significant: nat): int
    requires significant > 0
  {
    if parts.zero then 0 else ExpExponent(parts, e, significant - 1)
  }

  /** The fixed style rewrite prints the very integer that the exponent style printed. */
  lemma SameInteger(parts: FormatBinaryFloat, e: int, significant: nat, places: nat)
    requires parts.Consistent() && significant > 0 && (!parts.zero ==> InDecade(parts, e))
    requires places == significant - 1 - GeneralExponent(parts, e, significant)
    ensures FixedNumber(parts, places) == GeneralMantissa(parts, e, significant)
  {
    if parts.zero {
      ZeroScaled(parts, places);
    } else {
      PrintedIsNearest(parts, e, significant - 1);
    }
  }

  /**
   t denotes mantissa * 10^(exponent - significant + 1), in fixed style exactly when the exponent
   is at least -4 and below the number of significant digits, without trailing zeros unless asked for.
   */
  ghost predicate ReadsAsGeneral(t: string, mantissa: nat, exponent: int, significant: nat, alternate: bool, upper: bool)
    requires significant > 0
  {
    if -4 <= exponent < significant
    then exists n: nat, p: nat ::
      ReadsAsFixed(t, n, p, alternate) && Trimmed(n, p, mantissa, significant - 1 - exponent, alternate)
    else exists m: nat, p: nat ::
      ReadsAsExp(t, m, p, exponent, alternate, upper) && Trimmed(m, p, mantissa, significant - 1, alternate)
  }

  /** The text of |value| in general style. */
  ghost function GeneralBody(parts: FormatBinaryFloat, e: int, significant: nat, alternate: bool, upper: bool): string
    requires significant > 0 && (!parts.zero ==> InDecade(parts, e))
  {
    var x := GeneralExponent(parts, e, significant);
    var t := if -4 <= x < significant then FixedBody(parts, significant - 1 - x, alternate)
             else ExpBody(parts, e, significant - 1, alternate, upper);
    if alternate then t else Stripped(t)
  }

  /** The estimate of the exponent matters only for a nonzero value below one. */
  ghost predicate EstimateServes(parts: FormatBinaryFloat, e: int, estimate: int) {
    !parts.zero && e < 0 ==> GoodEstimate(estimate, e)
  }

  ghost predicate GeneralFits(parts: FormatBinaryFloat, e: int, significant: nat, words: nat, capacity: nat)
    requires significant > 0
  {
    var x := GeneralExponent(parts, e, significant);
    && significant + 5 <= capacity
    && (!parts.zero ==> ExpBodyFits(parts, e, significant - 1, words, capacity))
    && (-4 <= x < significant ==> FixedFits(parts, significant - 1 - x, words, capacity))
  }

  method GenerateGeneralBody(parts: FormatBinaryFloat, significant: nat, alternate: bool, upper: bool, estimate: int,
                             buffer: array<char>, capacity: nat, integer: FormatBigUInt, ghost e: int) returns (r: Result<nat>)
    requires parts.Consistent() && integer.words.Length >= 4
    requires !parts.zero ==> InDecade(parts, e) && Abs(e) < INT32_MAX
    requires 0 < significant <= capacity <= buffer.Length
    modifies buffer, integer`len, integer.words
    ensures r.Ok? ==> r.value <= buffer.Length
    ensures r.Ok? ==> ReadsAsGeneral(buffer[..r.value], GeneralMantissa(parts, e, significant),
                                     GeneralExponent(parts, e, significant), significant, alternate, upper)
    ensures r.Ok? ==> buffer[..r.value] == GeneralBody(parts, e, significant, alternate, upper)
    ensures r.Ok? ==> EstimateServes(parts, e, estimate)
    ensures SearchFails(parts, e, estimate, integer.words.Length) ==> r == Err(SearchFrom(parts, estimate, integer.words.Length).errno)
    ensures EstimateServes(parts, e, estimate) && GeneralFits(parts, e, significant, integer.words.Length, capacity) ==> r.Ok?
  {
    hide ReadsAsGeneral;
    hide ReadsAsFixed;
    hide ReadsAsExp;
    hide FixedBody;
    hide ExpBody;
    hide Stripped;
    hide FixedFits;
    hide ExpBodyFits;
    hide InDecade;
    hide SearchFrom;
    hide GoodEstimate;
    hide GeneralMantissa;
    hide GeneralExponent;
    ghost var m, x := GeneralMantissa(parts, e, significant), GeneralExponent(parts, e, significant);
    var printed :- ExponentStage(parts, significant, alternate, upper, estimate, buffer, capacity, integer, e);
    var (len, exponent) := printed;
    if -4 <= exponent < significant {
      len :- RewriteFixed(parts, significant, significant - (exponent + 1), alternate, buffer, capacity, integer, e);
    }
    if !alternate {
      len := StripGeneral(buffer, len, m, x, significant, upper);
    } else {
      AlternateReads(buffer[..len], m, x, significant, upper);
    }
    return Ok(len);
  }

  /** Prints the same number again, in fixed style. */
  method RewriteFixed(parts: FormatBinaryFloat, significant: nat, places: nat, alternate: bool, buffer: array<char>,
                      capacity: nat, integer: FormatBigUInt, ghost e: int) returns (r: Result<nat>)
    requires parts.Consistent() && integer.words.Length >= 4
    requires significant > 0 && (!parts.zero ==> InDecade(parts, e))
    requires places == significant - 1 - GeneralExponent(parts, e, significant)
    requires 0 < capacity <= buffer.Length
    modifies buffer, integer`len, integer.words
    ensures r.Ok? ==> r.value <= buffer.Length
    ensures r.Ok? ==> buffer[..r.value] == FixedBody(parts, places, alternate)
    ensures r.Ok? ==> ReadsAsFixed(buffer[..r.value], GeneralMantissa(parts, e, significant), places, alternate)
    ensures FixedFits(parts, places, integer.words.Length, capacity) ==> r.Ok?
  {
    SameInteger(parts, e, significant, places);
    r := GenerateFixedBody(parts, places, alternate, buffer, capacity, integer);
  }

  /** Prints in exponent style and reads the exponent back. */
  method ExponentStage(parts: FormatBinaryFloat, significant: nat, alternate: bool, upper: bool, estimate: int,
                       buffer: array<char>, capacity: nat, integer: FormatBigUInt, ghost e: int) returns (r: Result<(nat, int)>)
    requires parts.Consistent() && integer.words.Length >= 4
    requires !parts.zero ==> InDecade(parts, e) && Abs(e) < INT32_MAX
    requires 0 < significant <= capacity <= buffer.Length
    modifies buffer, integer`len, integer.words
    ensures r.Ok? ==> r.value.0 <= buffer.Length && r.value.1 == GeneralExponent(parts, e, significant)
    ensures r.Ok? ==> ReadsAsExp(buffer[..r.value.0], GeneralMantissa(parts, e, significant), significant - 1,
                                 GeneralExponent(parts, e, significant), alternate, upper)
    ensures r.Ok? ==> buffer[..r.value.0] == ExpBody(parts, e, significant - 1, alternate, upper)
    ensures r.Ok? ==> EstimateServes(parts, e, estimate)
    ensures SearchFails(parts, e, estimate, integer.words.Length) ==> r == Err(SearchFrom(parts, estimate, integer.words.Length).errno)
    ensures EstimateServes(parts, e, estimate) && GeneralFits(parts, e, significant, integer.words.Length, capacity) ==> r.Ok?
  {
    ghost var m, x := GeneralMantissa(parts, e, significant), GeneralExponent(parts, e, significant);
    var len :- GenerateExpBody(parts, significant - 1, alternate, upper, estimate, buffer, capacity, integer, e);
    var parsed := ParseDecimalExponent(buffer, len);
    ParsedIsPrinted(buffer[..len], m, significant - 1, x, alternate, upper);
    return match parsed case Ok(exponent) => Ok((len, exponent)) case Err(errno) => Err(errno);
  }

  lemma AlternateReads(t: string, mantissa: nat, exponent: int, significant: nat, upper: bool)
    requires significant > 0
    requires if -4 <= exponent < significant
             then ReadsAsFixed(t, mantissa, significant - 1 - exponent, true)
             else ReadsAsExp(t, mantissa, significant - 1, exponent, true, upper)
    ensures ReadsAsGeneral(t, mantissa, exponent, significant, true, upper)
  {
    if -4 <= exponent < significant {
      assert Trimmed(mantissa, significant - 1 - exponent, mantissa, significant - 1 - exponent, true);
    } else {
      assert Trimmed(mantissa, significant - 1, mantissa, significant - 1, true);
    }
  }

  /** The text of the general style reads as the rounded value. */
  lemma GeneralTextReads(parts: FormatBinaryFloat, e: int, significant: nat, alternate: bool, upper: bool)
    requires parts.Consistent() && significant > 0 && (!parts.zero ==> InDecade(parts, e))
    ensures ReadsAsGeneral(GeneralBody(parts, e, significant, alternate, upper), GeneralMantissa(parts, e, significant),
                           GeneralExponent(parts, e, significant), significant, alternate, upper)
  {
    hide ReadsAsFixed;
    hide ReadsAsExp;
    hide ReadsAsGeneral;
    hide Stripped;
    hide InDecade;
    var m, x := GeneralMantissa(parts, e, significant), GeneralExponent(parts, e, significant);
    var fixed := -4 <= x < significant;
    var t := if fixed then FixedBody(parts, significant - 1 - x, alternate) else ExpBody(parts, e, significant - 1, alternate, upper);
    if fixed {
      SameInteger(parts, e, significant, significant - 1 - x);
      FixedTextReads(m, significant - 1 - x, alternate);
    } else {
      ExpTextReads(parts, e, significant - 1, alternate, upper);
    }
    if alternate {
      AlternateReads(t, m, x, significant, upper);
    } else {
      StrippedReads(t, m, x, significant, upper);
    }
  }

  lemma StrippedReads(t: string, mantissa: nat, exponent: int, significant: nat, upper: bool)
    requires significant > 0
    requires if -4 <= exponent < significant
             then ReadsAsFixed(t, mantissa, significant - 1 - exponent, false)
             else ReadsAsExp(t, mantissa, significant - 1, exponent, false, upper)
    ensures ReadsAsGeneral(Stripped(t), mantissa, exponent, significant, false, upper)
  {
    hide ReadsAsFixed;
    hide ReadsAsExp;
    hide StrippedAt;
    hide SplitsAt;
    SplitExists(t);
    var point: int, letter: nat :| SplitsAt(t, point, letter);
    StrippedIs(t, point, letter);
    if -4 <= exponent < significant {
      var n, p := StripFixed(t, mantissa, significant - 1 - exponent, point, letter);
    } else {
      var n, p := StripExp(t, mantissa, significant - 1, exponent, upper, point, letter);
    }
  }

  method StripGeneral(buffer: array<char>, bodyLen: nat, ghost mantissa: nat, ghost exponent: int, ghost significant: nat,
                      ghost upper: bool) returns (len: nat)
    requires significant > 0 && bodyLen <= buffer.Length
    requires if -4 <= exponent < significant
             then ReadsAsFixed(buffer[..bodyLen], mantissa, significant - 1 - exponent, false)
             else ReadsAsExp(buffer[..bodyLen], mantissa, significant - 1, exponent, false, upper)
    modifies buffer
    ensures len <= buffer.Length && buffer[..len] == Stripped(old(buffer[..bodyLen]))
    ensures ReadsAsGeneral(buffer[..len], mantissa, exponent, significant, false, upper)
  {
    ghost var t, point, letter := buffer[..bodyLen], 0, 0;
    len, point, letter := StripTrailingZeros(buffer, bodyLen);
    if -4 <= exponent < significant {
      ghost var n, p := StripFixed(t, mantissa, significant - 1 - exponent, point, letter);
    } else {
      ghost var n, p := StripExp(t, mantissa, significant - 1, exponent, upper, point, letter);
    }
  }
}
