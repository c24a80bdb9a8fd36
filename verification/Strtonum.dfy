/**
 Integers from text and back (cbase/strtonum.c, cbase/numtostr.c): the range error is exact, parsing inverts
 printing, and the saturating parser agrees with the checking one.
 */
module Strtonum {
  import opened Powers
  import opened Results
  import opened Sequences
  import opened IntegerText

  const LLONG_MAX: int := 0x7FFF_FFFF_FFFF_FFFF
  const LLONG_MIN: int := -0x8000_0000_0000_0000

  /** integer_digit_value: -1 for what is no digit in any base. */
  function DigitValue(c: char): (d: int)
    ensures d == if TableValue(c) < 16 then TableValue(c) else -1
  {
    if '0' <= c <= '9' then (c - '0') as int
    else if 'a' <= c <= 'f' then (c - 'a') as int + 10
    else if 'A' <= c <= 'F' then (c - 'A') as int + 10
    else -1
  }

  // ---- what the text denotes ---------------------------------------------------------------

  /** A space, or one of the five control characters from tab to carriage return. */
  predicate IsSpace(c: char) {
    c == ' ' || 9 <= c as int <= 13
  }

  function SkipSpaces(s: string, i: nat): (j: nat)
    requires i <= |s|
    ensures i <= j <= |s|
    decreases |s| - i
  {
    if i < |s| && IsSpace(s[i]) then SkipSpaces(s, i + 1) else i
  }

  /** Sign, base and where the digits start. */
  datatype Header = Header(negative: bool, base: nat, start: nat)

  function SignAt(s: string, i: nat): (r: (bool, nat))
    requires i <= |s|
    ensures i <= r.1 <= |s|
  {
    if i < |s| && (s[i] == '-' || s[i] == '+') then (s[i] == '-', i + 1) else (false, i)
  }

  function BaseAt(s: string, i: nat): (r: (nat, nat))
    requires i <= |s|
    ensures IsBase(r.0) && i <= r.1 <= |s|
  {
    if |s| - i >= 2 && s[i] == '0' then
      if s[i + 1] == 'b' || s[i + 1] == 'B' then (2, i + 2)
      else if s[i + 1] == 'o' || s[i + 1] == 'O' then (8, i + 2)
      else if s[i + 1] == 'x' || s[i + 1] == 'X' then (16, i + 2)
      else (10, i)
    else (10, i)
  }

  function HeaderAt(s: string, i: nat): (h: Header)
    requires i <= |s|
    ensures IsBase(h.base) && h.start <= |s|
  {
    var (negative, j) := SignAt(s, i);
    var (base, start) := BaseAt(s, j);
    Header(negative, base, start)
  }

  /** Where the digits that start at index i end. */
  function DigitsEnd(s: string, i: nat, base: nat): (end: nat)
    requires i <= |s|
    ensures i <= end <= |s| && forall j :: i <= j < end ==> TableValue(s[j]) < base
    ensures end < |s| ==> TableValue(s[end]) >= base
    decreases |s| - i
  {
    if i < |s| && TableValue(s[i]) < base then DigitsEnd(s, i + 1, base) else i
  }

  /** The digits behind the header. */
  ghost function DigitsOf(s: string, h: Header): (d: string)
    requires IsBase(h.base) && h.start <= |s|
    ensures DigitsIn(d, h.base)
  {
    s[h.start..DigitsEnd(s, h.start, h.base)]
  }

  /** The integer the text denotes, without any limit. */
  ghost function TrueValue(s: string, h: Header): int
    requires IsBase(h.base) && h.start <= |s|
  {
    var n := ReadIn(DigitsOf(s, h), h.base);
    if h.negative then 0 - n else n
  }

  predicate InRange(v: int) { LLONG_MIN <= v <= LLONG_MAX }

  /** What parsing the text should give: an error without digits, an error out of range, or value and length. */
  ghost function Parsed(s: string): Result<(int, nat)> {
    ParsedDigits(s, HeaderAt(s, SkipSpaces(s, 0)))
  }

  ghost function ParsedDigits(s: string, h: Header): Result<(int, nat)>
    requires IsBase(h.base) && h.start <= |s|
  {
    if DigitsOf(s, h) == "" then Err(EINVAL)
    else if !InRange(TrueValue(s, h)) then Err(ERANGE)
    else Ok((TrueValue(s, h), DigitsEnd(s, h.start, h.base)))
  }

  // ---- the parts of a text -------------------------------------------------------------------

  /** Space, tab, newline, vertical tab, form feed or carriage return. */
  ghost predicate Blank(c: char) { c in " \t\n\r" || c as int == 11 || c as int == 12 }

  ghost predicate IsSign(t: string) { t == "" || t == "-" || t == "+" }

  /** No mark means base 10. */
  ghost predicate MarkOf(mark: string, base: nat) {
    || (mark == "" && base == 10)
    || ((mark == "0b" || mark == "0B") && base == 2)
    || ((mark == "0o" || mark == "0O") && base == 8)
    || ((mark == "0x" || mark == "0X") && base == 16)
  }

  ghost predicate Marked(t: string) { |t| >= 2 && t[0] == '0' && t[1] in "bBoOxX" }

  /** A text is spaces, a sign, a mark, digits of its base and a rest, each part as long as it can be. */
  ghost predicate HasParts(s: string, spaces: string, sign: string, mark: string, base: nat, digits: string, rest: string) {
    && s == spaces + (sign + (mark + (digits + rest)))
    && (forall i :: 0 <= i < |spaces| ==> Blank(spaces[i])) && IsSign(sign) && MarkOf(mark, base) && DigitsIn(digits, base)
    && (rest != "" ==> TableValue(rest[0]) >= base)
    && (mark == "" ==> !Marked(digits + rest))
    && (sign == "" && mark + digits == "" && rest != "" ==> !Blank(rest[0]) && rest[0] != '-' && rest[0] != '+')
  }

  /** The integer a sign and digits denote. */
  ghost function Denoted(sign: string, digits: string, base: nat): int
    requires IsBase(base) && DigitsIn(digits, base)
  {
    if sign == "-" then 0 - ReadIn(digits, base) else ReadIn(digits, base)
  }

  /** What a parser makes of the parts: nothing without digits or outside 64 bits, else the number and where it ends. */
  ghost function ParsedParts(spaces: string, sign: string, mark: string, base: nat, digits: string): Result<(int, nat)>
    requires IsBase(base) && DigitsIn(digits, base)
  {
    var v := Denoted(sign, digits, base);
    if digits == "" then Err(EINVAL)
    else if v < 0 - Pow(2, 63) || v >= Pow(2, 63) then Err(ERANGE)
    else Ok((v, |spaces| + |sign| + |mark| + |digits|))
  }

  lemma {:induction false} SpacesSkipped(s: string, i: nat, n: nat)
    requires i <= n <= |s| && (forall j :: i <= j < n ==> Blank(s[j])) && (n < |s| ==> !Blank(s[n]))
    ensures SkipSpaces(s, i) == n
    decreases n - i
  {
    if i < n { SpacesSkipped(s, i + 1, n); }
  }

  lemma {:induction false} DigitsTaken(s: string, i: nat, n: nat, base: nat)
    requires i <= n <= |s| && DigitsIn(s[i..n], base) && (n < |s| ==> TableValue(s[n]) >= base)
    ensures DigitsEnd(s, i, base) == n
    decreases n - i
  {
    if i < n {
      assert TableValue(s[i..n][0]) < base && s[i + 1..n] == s[i..n][1..];
      DigitsTaken(s, i + 1, n, base);
    }
  }

  /** Nothing that can follow the spaces is one, and nothing that can follow a missing sign is a sign. */
  lemma NoBlankBehind(sign: string, mark: string, base: nat, digits: string, rest: string)
    requires HasParts(sign + (mark + (digits + rest)), "", sign, mark, base, digits, rest)
    ensures var t := sign + (mark + (digits + rest)); t != "" ==> !Blank(t[0])
    ensures var t := mark + (digits + rest); sign == "" && t != "" ==> t[0] != '-' && t[0] != '+'
  {
    var t := mark + (digits + rest);
    if mark != "" {
      assert t[0] == mark[0] == '0';
    } else if digits != "" {
      assert t == digits + rest && t[0] == digits[0];
      assert TableValue(digits[0]) < 16;
    }
  }

  lemma PartsBehind(s: string, spaces: string, sign: string, mark: string, base: nat, digits: string, rest: string)
    requires HasParts(s, spaces, sign, mark, base, digits, rest)
    ensures IsBase(base) && DigitsIn(digits, base) && HasParts(s[|spaces|..], "", sign, mark, base, digits, rest)
  {
    hide Marked;
    hide TableValue;
    var t := sign + (mark + (digits + rest));
    assert s[|spaces|..] == t && "" + t == t;
  }

  lemma BehindSpaces(s: string, spaces: string, sign: string, mark: string, base: nat, digits: string, rest: string)
    requires HasParts(s, spaces, sign, mark, base, digits, rest)
    ensures SkipSpaces(s, 0) == |spaces| && s[|spaces|..] == sign + (mark + (digits + rest))
  {
    var t := sign + (mark + (digits + rest));
    assert "" + t == t;
    NoBlankBehind(sign, mark, base, digits, rest);
    assert forall i :: 0 <= i < |spaces| ==> s[i] == spaces[i];
    assert s[|spaces|..] == t;
    if t != "" { assert s[|spaces|] == t[0]; }
    SpacesSkipped(s, 0, |spaces|);
  }

  lemma SignTaken(s: string, i: nat, sign: string, t: string)
    requires i <= |s| && s[i..] == sign + t && IsSign(sign) && (sign == "" && t != "" ==> t[0] != '-' && t[0] != '+')
    ensures SignAt(s, i) == (sign == "-", i + |sign|) && s[i + |sign|..] == t
  {
    if i < |s| { assert s[i] == s[i..][0]; }
    assert s[i + |sign|..] == s[i..][|sign|..];
  }

  lemma MarkTaken(s: string, j: nat, mark: string, base: nat, t: string)
    requires j <= |s| && s[j..] == mark + t && MarkOf(mark, base) && (mark == "" ==> !Marked(t))
    ensures BaseAt(s, j) == (base, j + |mark|) && s[j + |mark|..] == t
  {
    var u := s[j..];
    if |u| >= 2 { assert s[j] == u[0] && s[j + 1] == u[1]; }
    if mark == "" {
      assert u == t;
    } else {
      assert u[0] == mark[0] && u[1] == mark[1];
    }
    assert s[j + |mark|..] == u[|mark|..];
  }

  lemma DigitsHere(s: string, k: nat, base: nat, digits: string, rest: string)
    requires k <= |s| && s[k..] == digits + rest && DigitsIn(digits, base) && (rest != "" ==> TableValue(rest[0]) >= base)
    ensures DigitsEnd(s, k, base) == k + |digits| && s[k..k + |digits|] == digits
  {
    assert s[k..k + |digits|] == s[k..][..|digits|] == digits;
    if rest != "" { assert s[k + |digits|] == s[k..][|digits|]; }
    DigitsTaken(s, k, k + |digits|, base);
  }

  /** Sign and base are taken as the parts say, and so are the digits. */
  lemma HeaderTaken(s: string, i: nat, sign: string, mark: string, base: nat, digits: string, rest: string)
    requires i <= |s| && HasParts(s[i..], "", sign, mark, base, digits, rest)
    ensures var h := HeaderAt(s, i);
            && h == Header(sign == "-", base, i + |sign| + |mark|)
            && IsBase(base) && DigitsOf(s, h) == digits && DigitsEnd(s, h.start, base) == h.start + |digits|
  {
    hide HasParts;
    hide MarkOf;
    hide Marked;
    hide IsSign;
    hide TableValue;
    hide SignAt;
    hide BaseAt;
    hide DigitsEnd;
    hide DigitsIn;
    hide HeaderAt;
    hide DigitsOf;
    ghost var t := s[i..];
    PartsFacts(t, sign, mark, base, digits, rest);
    SignTaken(s, i, sign, mark + (digits + rest));
    TakeMark(s, i + |sign|, mark, base, digits, rest, digits + rest);
    HeaderFrom(s, i, sign == "-", i + |sign|, base, i + |sign| + |mark|, i + |sign| + |mark| + |digits|);
  }

  lemma TakeMark(s: string, j: nat, mark: string, base: nat, digits: string, rest: string, v: string)
    requires j <= |s| && s[j..] == mark + v && v == digits + rest
    requires MarkOf(mark, base) && IsBase(base) && DigitsIn(digits, base)
    requires (rest != "" ==> TableValue(rest[0]) >= base) && (mark == "" ==> !Marked(v))
    ensures var k := j + |mark|;
            && k + |digits| <= |s| && BaseAt(s, j) == (base, k) && DigitsEnd(s, k, base) == k + |digits| && s[k..k + |digits|] == digits
  {
    hide MarkOf;
    hide Marked;
    hide TableValue;
    hide BaseAt;
    hide DigitsEnd;
    hide DigitsIn;
    MarkTaken(s, j, mark, base, v);
    DigitsHere(s, j + |mark|, base, digits, rest);
  }

  lemma HeaderFrom(s: string, i: nat, negative: bool, j: nat, base: nat, k: nat, end: nat)
    requires i <= j <= |s| && k <= |s| && IsBase(base)
    requires SignAt(s, i) == (negative, j) && BaseAt(s, j) == (base, k) && DigitsEnd(s, k, base) == end
    ensures HeaderAt(s, i) == Header(negative, base, k) && DigitsOf(s, HeaderAt(s, i)) == s[k..end]
  {
  }

  lemma PartsFacts(t: string, sign: string, mark: string, base: nat, digits: string, rest: string)
    requires HasParts(t, "", sign, mark, base, digits, rest)
    ensures t == sign + (mark + (digits + rest)) && IsSign(sign) && MarkOf(mark, base) && IsBase(base) && DigitsIn(digits, base)
    ensures (rest != "" ==> TableValue(rest[0]) >= base) && (mark == "" ==> !Marked(digits + rest))
    ensures var u := mark + (digits + rest); sign == "" && u != "" ==> u[0] != '-' && u[0] != '+'
  {
    hide Marked;
    assert "" + t == t;
    NoBlankBehind(sign, mark, base, digits, rest);
  }

  lemma BasesAre(mark: string, base: nat)
    requires MarkOf(mark, base)
    ensures IsBase(base)
  {
  }

  lemma LimitsArePowers()
    ensures Pow(2, 63) == -LLONG_MIN == LLONG_MAX + 1
  {
    TwoTo64();
    assert Pow(2, 64) == 2 * Pow(2, 63);
  }

  /** What the parsers are to give follows from the parts of the text alone. */
  lemma PartsParse(s: string, spaces: string, sign: string, mark: string, base: nat, digits: string, rest: string)
    requires HasParts(s, spaces, sign, mark, base, digits, rest)
    ensures Parsed(s) == ParsedParts(spaces, sign, mark, base, digits)
    ensures spaces == "" ==> TrueValue(s, HeaderAt(s, 0)) == Denoted(sign, digits, base)
  {
    hide HasParts;
    hide HeaderAt;
    hide SkipSpaces;
    hide DigitsEnd;
    hide DigitsOf;
    hide DigitsIn;
    hide ReadIn;
    hide Pow;
    LimitsArePowers();
    BehindSpaces(s, spaces, sign, mark, base, digits, rest);
    PartsBehind(s, spaces, sign, mark, base, digits, rest);
    HeaderTaken(s, |spaces|, sign, mark, base, digits, rest);
    if spaces == "" { assert s[0..] == s; }
  }

  /** Every text has such parts. */
  lemma PartsExist(s: string) returns (spaces: string, sign: string, mark: string, base: nat, digits: string, rest: string)
    ensures HasParts(s, spaces, sign, mark, base, digits, rest)
  {
    hide Blank;
    hide Marked;
    hide MarkOf;
    hide TableValue;
    hide SkipSpaces;
    hide SignAt;
    hide BaseAt;
    hide DigitsEnd;
    hide HasParts;
    hide IsSign;
    var i := SkipSpaces(s, 0);
    var (negative, j) := SignAt(s, i);
    var b: (nat, nat) := BaseAt(s, j);
    var end := DigitsEnd(s, b.1, b.0);
    base := b.0;
    spaces, sign, mark, digits, rest := s[..i], s[i..j], s[j..b.1], s[b.1..end], s[end..];
    SkippedAreBlank(s, 0);
    SignIs(s, i);
    MarkIs(s, j);
    FiveCuts(s, i, j, b.1, end);
    TailStarts(s, i, j, b.1, end);
    MakeParts(s, i, j, b.1, end, base);
  }

  lemma TailStarts(s: string, i: nat, j: nat, k: nat, end: nat)
    requires i <= j <= k <= end <= |s|
    ensures end < |s| ==> s[end..][0] == s[end]
    ensures i < |s| && i == j && j == k && k == end ==> s[end..][0] == s[i]
    ensures forall n :: 0 <= n < i ==> s[..i][n] == s[n]
    ensures forall n :: 0 <= n < end - k ==> s[k..end][n] == s[k + n]
  {
  }

  lemma MakeParts(s: string, i: nat, j: nat, k: nat, end: nat, base: nat)
    requires i <= j <= k <= end <= |s|
    requires s == s[..i] + (s[i..j] + (s[j..k] + (s[k..end] + s[end..])))
    requires (forall n :: 0 <= n < i ==> Blank(s[..i][n])) && IsSign(s[i..j]) && MarkOf(s[j..k], base) && DigitsIn(s[k..end], base)
    requires (end < |s| ==> TableValue(s[end..][0]) >= base) && (j == k ==> !Marked(s[k..end] + s[end..]))
    requires i == j && j == k && k == end && end < |s| ==> !Blank(s[end..][0]) && s[end..][0] != '-' && s[end..][0] != '+'
    ensures HasParts(s, s[..i], s[i..j], s[j..k], base, s[k..end], s[end..])
  {
    hide Blank;
    hide Marked;
    hide MarkOf;
    hide IsSign;
    hide TableValue;
  }

  lemma FiveCuts(s: string, i: nat, j: nat, k: nat, end: nat)
    requires i <= j <= k <= end <= |s|
    ensures s == s[..i] + (s[i..j] + (s[j..k] + (s[k..end] + s[end..]))) && s[k..end] + s[end..] == s[k..]
  {
  }

  lemma SignIs(s: string, i: nat)
    requires i <= |s|
    ensures IsSign(s[i..SignAt(s, i).1]) && (SignAt(s, i).1 == i && i < |s| ==> s[i] != '-' && s[i] != '+')
  {
    if SignAt(s, i).1 == i + 1 { assert s[i..i + 1] == [s[i]]; }
  }

  lemma {:induction false} SkippedAreBlank(s: string, i: nat)
    requires i <= |s|
    ensures var n := SkipSpaces(s, i); (forall j :: i <= j < n ==> Blank(s[j])) && (n < |s| ==> !Blank(s[n]))
    decreases |s| - i
  {
    if i < |s| && IsSpace(s[i]) { SkippedAreBlank(s, i + 1); }
  }

  lemma MarkIs(s: string, j: nat)
    requires j <= |s|
    ensures var (base, k) := BaseAt(s, j); MarkOf(s[j..k], base) && (k == j ==> !Marked(s[j..]))
  {
    var (base, k) := BaseAt(s, j);
    if k == j + 2 { assert s[j..k] == [s[j], s[j + 1]]; }
  }

  /** In particular: a sign, a mark and the digits of n in the base of the mark, in either case, give n back. */
  lemma MarkedTextParses(sign: string, mark: string, base: nat, n: nat, upper: bool)
    requires IsSign(sign) && MarkOf(mark, base) && IsBase(base)
    ensures var s, v := sign + (mark + NumberText(n, base, upper)), if sign == "-" then 0 - n else n;
            && Parsed(s) == (if v < 0 - Pow(2, 63) || v >= Pow(2, 63) then Err(ERANGE) else Ok((v, |s|)))
            && TrueValue(s, HeaderAt(s, 0)) == v
  {
    hide HeaderAt;
    hide Parsed;
    hide TrueValue;
    hide ReadIn;
    hide Pow;
    BasesAre(mark, base);
    var digits := NumberText(n, base, upper);
    NumberTextReads(n, base, upper);
    NeverMarked(n, base, upper);
    hide NumberText;
    hide Marked;
    var s := sign + (mark + digits);
    assert digits + "" == digits && "" + s == s;
    assert HasParts(s, "", sign, mark, base, digits, "");
    hide HasParts;
    PartsParse(s, "", sign, mark, base, digits, "");
  }

  lemma NeverMarked(n: nat, base: nat, upper: bool)
    requires IsBase(base)
    ensures base == 10 ==> !Marked(NumberText(n, base, upper))
  {
    NumberTextReads(n, base, upper);
    if n == 0 { assert |NumberText(n, base, upper)| == 1; }
  }

  // ---- the parser ----------------------------------------------------------------------------

  /** The range check of the code, on the magnitude: one more digit would go beyond the limit. */
  lemma RangeCheck(m: nat, digit: nat, base: nat, limit: nat)
    requires IsBase(base) && digit < base && limit >= 16
    ensures 0 - m < TruncatedDiv(0 - limit + digit, base) <==> Times(m, base) + digit > limit
  {
  }

  lemma {:induction false} MoreDigitsMore(s: string, k: nat, base: nat)
    requires IsBase(base) && DigitsIn(s, base) && k <= |s|
    ensures DigitsIn(s[..k], base) && ReadIn(s[..k], base) <= ReadIn(s, base)
  {
    if k == |s| {
      assert s[..k] == s;
    } else {
      MoreDigitsMore(s[..|s| - 1], k, base);
      assert s[..|s| - 1][..k] == s[..k];
    }
  }

  lemma NextDigit(s: string, from: nat, i: nat, end: nat, base: nat)
    requires IsBase(base) && from <= i < end <= |s| && DigitsIn(s[from..end], base)
    ensures DigitsIn(s[from..i], base) && DigitsIn(s[from..i + 1], base) && TableValue(s[i]) < base
    ensures ReadIn(s[from..i + 1], base) == Times(ReadIn(s[from..i], base), base) + TableValue(s[i]) <= ReadIn(s[from..end], base)
  {
    var digits := s[from..end];
    assert digits[i - from] == s[i];
    MoreDigitsMore(digits, i - from, base);
    MoreDigitsMore(digits, i + 1 - from, base);
    assert digits[..i - from] == s[from..i];
    assert digits[..i + 1 - from] == s[from..i + 1];
    assert s[from..i + 1] == s[from..i] + [s[i]];
    ReadSnoc(s[from..i], s[i], base);
  }

  lemma NothingRead(s: string, i: nat, base: nat)
    requires IsBase(base) && i <= |s|
    ensures s[i..i] == "" && DigitsIn(s[i..i], base) && ReadIn(s[i..i], base) == 0
  {
  }

  lemma EndStep(s: string, i: nat, base: nat)
    requires i <= |s|
    ensures DigitsEnd(s, i, base) == if i < |s| && TableValue(s[i]) < base then DigitsEnd(s, i + 1, base) else i
  {
  }

  /** The digit loop of parse_integer. */
  method ParseDigits(s: string, h: Header) returns (r: Result<(int, nat)>)
    requires IsBase(h.base) && h.start <= |s|
    ensures r == ParsedDigits(s, h)
  {
    hide ReadIn;
    hide Times;
    hide TruncatedDiv;
    hide DigitsEnd;
    hide TableValue;
    var limit := if h.negative then LLONG_MIN else -LLONG_MAX;
    var value := 0;
    var i := h.start;
    ghost var end := DigitsEnd(s, h.start, h.base);
    NothingRead(s, i, h.base);
    while i < |s|
      invariant h.start <= i <= end && DigitsEnd(s, i, h.base) == end && DigitsIn(s[h.start..end], h.base)
      invariant DigitsIn(s[h.start..i], h.base) && value == 0 - ReadIn(s[h.start..i], h.base) && limit <= value <= 0
    {
      var digit := DigitValue(s[i]);
      EndStep(s, i, h.base);
      if digit < 0 || digit >= h.base { break; }
      NextDigit(s, h.start, i, end, h.base);
      RangeCheck(0 - value, digit, h.base, 0 - limit);
      if value < TruncatedDiv(limit + digit, h.base) {
        return Err(ERANGE);
      }
      value := 0 - Times(0 - value, h.base) - digit;
      i := i + 1;
    }
    EndStep(s, i, h.base);
    return if i == h.start then Err(EINVAL) else Ok((if h.negative then value else 0 - value, i));
  }

  lemma PartsTell(s: string)
    ensures forall spaces: string, sign: string, mark: string, base: nat, digits: string, rest: string ::
      HasParts(s, spaces, sign, mark, base, digits, rest) ==>
        IsBase(base) && DigitsIn(digits, base) && Parsed(s) == ParsedParts(spaces, sign, mark, base, digits)
        && (spaces == "" ==> TrueValue(s, HeaderAt(s, 0)) == Denoted(sign, digits, base))
  {
    hide HasParts;
    forall spaces: string, sign: string, mark: string, base: nat, digits: string, rest: string
      | HasParts(s, spaces, sign, mark, base, digits, rest)
      ensures IsBase(base) && DigitsIn(digits, base) && Parsed(s) == ParsedParts(spaces, sign, mark, base, digits)
      ensures spaces == "" ==> TrueValue(s, HeaderAt(s, 0)) == Denoted(sign, digits, base)
    {
      PartsBase(s, spaces, sign, mark, base, digits, rest);
      PartsParse(s, spaces, sign, mark, base, digits, rest);
    }
  }

  lemma PartsBase(s: string, spaces: string, sign: string, mark: string, base: nat, digits: string, rest: string)
    requires HasParts(s, spaces, sign, mark, base, digits, rest)
    ensures IsBase(base) && DigitsIn(digits, base)
  {
  }

  /** parse_integer on the bytes it may read. */
  method ParseInteger(s: string) returns (r: Result<(int, nat)>)
    ensures r == Parsed(s)
    ensures forall spaces: string, sign: string, mark: string, base: nat, digits: string, rest: string ::
      HasParts(s, spaces, sign, mark, base, digits, rest) ==> r == ParsedParts(spaces, sign, mark, base, digits)
  {
    hide HasParts;
    PartsTell(s);
    var i := 0;
    while i < |s| && IsSpace(s[i])
      invariant i <= |s| && SkipSpaces(s, i) == SkipSpaces(s, 0)
    {
      i := i + 1;
    }
    r := ParseDigits(s, HeaderAt(s, i));
  }

  // ---- the saturating parser --------------------------------------------------------------------

  datatype AtoiLimit = AtoiLimit(quotient: int, remainder: nat, overflowResult: int)

  /** The table of limits, by base and sign. */
  function LimitOf(base: nat, negative: bool): AtoiLimit
    requires IsBase(base)
  {
    if negative then AtoiLimit(TruncatedDiv(LLONG_MIN, base), (-LLONG_MIN) % base, LLONG_MIN)
    else AtoiLimit(TruncatedDiv(-LLONG_MAX, base), LLONG_MAX % base, LLONG_MAX)
  }

  /** atoi_would_overflow */
  predicate WouldOverflow(value: int, digit: nat, limit: AtoiLimit) {
    value < limit.quotient || (value == limit.quotient && digit > limit.remainder)
  }

  lemma LimitIsExact(value: int, digit: nat, base: nat, negative: bool)
    requires IsBase(base) && digit < base && value <= 0
    ensures WouldOverflow(value, digit, LimitOf(base, negative))
      <==> 0 - Times(0 - value, base) - digit < (if negative then LLONG_MIN else -LLONG_MAX)
    ensures LimitOf(base, negative).overflowResult == if negative then LLONG_MIN else LLONG_MAX
  {
  }

  lemma NoDigit()
    ensures TableValue('\0') == 16
  {
  }

  /** Clamping keeps what fits 64 bits and goes to the nearer end otherwise. */
  lemma ClampedIs(v: int)
    ensures 0 - Pow(2, 63) <= Clamped(v) < Pow(2, 63)
    ensures Clamped(v) == v <==> 0 - Pow(2, 63) <= v < Pow(2, 63)
    ensures v >= Pow(2, 63) ==> Clamped(v) == Pow(2, 63) - 1
    ensures v < 0 - Pow(2, 63) ==> Clamped(v) == 0 - Pow(2, 63)
  {
    LimitsArePowers();
  }

  function Clamped(v: int): int {
    if v < LLONG_MIN then LLONG_MIN else if v > LLONG_MAX then LLONG_MAX else v
  }

  /** atoi_impl with base detection and saturation, on a terminated string. */
  method AtoiBaseSat(s: string) returns (r: int)
    requires '\0' !in s
    ensures r == Clamped(TrueValue(s, HeaderAt(s, 0)))
    ensures forall sign: string, mark: string, base: nat, digits: string, rest: string ::
      HasParts(s, "", sign, mark, base, digits, rest) ==> r == Clamped(Denoted(sign, digits, base))
  {
    hide HasParts;
    PartsTell(s);
    hide ReadIn;
    hide Times;
    hide WouldOverflow;
    hide LimitOf;
    hide DigitsEnd;
    hide TableValue;
    var h := HeaderAt(s, 0);
    NothingRead(s, h.start, h.base);
    EndStep(s, h.start, h.base);
    if s == "" { return 0; }
    var limit := LimitOf(h.base, h.negative);
    var value := 0;
    var i := h.start;
    ghost var end := DigitsEnd(s, h.start, h.base);
    while true
      invariant h.start <= i <= end && DigitsEnd(s, i, h.base) == end && DigitsIn(s[h.start..end], h.base)
      invariant DigitsIn(s[h.start..i], h.base) && value == 0 - ReadIn(s[h.start..i], h.base)
      invariant (if h.negative then LLONG_MIN else -LLONG_MAX) <= value <= 0
      decreases |s| - i
    {
      var digit := DigitValue(At(s, i));
      EndStep(s, i, h.base);
      NoDigit();
      if digit < 0 || digit >= h.base { break; }
      NextDigit(s, h.start, i, end, h.base);
      LimitIsExact(value, digit, h.base, h.negative);
      if WouldOverflow(value, digit, limit) {
        return limit.overflowResult;
      }
      value := 0 - Times(0 - value, h.base) - digit;
      i := i + 1;
    }
    return if h.negative then value else 0 - value;
  }

  /**
   What the two parsers give for the same text fits together: where one gives a value so does the other, where
   one reports a range error the other saturates, and where there are no digits the other gives zero.
   */
  ghost predicate Agree(s: string) {
    var saturated := Clamped(TrueValue(s, HeaderAt(s, 0)));
    match Parsed(s)
    case Ok((v, _)) => saturated == v
    case Err(errno) => if errno == ERANGE then saturated == LLONG_MIN || saturated == LLONG_MAX else saturated == 0
  }

  /** Only parse_integer skips spaces: the other parser finds no digit where a space stands. */
  lemma SpaceIsNoDigit(s: string)
    requires s != "" && IsSpace(s[0])
    ensures DigitsOf(s, HeaderAt(s, 0)) == "" && TrueValue(s, HeaderAt(s, 0)) == 0
  {
    EndStep(s, 0, 10);
    NothingRead(s, 0, 10);
  }

  /** The parsers agree exactly on text without a leading space, and on text that denotes zero behind its spaces. */
  lemma ParsersAgree(s: string)
    ensures Agree(s) <==> s == "" || !IsSpace(s[0]) || TrueValue(s, HeaderAt(s, SkipSpaces(s, 0))) == 0
  {
    if s != "" && IsSpace(s[0]) {
      SpaceIsNoDigit(s);
      var h := HeaderAt(s, SkipSpaces(s, 0));
      NothingRead(s, h.start, h.base);
    }
  }

  /** One leading space is enough to make the parsers differ. */
  lemma LeadingSpaceDiffers()
    ensures Parsed(" 7") == Ok((7, 2)) && Clamped(TrueValue(" 7", HeaderAt(" 7", 0))) == 0 && !Agree(" 7")
  {
    var s := " 7";
    SpaceIsNoDigit(s);
    assert SkipSpaces(s, 0) == SkipSpaces(s, 1) == 1;
    assert HeaderAt(s, 1) == Header(false, 10, 1);
    EndStep(s, 1, 10);
    EndStep(s, 2, 10);
    assert s[1..2] == "" + [s[1]];
    ReadOneIn('7', 10);
    assert s[1..2] == ['7'];
    assert DigitsOf(s, HeaderAt(s, 1)) == ['7'];
  }

  // ---- printing --------------------------------------------------------------------------------

  function Magnitude(num: int): nat { if num < 0 then -num else num }

  /** The text of a signed integer. */
  ghost function SignedText(num: int): string {
    (if num < 0 then "-" else "") + NumberText(Magnitude(num), 10, false)
  }

  lemma LastDigitFirst(text: string, done: string, rest: nat)
    requires text == done + Backwards(NumberText(rest, 10, false))
    ensures text == done + [DigitTable(rest % 10, false)] + Backwards(Remaining(rest / 10, 10, false))
    ensures |done| < |text|
  {
    var c := DigitTable(rest % 10, false);
    var left := Remaining(rest / 10, 10, false);
    assert NumberText(rest, 10, false) == left + [c];
    BackwardsSnoc(left, c);
    assert done + ([c] + Backwards(left)) == done + [c] + Backwards(left);
  }

  lemma NineteenDigits(magnitude: nat)
    requires magnitude <= -LLONG_MIN
    ensures |NumberText(magnitude, 10, false)| <= 19
  {
    PowAdd(10, 9, 10);
    assert Pow(10, 9) == 10_0000_0000;
    PowAdd(10, 5, 5);
    assert Pow(10, 5) == 10_0000;
    NumberTextLength(magnitude, 10, false, 19);
  }

  /** Reverses the first n bytes in place. */
  method ReverseBytes(buffer: array<char>, n: nat)
    requires n <= buffer.Length
    modifies buffer
    ensures buffer[..n] == Backwards(old(buffer[..n])) && buffer[n..] == old(buffer[n..])
  {
    ghost var before := buffer[..n];
    var j := 0;
    while j < n / 2
      invariant j <= n / 2 && buffer[n..] == old(buffer[n..])
      invariant forall k :: 0 <= k < j ==> buffer[k] == before[n - 1 - k] && buffer[n - 1 - k] == before[k]
      invariant forall k :: j <= k < n - j ==> buffer[k] == before[k]
    {
      buffer[j], buffer[n - j - 1] := buffer[n - j - 1], buffer[j];
      j := j + 1;
    }
    forall k | 0 <= k < n ensures buffer[..n][k] == Backwards(before)[k] {
      BackwardsAt(before, n - 1 - k);
    }
  }

  /** The do-while loop of itoa2: the digits, last one first. */
  method DigitsBackwards(buffer: array<char>, magnitude: nat) returns (i: nat)
    requires buffer.Length >= 22 && magnitude <= -LLONG_MIN
    modifies buffer
    ensures i <= 19 && buffer[..i] == Backwards(NumberText(magnitude, 10, false))
  {
    hide NumberText;
    ghost var text := Backwards(NumberText(magnitude, 10, false));
    NineteenDigits(magnitude);
    var rest := magnitude;
    i := 0;
    while true
      invariant i <= 19 && |text| <= 19 && text == buffer[..i] + Backwards(NumberText(rest, 10, false))
      decreases rest
    {
      LastDigitFirst(text, buffer[..i], rest);
      ghost var before := buffer[..i];
      buffer[i] := (rest % 10) as char + '0';
      assert buffer[..i + 1] == before + [DigitTable(rest % 10, false)];
      i := i + 1;
      rest := rest / 10;
      if rest == 0 {
        assert buffer[..i] + [] == buffer[..i];
        break;
      }
    }
  }

  lemma SignInFront(num: int)
    ensures num < 0 ==> Backwards(Backwards(NumberText(Magnitude(num), 10, false)) + "-") == SignedText(num)
    ensures num >= 0 ==> Backwards(Backwards(NumberText(Magnitude(num), 10, false))) == SignedText(num)
  {
    var t := NumberText(Magnitude(num), 10, false);
    TwiceBackwards(t);
    BackwardsSnoc(Backwards(t), '-');
    assert "" + t == t;
  }

  lemma TwiceBackwards(s: string)
    ensures Backwards(Backwards(s)) == s
  {
    forall i | 0 <= i < |s| ensures Backwards(Backwards(s))[i] == s[i] {
      BackwardsAt(s, i);
      BackwardsAt(Backwards(s), |s| - 1 - i);
    }
  }

  /** itoa2 */
  method Itoa2(buffer: array<char>, num: int) returns (len: nat)
    requires buffer.Length >= 22 && InRange(num)
    modifies buffer
    ensures len <= 20 && buffer[..len] == SignedText(num) && buffer[len] == '\0'
  {
    hide NumberText;
    hide Backwards;
    var magnitude := if num < 0 then -(num + 1) + 1 else num;
    var i := DigitsBackwards(buffer, magnitude);
    SignInFront(num);
    if num < 0 {
      ghost var before := buffer[..i];
      buffer[i] := '-';
      assert buffer[..i + 1] == before + "-";
      i := i + 1;
    }
    ghost var before := buffer[..i];
    buffer[i] := '\0';
    assert buffer[..i] == before;
    ReverseBytes(buffer, i);
    assert buffer[i] == buffer[i..][0];
    return i;
  }

  /** Parsing the text of any int64 gives it back, and reads the text to its end. */
  lemma ParseInvertsPrint(num: int)
    requires InRange(num)
    ensures Parsed(SignedText(num)) == Ok((num, |SignedText(num)|))
  {
    var s := SignedText(num);
    var h := Header(num < 0, 10, if num < 0 then 1 else 0);
    SignedHeader(num);
    NumberTextReads(Magnitude(num), 10, false);
    assert s[h.start..] == NumberText(Magnitude(num), 10, false);
    WholeText(s, h, num);
  }

  /** When everything behind the header is digits, all of it is read. */
  lemma WholeText(s: string, h: Header, num: int)
    requires h.base == 10 && h.start < |s| && DigitsIn(s[h.start..], 10) && HeaderAt(s, SkipSpaces(s, 0)) == h
    requires InRange(num) && h.negative == (num < 0) && ReadIn(s[h.start..], 10) == Magnitude(num)
    ensures Parsed(s) == Ok((num, |s|))
  {
    hide HeaderAt;
    AllDigitsRead(s, h.start, 10);
    assert DigitsOf(s, h) == s[h.start..];
  }

  /** The text starts with an optional sign and has no mark of a base. */
  lemma SignedHeader(num: int)
    ensures var s := SignedText(num);
            HeaderAt(s, SkipSpaces(s, 0)) == Header(num < 0, 10, if num < 0 then 1 else 0)
  {
    var digits, s := NumberText(Magnitude(num), 10, false), SignedText(num);
    NumberTextReads(Magnitude(num), 10, false);
    FirstIsDigit(digits);
    if num == 0 { assert digits == "0"; }
    hide NumberText;
    var from := if num < 0 then 1 else 0;
    assert s[from] == digits[0] && |s| == from + |digits|;
  }

  lemma FirstIsDigit(s: string)
    requires s != "" && DigitsIn(s, 10)
    ensures !IsSpace(s[0]) && s[0] != '-' && s[0] != '+'
  {
    assert TableValue(s[0]) < 10;
  }

  lemma {:induction false} AllDigitsRead(s: string, i: nat, base: nat)
    requires i <= |s| && DigitsIn(s[i..], base)
    ensures DigitsEnd(s, i, base) == |s|
    decreases |s| - i
  {
    if i < |s| {
      assert TableValue(s[i..][0]) < base;
      assert s[i + 1..] == s[i..][1..];
      AllDigitsRead(s, i + 1, base);
    }
  }
}
