/** The digits of an unsigned integer in the bases the formatter knows. */
module IntegerText {
  import opened Powers
  import opened Bits
  import opened Decimal
  import opened Words
  import opened Sequences

  predicate IsBase(base: nat) { base == 2 || base == 8 || base == 10 || base == 16 }

  /** n / base and n % base, one base at a time so that each case is linear. */
  function Quotient(n: nat, base: nat): (q: nat)
    requires IsBase(base)
    ensures q == n / base && (n >= base ==> 0 < q < n) && (n < base ==> q == 0)
  {
    if base == 16 then n / 16 else if base == 10 then n / 10 else if base == 8 then n / 8 else n / 2
  }

  function LowDigit(n: nat, base: nat): (d: nat)
    requires IsBase(base)
    ensures d == n % base < base && (n < base ==> d == n)
  {
    if base == 16 then n % 16 else if base == 10 then n % 10 else if base == 8 then n % 8 else n % 2
  }

  function Times(n: nat, base: nat): (m: nat)
    requires IsBase(base)
    ensures m == n * base
  {
    if base == 16 then n * 16 else if base == 10 then n * 10 else if base == 8 then n * 8 else n * 2
  }

  lemma DigitsJoin(n: nat, base: nat)
    requires IsBase(base)
    ensures n == Times(Quotient(n, base), base) + LowDigit(n, base)
  {
  }

  /** Character d of 0123456789abcdef, or of the table with upper-case letters. */
  function DigitTable(d: nat, upper: bool): (c: char)
    requires d < 16
  {
    if d < 10 then '0' + d as char else (if upper then 'A' else 'a') + (d - 10) as char
  }

  /** The two tables as the code writes them. */
  lemma DigitTables(d: nat, upper: bool)
    requires d < 16
    ensures DigitTable(d, upper) == if upper then "0123456789ABCDEF"[d] else "0123456789abcdef"[d]
  {
  }

  /** The value of a digit in either table, or a number no base accepts. */
  function TableValue(c: char): nat {
    if '0' <= c <= '9' then (c - '0') as nat
    else if 'a' <= c <= 'f' then (c - 'a') as nat + 10
    else if 'A' <= c <= 'F' then (c - 'A') as nat + 10
    else 16
  }

  ghost predicate DigitsIn(s: string, base: nat) {
    forall i :: 0 <= i < |s| ==> TableValue(s[i]) < base
  }

  /** The number a digit string denotes, most significant digit first. */
  ghost function ReadIn(s: string, base: nat): nat
    requires IsBase(base) && DigitsIn(s, base)
  {
    if s == [] then 0 else Times(ReadIn(s[..|s| - 1], base), base) + TableValue(s[|s| - 1])
  }

  /** The digits of n without leading zeros. */
  ghost function NumberText(n: nat, base: nat, upper: bool): (s: string)
    requires IsBase(base)
    ensures s != []
  {
    (if n < base then [] else NumberText(Quotient(n, base), base, upper)) + [DigitTable(LowDigit(n, base), upper)]
  }

  lemma TableRoundTrip(d: nat, upper: bool)
    requires d < 16
    ensures TableValue(DigitTable(d, upper)) == d
  {
  }

  lemma ReadOneIn(c: char, base: nat)
    requires IsBase(base) && TableValue(c) < base
    ensures DigitsIn([c], base) && ReadIn([c], base) == TableValue(c)
  {
    assert [c][..0] == [];
  }

  lemma ReadSnoc(s: string, c: char, base: nat)
    requires IsBase(base) && DigitsIn(s, base) && TableValue(c) < base
    ensures DigitsIn(s + [c], base) && ReadIn(s + [c], base) == Times(ReadIn(s, base), base) + TableValue(c)
  {
    assert (s + [c])[..|s|] == s;
  }

  /** Printing and reading back is the identity, and the only leading zero is that of zero itself. */
  lemma {:induction false} NumberTextReads(n: nat, base: nat, upper: bool)
    requires IsBase(base)
    ensures DigitsIn(NumberText(n, base, upper), base)
    ensures ReadIn(NumberText(n, base, upper), base) == n
    ensures n > 0 ==> NumberText(n, base, upper)[0] != '0'
  {
    var c := DigitTable(LowDigit(n, base), upper);
    TableRoundTrip(LowDigit(n, base), upper);
    DigitsJoin(n, base);
    if n < base {
      ReadOneIn(c, base);
    } else {
      NumberTextReads(Quotient(n, base), base, upper);
      ReadSnoc(NumberText(Quotient(n, base), base, upper), c, base);
    }
  }

  lemma {:induction false} NumberTextIsDec(n: nat, upper: bool)
    ensures NumberText(n, 10, upper) == Dec(n)
  {
    if n >= 10 { NumberTextIsDec(n / 10, upper); }
  }

  /** How long the digits can get. */
  lemma {:induction false} NumberTextLength(n: nat, base: nat, upper: bool, k: nat)
    requires IsBase(base) && n < Pow(base, k) && k > 0
    ensures |NumberText(n, base, upper)| <= k
  {
    if n >= base {
      assert Pow(base, 1) == base;
      assert n / base < Pow(base, k - 1) by { DivLt(n, base, Pow(base, k - 1)); }
      NumberTextLength(Quotient(n, base), base, upper, k - 1);
    }
  }

  /** The lowest digit and what remains, as the code takes them for its bases. */
  function TakeDigit(value: nat, base: nat): (r: (nat, nat))
    requires IsBase(base)
    ensures r == (LowDigit(value, base), Quotient(value, base))
  {
    assert Pow(2, 1) == 2 && Pow(2, 3) == 8 && Pow(2, 4) == 16;
    AndMask(value, 1);
    AndMask(value, 3);
    AndMask(value, 4);
    if base == 16 then (And(value, 15), value / 16)
    else if base == 10 then (value % 10, value / 10)
    else if base == 8 then (And(value, 7), value / 8)
    else (And(value, 1), value / 2)
  }

  lemma TwoTo64()
    ensures Pow(2, 64) == 0x1_0000_0000_0000_0000
  {
    BaseIsTwoTo32();
    PowAdd(2, 32, 32);
  }

  lemma SixtyFourDigits(value: nat, base: nat, upper: bool)
    requires IsBase(base) && value < 0x1_0000_0000_0000_0000
    ensures |NumberText(value, base, upper)| <= 64
  {
    TwoTo64();
    PowBaseMono(2, base, 64);
    NumberTextLength(value, base, upper, 64);
  }

  /** What is left to collect: nothing once the value has become zero. */
  ghost function Remaining(rest: nat, base: nat, upper: bool): string
    requires IsBase(base)
  {
    if rest == 0 then "" else NumberText(rest, base, upper)
  }

  lemma RemainingStep(rest: nat, base: nat, upper: bool)
    requires IsBase(base) && rest > 0
    ensures Remaining(rest, base, upper) == Remaining(Quotient(rest, base), base, upper) + [DigitTable(LowDigit(rest, base), upper)]
  {
  }

  /** s read from its last character to its first. */
  ghost function Backwards(s: string): (t: string)
    ensures |t| == |s|
  {
    if s == [] then [] else [s[|s| - 1]] + Backwards(s[..|s| - 1])
  }

  lemma {:induction false} BackwardsAt(s: string, i: nat)
    requires i < |s|
    ensures Backwards(s)[|s| - 1 - i] == s[i]
  {
    if i < |s| - 1 { BackwardsAt(s[..|s| - 1], i); }
  }

  lemma BackwardsSnoc(s: string, c: char)
    ensures Backwards(s + [c]) == [c] + Backwards(s)
  {
    assert (s + [c])[..|s|] == s;
  }

  lemma CollectStep(text: string, done: string, rest: nat, base: nat, upper: bool)
    requires IsBase(base) && rest > 0
    requires text == done + Backwards(Remaining(rest, base, upper))
    ensures |done| < |text|
    ensures text == done + [DigitTable(LowDigit(rest, base), upper)] + Backwards(Remaining(Quotient(rest, base), base, upper))
  {
    var c := DigitTable(LowDigit(rest, base), upper);
    var left := Remaining(Quotient(rest, base), base, upper);
    RemainingStep(rest, base, upper);
    BackwardsSnoc(left, c);
    assert done + ([c] + Backwards(left)) == done + [c] + Backwards(left);
  }

  /** Collects the digits lowest first. */
  method CollectDigits(reversed: array<char>, value: nat, base: nat, upper: bool) returns (len: nat)
    requires IsBase(base) && 0 < value < 0x1_0000_0000_0000_0000 && reversed.Length == 64
    modifies reversed
    ensures len == |NumberText(value, base, upper)| <= 64
    ensures reversed[..len] == Backwards(NumberText(value, base, upper))
  {
    SixtyFourDigits(value, base, upper);
    ghost var text := Backwards(NumberText(value, base, upper));
    var rest := value;
    len := 0;
    while rest > 0
      invariant len <= |text| && text == reversed[..len] + Backwards(Remaining(rest, base, upper))
    {
      CollectStep(text, reversed[..len], rest, base, upper);
      var (digit, quotient) := TakeDigit(rest, base);
      var c := DigitTable(digit, upper);
      PrefixSnoc(reversed[..], len, c);
      ghost var b := reversed[..];
      reversed[len] := c;
      assert reversed[..] == b[len := c];
      len := len + 1;
      rest := quotient;
    }
  }

  /** Writes the digits of `value` into `digits` in reading order. */
  method IntegerDigits(digits: array<char>, value: nat, base: nat, upper: bool) returns (len: nat)
    requires IsBase(base) && value < 0x1_0000_0000_0000_0000 && digits.Length >= 64
    modifies digits
    ensures 0 < len <= 64 && digits[..len] == NumberText(value, base, upper)
  {
    if value == 0 {
      digits[0] := '0';
      assert DigitTable(0, upper) == '0';
      return 1;
    }
    var reversed := new char[64];
    len := CollectDigits(reversed, value, base, upper);
    ghost var text, collected := NumberText(value, base, upper), reversed[..len];
    for i := 0 to len
      invariant reversed[..len] == collected
      invariant digits[..i] == text[..i]
    {
      BackwardsAt(text, i);
      assert reversed[len - 1 - i] == collected[len - 1 - i];
      digits[i] := reversed[len - 1 - i];
      assert digits[..i + 1] == text[..i + 1];
    }
  }
}
