/** Two facts about integer fields: the estimate bounds their length, and their text reads back as the argument. */
module FormatIntegerFacts {
  import opened Powers
  import opened IntegerText
  import opened FormatSink
  import opened FormatSpec
  import opened FormatInteger

  // ---- the estimate bounds the length ------------------------------------------------------

  /** The digits the estimator allows for a conversion of this width in bits. */
  function MaxDigits(conversion: char, bits: nat): (n: nat)
    ensures n > 0 || bits == 0
  {
    if conversion == 'd' then if bits == 8 then 3 else if bits == 16 then 5 else if bits == 64 then 19 else 10
    else if conversion == 'u' then if bits == 8 then 3 else if bits == 16 then 5 else if bits == 64 then 20 else 10
    else if conversion == 'o' then (bits + 2) / 3
    else if conversion == 'x' || conversion == 'X' then (bits + 3) / 4
    else bits
  }

  function MaxPrefix(spec: FormatSpec): nat {
    if spec.conversion == 'd' then 1
    else if spec.conversion == 'u' then 0
    else if spec.conversion == 'o' then if spec.flags.alternate then 1 else 0
    else if spec.flags.alternate then 2 else 0
  }

  /** The integer branch of fmt_estimate_spec, width and precision already loaded. */
  function IntegerEstimate(spec: FormatSpec): (n: nat) {
    var digits := MaxDigits(spec.conversion, BitsOf(spec.length));
    var all := if HasPrecision(spec) && spec.precision > digits then spec.precision else digits;
    Max(MaxPrefix(spec) + all, spec.width)
  }

  lemma TensAndBits()
    ensures Pow(10, 3) == 1000 && Pow(10, 5) == 10_0000 && Pow(10, 10) == 100_0000_0000
    ensures Pow(10, 19) == 1000_0000_0000_0000_0000 && Pow(10, 20) == 1_0000_0000_0000_0000_0000
  {
    assert Pow(10, 3) == 1000;
    assert Pow(10, 5) == 10_0000;
    PowAdd(10, 5, 5);
    PowAdd(10, 10, 10);
    assert Pow(10, 20) == 10 * Pow(10, 19);
  }

  /** Every magnitude of this width has that few digits. */
  lemma MagnitudeBound(conversion: char, bits: nat, magnitude: nat)
    requires IsInteger(conversion) && (bits == 8 || bits == 16 || bits == 32 || bits == 64)
    requires magnitude < Modulus(bits) && (conversion == 'd' ==> magnitude <= Modulus(bits) / 2)
    ensures magnitude < Pow(BaseOf(conversion), MaxDigits(conversion, bits))
  {
    if conversion == 'd' || conversion == 'u' {
      TensAndBits();
    } else {
      ModulusIsPower(bits);
      var k := if conversion == 'o' then 3 else if conversion == 'x' || conversion == 'X' then 4 else 1;
      var n := MaxDigits(conversion, bits);
      PowMono(2, bits, k * n);
      PowPow(2, k, n);
      assert Pow(2, 1) == 2 && Pow(2, 3) == 8 && Pow(2, 4) == 16;
    }
  }

  lemma ReadValueBound(spec: FormatSpec, raw: nat)
    ensures var v := ReadValue(spec, raw);
            v.magnitude < Modulus(BitsOf(spec.length))
            && (spec.conversion == 'd' ==> v.magnitude <= Modulus(BitsOf(spec.length)) / 2)
            && (v.negative ==> spec.conversion == 'd')
  {
  }

  /** The estimate is never shorter than what the conversion writes. */
  lemma IntegerEstimateBounds(spec: FormatSpec, raw: nat)
    requires IsInteger(spec.conversion)
    ensures |Joined(IntegerPieces(spec, ReadValue(spec, raw)))| <= IntegerEstimate(spec)
  {
    var value := ReadValue(spec, raw);
    var bits := BitsOf(spec.length);
    var n := MaxDigits(spec.conversion, bits);
    ReadValueBound(spec, raw);
    MagnitudeBound(spec.conversion, bits, value.magnitude);
    NumberTextLength(value.magnitude, BaseOf(spec.conversion), IsUpper(spec.conversion), n);
    FieldLength(spec, value);
  }

  // ---- the text reads back -------------------------------------------------------------------

  ghost function SkipSpaces(s: string): string {
    if s != [] && s[0] == ' ' then SkipSpaces(s[1..]) else s
  }

  ghost function DropSpaces(s: string): string {
    if s != [] && s[|s| - 1] == ' ' then DropSpaces(s[..|s| - 1]) else s
  }

  ghost predicate NoSpaceAtEnds(s: string) {
    s == [] || (s[0] != ' ' && s[|s| - 1] != ' ')
  }

  lemma {:induction false} SkipsSpaces(n: nat, s: string)
    requires s == [] || s[0] != ' '
    ensures SkipSpaces(Copies(' ', n) + s) == s
  {
    var t := Copies(' ', n) + s;
    if n == 0 {
      assert t == s;
    } else {
      assert t[1..] == Copies(' ', n - 1) + s;
      SkipsSpaces(n - 1, s);
    }
  }

  lemma {:induction false} DropsSpaces(s: string, n: nat)
    requires s == [] || s[|s| - 1] != ' '
    ensures DropSpaces(s + Copies(' ', n)) == s
  {
    var t := s + Copies(' ', n);
    if n == 0 {
      assert t == s;
    } else {
      assert t[..|t| - 1] == s + Copies(' ', n - 1);
      DropsSpaces(s, n - 1);
    }
  }

  /** The padding on either side comes off. */
  lemma StripsPadding(left: nat, body: string, right: nat)
    requires NoSpaceAtEnds(body)
    ensures DropSpaces(SkipSpaces(Copies(' ', left) + (body + Copies(' ', right)))) == body
  {
    if body == [] {
      assert Copies(' ', left) + (body + Copies(' ', right)) == Copies(' ', left + right) + [];
      SkipsSpaces(left + right, []);
    } else {
      SkipsSpaces(left, body + Copies(' ', right));
      DropsSpaces(body, right);
    }
  }

  /** The base of a conversion, as its letter says. */
  ghost function NamedBase(c: char): (base: nat)
    ensures IsBase(base)
  {
    match c
    case 'b' => 2
    case 'B' => 2
    case 'o' => 8
    case 'x' => 16
    case 'X' => 16
    case _ => 10
  }

  lemma BaseIsNamed(c: char)
    ensures BaseOf(c) == NamedBase(c)
  {
  }

  /** The digits behind a sign or the mark of a base. */
  ghost function Unmarked(s: string, conversion: char): string {
    if conversion == 'd' && s != [] && (s[0] == '-' || s[0] == '+') then s[1..]
    else if |s| >= 2 && s[0] == '0' && s[1] == conversion && conversion in "xXbB" then s[2..]
    else s
  }

  /** What a reader makes of a field: padding off, sign or mark off, and the rest in the base of the conversion. */
  ghost function ReadField(text: string, conversion: char): int {
    var body := DropSpaces(SkipSpaces(text));
    var digits := Unmarked(body, conversion);
    if !DigitsIn(digits, NamedBase(conversion)) then 0
    else if body != [] && body[0] == '-' then 0 - ReadIn(digits, NamedBase(conversion))
    else ReadIn(digits, NamedBase(conversion))
  }

  lemma {:induction false} LeadingZerosRead(n: nat, s: string, base: nat)
    requires IsBase(base) && DigitsIn(s, base)
    ensures DigitsIn(Copies('0', n) + s, base) && ReadIn(Copies('0', n) + s, base) == ReadIn(s, base)
  {
    var t := Copies('0', n) + s;
    if s != [] {
      var s' := s[..|s| - 1];
      LeadingZerosRead(n, s', base);
      assert t[..|t| - 1] == Copies('0', n) + s';
    } else if n > 0 {
      LeadingZerosRead(n - 1, s, base);
      assert t[..|t| - 1] == Copies('0', n - 1) + s;
    }
  }

  /** Behind the prefix there are only digits, and they denote the magnitude. */
  lemma DigitsDenote(spec: FormatSpec, value: IntegerValue, zeros: nat)
    ensures DigitsIn(Copies('0', zeros) + Digits(spec, value), NamedBase(spec.conversion))
    ensures ReadIn(Copies('0', zeros) + Digits(spec, value), NamedBase(spec.conversion)) == value.magnitude
  {
    BaseIsNamed(spec.conversion);
    NumberTextReads(value.magnitude, NamedBase(spec.conversion), IsUpper(spec.conversion));
    LeadingZerosRead(zeros, Digits(spec, value), NamedBase(spec.conversion));
  }

  lemma DigitsAreNoMarks(s: string, conversion: char)
    requires DigitsIn(s, NamedBase(conversion))
    ensures NoSpaceAtEnds(s) && Unmarked(s, conversion) == s && (s != [] ==> s[0] != '-')
  {
    if s != [] { assert TableValue(s[0]) < 16 && TableValue(s[|s| - 1]) < 16; }
    if |s| >= 2 { assert TableValue(s[1]) < NamedBase(conversion); }
  }

  /** A sign or a mark in front of digits, and nothing else, is what Unmarked takes away. */
  lemma MarkComesOff(mark: string, s: string, conversion: char)
    requires DigitsIn(s, NamedBase(conversion))
    requires if conversion == 'd' then mark == "-" || mark == "+" else conversion in "xXbB" && mark == ['0', conversion]
    ensures NoSpaceAtEnds(mark + s) && Unmarked(mark + s, conversion) == s
    ensures (mark + s)[0] == '-' <==> mark == "-"
  {
    var t := mark + s;
    DigitsAreNoMarks(s, conversion);
    assert t[0] == mark[0];
    if conversion != 'd' {
      assert t[1] == mark[1] && t[2..] == s;
    } else {
      assert t[1..] == s;
    }
  }

  lemma FieldText(left: bool, spaces: nat, prefix: string, zeroPad: nat, zeros: nat, digits: string)
    ensures Joined(Field(left, spaces, prefix, zeroPad, zeros, digits))
         == Copies(' ', if left then 0 else spaces) + ((prefix + (Copies('0', zeroPad + zeros) + digits))
            + Copies(' ', if left then spaces else 0))
  {
    JoinSix(Field(left, spaces, prefix, zeroPad, zeros, digits));
    assert Copies('0', zeroPad + zeros) == Copies('0', zeroPad) + Copies('0', zeros);
  }

  lemma PlainReads(l: nat, body: string, r: nat, c: char)
    requires DigitsIn(body, NamedBase(c))
    ensures ReadField(Copies(' ', l) + (body + Copies(' ', r)), c) == ReadIn(body, NamedBase(c))
  {
    DigitsAreNoMarks(body, c);
    StripsPadding(l, body, r);
  }

  lemma MarkedReads(l: nat, mark: string, body: string, r: nat, c: char)
    requires DigitsIn(body, NamedBase(c))
    requires if c == 'd' then mark == "-" || mark == "+" else c in "xXbB" && mark == ['0', c]
    ensures ReadField(Copies(' ', l) + ((mark + body) + Copies(' ', r)), c)
         == if mark == "-" then 0 - ReadIn(body, NamedBase(c)) else ReadIn(body, NamedBase(c))
  {
    MarkComesOff(mark, body, c);
    StripsPadding(l, mark + body, r);
  }

  /** The prefixes the code can choose. */
  lemma Prefixes(spec: FormatSpec, value: IntegerValue, digitLength: nat, zeros: nat)
    requires IsInteger(spec.conversion) && (value.negative ==> spec.conversion == 'd')
    ensures var p, c := Prefix(spec, value, digitLength, zeros), spec.conversion;
            (value.negative <==> p == "-")
            && (p == "" || (p == " " && c == 'd') || (p == "0" && c == 'o')
                || if c == 'd' then p == "-" || p == "+" else c in "xXbB" && p == ['0', c])
  {
  }

  /** A field with such a prefix in front of zeros and digits reads back as the number the digits denote. */
  lemma FieldReads(l: nat, p: string, n: nat, digits: string, r: nat, c: char)
    requires p == "" || (p == " " && c == 'd') || (p == "0" && c == 'o')
             || if c == 'd' then p == "-" || p == "+" else c in "xXbB" && p == ['0', c]
    requires DigitsIn(digits, NamedBase(c))
    ensures ReadField(Copies(' ', l) + ((p + (Copies('0', n) + digits)) + Copies(' ', r)), c)
         == if p == "-" then 0 - ReadIn(digits, NamedBase(c)) else ReadIn(digits, NamedBase(c))
  {
    hide ReadField;
    hide ReadIn;
    var body := Copies('0', n) + digits;
    LeadingZerosRead(n, digits, NamedBase(c));
    if p == "" {
      assert p + body == body;
      PlainReads(l, body, r, c);
    } else if p == " " {
      assert Copies(' ', l) + ((p + body) + Copies(' ', r)) == Copies(' ', l + 1) + (body + Copies(' ', r));
      PlainReads(l + 1, body, r, c);
    } else if p == "0" {
      assert p + body == Copies('0', n + 1) + digits;
      LeadingZerosRead(n + 1, digits, NamedBase(c));
      PlainReads(l, p + body, r, c);
    } else {
      MarkedReads(l, p, body, r, c);
    }
  }

  /** Whatever the flags, width and precision, the text of an integer conversion reads back as its value. */
  lemma IntegerReadsBack(spec: FormatSpec, value: IntegerValue)
    requires IsInteger(spec.conversion) && (value.negative ==> spec.conversion == 'd')
    ensures ReadField(Joined(IntegerPieces(spec, value)), spec.conversion)
         == if value.negative then 0 - value.magnitude else value.magnitude
  {
    hide ReadField;
    hide Joined;
    hide ReadIn;
    hide Field;
    var digits := Digits(spec, value);
    var zeros := PrecisionZeros(spec, |digits|);
    var prefix := Prefix(spec, value, |digits|, zeros);
    var zeroPad := ZeroPad(spec, |prefix| + zeros + |digits|);
    var spaces := PadLength(spec.width, |prefix| + zeros + |digits| + zeroPad);
    FieldText(spec.flags.left, spaces, prefix, zeroPad, zeros, digits);
    Prefixes(spec, value, |digits|, zeros);
    DigitsDenote(spec, value, 0);
    assert Copies('0', 0) + digits == digits;
    hide Prefix;
    FieldReads(if spec.flags.left then 0 else spaces, prefix, zeroPad + zeros, digits,
               if spec.flags.left then spaces else 0, spec.conversion);
  }

  /** In particular the text of `%d` reads back as the signed argument, cut to the width its length names. */
  lemma SignedReadsBack(spec: FormatSpec, raw: nat)
    requires spec.conversion == 'd'
    ensures ReadField(Joined(IntegerPieces(spec, ReadValue(spec, raw))), 'd') == SignedValue(BitsOf(spec.length), raw)
  {
    IntegerReadsBack(spec, ReadValue(spec, raw));
  }

  /** And of every other integer conversion as the argument modulo 2^bits of the type its length names. */
  lemma UnsignedReadsBack(spec: FormatSpec, raw: nat)
    requires IsInteger(spec.conversion) && spec.conversion != 'd'
    ensures ReadField(Joined(IntegerPieces(spec, ReadValue(spec, raw))), spec.conversion) == raw % Pow(2, BitsOf(spec.length))
  {
    hide Joined;
    hide ReadField;
    hide Pow;
    IntegerReadsBack(spec, ReadValue(spec, raw));
    ModulusIsPower(BitsOf(spec.length));
  }
}
