/** Conversion specifications and the parser for them (fmt_parse_spec in cbase/fmt.c). */
module FormatSpec {
  import opened Results
  import opened Sequences
  import opened Powers
  import opened Decimal
  import opened FormatSink

  datatype Flags = Flags(left: bool, sign: bool, space: bool, alternate: bool, zero: bool)

  const NO_FLAGS: Flags := Flags(false, false, false, false, false)

  datatype WidthKind = WidthNone | WidthLiteral | WidthArg

  datatype PrecisionKind = PrecisionNone | PrecisionLiteral | PrecisionArg

  datatype Length = LengthNone | HH | H | LL | BigL | W8 | W16 | W32 | W64

  datatype FormatSpec = FormatSpec(flags: Flags, width: int, precision: int, widthKind: WidthKind,
                                   precisionKind: PrecisionKind, length: Length, conversion: char)

  const EMPTY_SPEC: FormatSpec := FormatSpec(NO_FLAGS, 0, 0, WidthNone, PrecisionNone, LengthNone, '\0')

  predicate IsInteger(c: char) { c == 'd' || c == 'u' || c == 'o' || c == 'x' || c == 'X' || c == 'b' || c == 'B' }

  predicate IsFloat(c: char) {
    c == 'f' || c == 'F' || c == 'e' || c == 'E' || c == 'g' || c == 'G' || c == 'a' || c == 'A'
  }

  predicate HasPrecision(spec: FormatSpec) { !spec.precisionKind.PrecisionNone? }

  predicate HasWidth(spec: FormatSpec) { !spec.widthKind.WidthNone? }

  // ---- numbers -------------------------------------------------------------------------

  /** Where the digits that start at index i end. */
  function DigitsEnd(s: string, i: nat): (end: nat)
    ensures i <= end && (i <= |s| ==> end <= |s|)
    ensures forall j: nat :: i <= j < end && j < |s| ==> IsDigit(s[j])
    ensures !IsDigit(At(s, end))
    decreases |s| - i
  {
    if i < |s| && IsDigit(s[i]) then DigitsEnd(s, i + 1) else i
  }

  /** What the digits at index i denote, and where they end. */
  ghost function UintAt(s: string, i: nat): (r: Result<(nat, nat)>)
    requires i <= |s|
    ensures r.Ok? ==> r.value.0 <= INT32_MAX && i < r.value.1 <= |s|
  {
    var end := DigitsEnd(s, i);
    assert AllDigits(s[i..end]);
    if end == i then Err(EINVAL)
    else if ReadDec(s[i..end]) > INT32_MAX then Err(EOVERFLOW)
    else Ok((ReadDec(s[i..end]), end))
  }

  /** Reading more digits never gives a smaller number. */
  lemma {:induction false} ReadPrefix(s: string, k: nat)
    requires AllDigits(s) && k <= |s|
    ensures AllDigits(s[..k]) && ReadDec(s[..k]) <= ReadDec(s)
  {
    if k == |s| {
      assert s[..k] == s;
    } else {
      ReadPrefix(s[..|s| - 1], k);
      assert s[..|s| - 1][..k] == s[..k];
    }
  }

  lemma NextDigit(s: string, from: nat, i: nat, end: nat)
    requires from <= i < end <= |s| && AllDigits(s[from..end])
    ensures IsDigit(s[i]) && AllDigits(s[from..i]) && AllDigits(s[from..i + 1])
    ensures ReadDec(s[from..i + 1]) == 10 * ReadDec(s[from..i]) + DigitValue(s[i]) <= ReadDec(s[from..end])
  {
    var digits := s[from..end];
    assert digits[i - from] == s[i];
    ReadPrefix(digits, i - from);
    ReadPrefix(digits, i + 1 - from);
    assert digits[..i - from] == s[from..i];
    assert digits[..i + 1 - from] == s[from..i + 1];
    assert s[from..i + 1] == s[from..i] + [s[i]];
    ReadSnoc(s[from..i], s[i]);
  }

  lemma NoDigits(s: string, i: nat)
    requires i <= |s|
    ensures s[i..i] == "" && AllDigits(s[i..i]) && ReadDec(s[i..i]) == 0
  {
  }

  /** fmt_parse_uint */
  method ParseUint(s: string, cursor: nat) returns (r: Result<(nat, nat)>)
    requires cursor <= |s|
    ensures r == UintAt(s, cursor)
  {
    hide ReadDec;
    var scan, value := cursor, 0;
    ghost var end := DigitsEnd(s, cursor);
    NoDigits(s, cursor);
    while IsDigit(At(s, scan))
      invariant cursor <= scan <= end && AllDigits(s[cursor..end]) && DigitsEnd(s, scan) == end
      invariant AllDigits(s[cursor..scan]) && value == ReadDec(s[cursor..scan]) <= INT32_MAX
      decreases |s| - scan
    {
      NextDigit(s, cursor, scan, end);
      var digit := DigitValue(s[scan]);
      if value > (INT32_MAX - digit) / 10 {
        return Err(EOVERFLOW);
      }
      value := value * 10 + digit;
      scan := scan + 1;
    }
    return if scan == cursor then Err(EINVAL) else Ok((value, scan));
  }

  /** Digits and a dollar sign: a positional argument, which is refused. */
  predicate Positional(s: string, i: nat) {
    IsDigit(At(s, i)) && At(s, DigitsEnd(s, i)) == '$'
  }

  // ---- the parts of a specification --------------------------------------------------------

  /** FMT_FLAG_parse_chars: the flag characters at index i, in any order and number, and where they end. */
  function FlagsAt(s: string, i: nat, flags: Flags): (r: (Flags, nat))
    ensures i <= r.1 && (i <= |s| ==> r.1 <= |s|)
    decreases |s| - i
  {
    match At(s, i)
    case '-' => FlagsAt(s, i + 1, flags.(left := true))
    case '+' => FlagsAt(s, i + 1, flags.(sign := true))
    case ' ' => FlagsAt(s, i + 1, flags.(space := true))
    case '#' => FlagsAt(s, i + 1, flags.(alternate := true))
    case '0' => FlagsAt(s, i + 1, flags.(zero := true))
    case _ => (flags, i)
  }

  ghost function WidthAt(s: string, i: nat): (r: Result<(WidthKind, nat, nat)>)
    requires i <= |s|
    ensures r.Ok? ==> i <= r.value.2 <= |s| && r.value.1 <= INT32_MAX
  {
    if At(s, i) == '*' then
      if Positional(s, i + 1) then Err(EINVAL) else Ok((WidthArg, 0, i + 1))
    else if IsDigit(At(s, i)) then
      var u :- UintAt(s, i);
      Ok((WidthLiteral, u.0, u.1))
    else Ok((WidthNone, 0, i))
  }

  /** A point with nothing behind it is precision zero. */
  ghost function PrecisionAt(s: string, i: nat): (r: Result<(PrecisionKind, nat, nat)>)
    requires i <= |s|
    ensures r.Ok? ==> i <= r.value.2 <= |s| && r.value.1 <= INT32_MAX
  {
    if At(s, i) != '.' then Ok((PrecisionNone, 0, i))
    else if At(s, i + 1) == '*' then
      if Positional(s, i + 2) then Err(EINVAL) else Ok((PrecisionArg, 0, i + 2))
    else if IsDigit(At(s, i + 1)) then
      if Positional(s, i + 1) then Err(EINVAL)
      else
        var u :- UintAt(s, i + 1);
        Ok((PrecisionLiteral, u.0, u.1))
    else Ok((PrecisionLiteral, 0, i + 1))
  }

  ghost function LengthAt(s: string, i: nat): (r: Result<(Length, nat)>)
    requires i <= |s|
    ensures r.Ok? ==> i <= r.value.1 <= |s|
  {
    if At(s, i) == 'w' then
      if At(s, i + 1) == 'f' || !IsDigit(At(s, i + 1)) then Err(EINVAL)
      else
        var u :- UintAt(s, i + 1);
        var length :- BitWidth(u.0);
        Ok((length, u.1))
    else PlainLengthAt(s, i)
  }

  function BitWidth(width: nat): Result<Length> {
    if width == 8 then Ok(W8) else if width == 16 then Ok(W16) else if width == 32 then Ok(W32)
    else if width == 64 then Ok(W64) else Err(EINVAL)
  }

  function PlainLengthAt(s: string, i: nat): (r: Result<(Length, nat)>)
    requires i <= |s|
    ensures r.Ok? ==> i <= r.value.1 <= |s|
  {
    if At(s, i) == 'h' && At(s, i + 1) == 'h' then Ok((HH, i + 2))
    else if At(s, i) == 'h' then Ok((H, i + 1))
    else if At(s, i) == 'l' && At(s, i + 1) == 'l' then Ok((LL, i + 2))
    else if At(s, i) == 'l' then Err(EINVAL)
    else if At(s, i) == 'L' then Ok((BigL, i + 1))
    else if At(s, i) == 'j' || At(s, i) == 'z' || At(s, i) == 't' then Err(EINVAL)
    else Ok((LengthNone, i))
  }

  predicate OnlyLeft(flags: Flags) { flags == NO_FLAGS.(left := flags.left) }

  /** Which flags, widths, precisions and lengths each conversion takes. */
  predicate Acceptable(spec: FormatSpec) {
    if IsInteger(spec.conversion) then !spec.length.BigL?
    else if IsFloat(spec.conversion) then spec.length.LengthNone? || spec.length.BigL?
    else if spec.conversion == 'c' || spec.conversion == 'p' then
      spec.length.LengthNone? && !HasPrecision(spec) && OnlyLeft(spec.flags)
    else if spec.conversion == 's' then spec.length.LengthNone? && OnlyLeft(spec.flags)
    else if spec.conversion == 'n' then
      !spec.length.BigL? && spec.flags == NO_FLAGS && !HasWidth(spec) && !HasPrecision(spec)
    else if spec.conversion == '%' then
      spec.length.LengthNone? && spec.flags == NO_FLAGS && !HasWidth(spec) && !HasPrecision(spec)
    else false
  }

  /** The specification behind a percent sign, and the index behind it. */
  ghost function SpecAt(s: string, i: nat): (r: Result<(FormatSpec, nat)>)
    requires i <= |s|
    ensures r.Ok? ==> i < r.value.1 <= |s| && Parsed(r.value.0)
  {
    if At(s, i) == '\0' || Positional(s, i) then Err(EINVAL)
    else
      var flags := FlagsAt(s, i, NO_FLAGS);
      var width :- WidthAt(s, flags.1);
      var precision :- PrecisionAt(s, width.2);
      var length :- LengthAt(s, precision.2);
      var conversion := At(s, length.1);
      var spec := FormatSpec(flags.0, width.1, precision.1, width.0, precision.0, length.0, conversion);
      if conversion == '\0' || !Acceptable(spec) then Err(EINVAL) else Ok((spec, length.1 + 1))
  }

  /** What a parsed specification looks like. */
  predicate Parsed(spec: FormatSpec) {
    && Acceptable(spec) && 0 <= spec.width <= INT32_MAX && 0 <= spec.precision <= INT32_MAX
    && (!spec.widthKind.WidthLiteral? ==> spec.width == 0)
    && (!spec.precisionKind.PrecisionLiteral? ==> spec.precision == 0)
  }
}
