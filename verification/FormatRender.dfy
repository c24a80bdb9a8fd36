/** Writing a conversion specification out and parsing it again (fmt_parse_spec in cbase/fmt.c). */
module FormatRender {
  import opened Powers
  import opened Results
  import opened Sequences
  import opened Decimal
  import opened FormatSink
  import opened FormatSpec
  import opened FormatGrammar

  // ---- the text of a specification ---------------------------------------------------------

  function FlagText(on: bool, c: char): string { if on then [c] else "" }

  function FlagsText(f: Flags): string {
    FlagText(f.left, '-') + (FlagText(f.sign, '+') + (FlagText(f.space, ' ')
    + (FlagText(f.alternate, '#') + FlagText(f.zero, '0'))))
  }

  ghost function WidthText(spec: FormatSpec): string {
    match spec.widthKind
    case WidthNone => ""
    case WidthLiteral => if spec.width > 0 then Dec(spec.width) else ""
    case WidthArg => "*"
  }

  ghost function PrecisionText(spec: FormatSpec): string {
    match spec.precisionKind
    case PrecisionNone => ""
    case PrecisionLiteral => if spec.precision >= 0 then "." + Dec(spec.precision) else ""
    case PrecisionArg => ".*"
  }

  function LengthText(length: Length): string {
    match length
    case LengthNone => ""
    case HH => "hh"
    case H => "h"
    case LL => "ll"
    case BigL => "L"
    case W8 => "w8"
    case W16 => "w16"
    case W32 => "w32"
    case W64 => "w64"
  }

  ghost function SpecText(spec: FormatSpec): string {
    FlagsText(spec.flags) + (WidthText(spec) + (PrecisionText(spec) + (LengthText(spec.length) + [spec.conversion])))
  }

  // ---- it reads as the specification ---------------------------------------------------------

  /** What a canonical specification looks like: parsed, and a literal width is positive. */
  predicate Canonical(spec: FormatSpec) {
    Parsed(spec) && (spec.widthKind.WidthLiteral? ==> spec.width > 0)
  }

  lemma FlagsTextReads(f: Flags)
    ensures FlagsRead(FlagsText(f), f)
  {
    hide FlagsAdd;
    hide FlagText;
    var l, p, b, a, z := FlagText(f.left, '-'), FlagText(f.sign, '+'), FlagText(f.space, ' '), FlagText(f.alternate, '#'), FlagText(f.zero, '0');
    var f1, f2, f3, f4 := NO_FLAGS.(left := f.left), NO_FLAGS.(left := f.left, sign := f.sign), f.(alternate := false, zero := false), f.(zero := false);
    OneText(f4, f, '0', f.zero);
    OneText(f3, f4, '#', f.alternate);
    OneText(f2, f3, ' ', f.space);
    OneText(f1, f2, '+', f.sign);
    OneText(NO_FLAGS, f1, '-', f.left);
    FlagsJoin(a, z, f3, f4, f);
    FlagsJoin(b, a + z, f2, f3, f);
    FlagsJoin(p, b + (a + z), f1, f2, f);
    FlagsJoin(l, p + (b + (a + z)), NO_FLAGS, f1, f);
  }

  lemma OneText(before: Flags, after: Flags, c: char, on: bool)
    requires IsFlag(c) && after == if on then OneFlag(before, c) else before
    ensures FlagsAdd(FlagText(on, c), before, after)
  {
    hide OneFlag;
    if on { FlagAdds(before, c); } else { NoFlagAdds(before); }
  }

  lemma WidthTextReads(spec: FormatSpec)
    requires Canonical(spec)
    ensures WidthReads(WidthText(spec), spec.widthKind, spec.width)
  {
    if spec.widthKind.WidthLiteral? { DecRead(spec.width); }
  }

  lemma PrecisionTextReads(spec: FormatSpec)
    requires Canonical(spec)
    ensures PrecisionReads(PrecisionText(spec), spec.precisionKind, spec.precision)
  {
    if spec.precisionKind.PrecisionLiteral? {
      DecRead(spec.precision);
      assert ("." + Dec(spec.precision))[1..] == Dec(spec.precision);
    }
  }

  lemma LengthTextReads(length: Length)
    ensures LengthReads(LengthText(length), length)
  {
    SmallReads();
    assert "w8"[1..] == "8" && "w16"[1..] == "16" && "w32"[1..] == "32" && "w64"[1..] == "64";
  }

  lemma SmallReads()
    ensures NumberReads("8", 8) && NumberReads("16", 16) && NumberReads("32", 32) && NumberReads("64", 64)
  {
    TwoDigits('1', '6');
    TwoDigits('3', '2');
    TwoDigits('6', '4');
    ReadOne('8');
  }

  lemma TwoDigits(a: char, b: char)
    requires IsDigit(a) && IsDigit(b)
    ensures AllDigits([a, b]) && ReadDec([a, b]) == 10 * DigitValue(a) + DigitValue(b)
  {
    ReadOne(a);
    ReadSnoc([a], b);
    assert [a] + [b] == [a, b];
  }

  /** A specification that is written out parses back to itself, wherever it stands and whatever follows it. */
  lemma SpecParsesBack(s: string, i: nat, spec: FormatSpec)
    requires Canonical(spec) && Reads(s, i, SpecText(spec))
    ensures SpecAt(s, i) == Ok((spec, i + |SpecText(spec)|))
  {
    hide FlagsText;
    hide WidthText;
    hide PrecisionText;
    hide LengthText;
    hide Acceptable;
    hide SpecAt;
    FlagsTextReads(spec.flags);
    WidthTextReads(spec);
    PrecisionTextReads(spec);
    LengthTextReads(spec.length);
    AcceptableIsTakes(spec);
    hide Takes;
    assert PartsRead(spec, FlagsText(spec.flags), WidthText(spec), PrecisionText(spec), LengthText(spec.length));
    StandingParses(s, i, spec, i + |SpecText(spec)|);
  }

  /** Every specification the parser returns is one that can be written out and parsed back. */
  lemma OnlyCanonical(s: string, i: nat)
    requires i <= |s| && SpecAt(s, i).Ok?
    ensures Canonical(SpecAt(s, i).value.0)
  {
    hide SpecAt;
    hide Acceptable;
    hide Takes;
    ParsedStands(s, i);
    var (spec, end) := SpecAt(s, i).value;
    var f: string, w: string, p: string, l: string :|
      PartsRead(spec, f, w, p, l) && s[i..end] == f + (w + (p + (l + [spec.conversion])));
    if spec.widthKind.WidthLiteral? { ReadLeading(w); }
  }
}
