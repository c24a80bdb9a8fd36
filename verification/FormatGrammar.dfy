/**
 What a conversion specification is, as text, and that the parser (fmt_parse_spec in cbase/fmt.c) accepts exactly
 such texts and returns what they say.
 */
module FormatGrammar {
  import opened Powers
  import opened Results
  import opened Sequences
  import opened Decimal
  import opened FormatSink
  import opened FormatSpec

  // ---- the grammar ---------------------------------------------------------------------------

  predicate IsFlag(c: char) { c == '-' || c == '+' || c == ' ' || c == '#' || c == '0' }

  /** Flag characters in any order and number; each flag is set exactly when its character occurs. */
  ghost predicate FlagsRead(t: string, f: Flags) { FlagsAdd(t, NO_FLAGS, f) }

  ghost predicate FlagsAdd(t: string, before: Flags, after: Flags) {
    && (forall i :: 0 <= i < |t| ==> IsFlag(t[i]))
    && (after.left <==> before.left || '-' in t)
    && (after.sign <==> before.sign || '+' in t)
    && (after.space <==> before.space || ' ' in t)
    && (after.alternate <==> before.alternate || '#' in t)
    && (after.zero <==> before.zero || '0' in t)
  }

  /** Digits that fit an int32. */
  ghost predicate NumberReads(t: string, n: nat) {
    AllDigits(t) && ReadDec(t) == n <= INT32_MAX
  }

  /** Nothing, a star, or a number that does not start with a zero, which would be a flag. */
  ghost predicate WidthReads(t: string, kind: WidthKind, width: int) {
    match kind
    case WidthNone => t == "" && width == 0
    case WidthArg => t == "*" && width == 0
    case WidthLiteral => t != "" && t[0] != '0' && width >= 0 && NumberReads(t, width)
  }

  /** Nothing, a point and a star, or a point and a number, where no digits at all are zero. */
  ghost predicate PrecisionReads(t: string, kind: PrecisionKind, precision: int) {
    match kind
    case PrecisionNone => t == "" && precision == 0
    case PrecisionArg => t == ".*" && precision == 0
    case PrecisionLiteral => t != "" && t[0] == '.' && precision >= 0 && NumberReads(t[1..], precision)
  }

  /** A letter, a doubled letter, or a w and the width in bits. */
  ghost predicate LengthReads(t: string, length: Length) {
    match length
    case LengthNone => t == ""
    case HH => t == "hh"
    case H => t == "h"
    case LL => t == "ll"
    case BigL => t == "L"
    case W8 => BitsRead(t, 8)
    case W16 => BitsRead(t, 16)
    case W32 => BitsRead(t, 32)
    case W64 => BitsRead(t, 64)
  }

  ghost predicate BitsRead(t: string, bits: nat) { |t| > 1 && t[0] == 'w' && NumberReads(t[1..], bits) }

  /** The four parts in front of the conversion. */
  ghost predicate PartsRead(spec: FormatSpec, f: string, w: string, p: string, l: string) {
    && FlagsRead(f, spec.flags) && WidthReads(w, spec.widthKind, spec.width)
    && PrecisionReads(p, spec.precisionKind, spec.precision) && LengthReads(l, spec.length)
  }

  /** The flag characters a conversion takes. */
  ghost function FlagsTaken(c: char): string {
    if c in "duoxXbBfFeEgGaA" then "-+ #0" else if c in "csp" then "-" else ""
  }

  /** Which conversions there are, and what each takes in front of its letter. */
  ghost predicate Takes(spec: FormatSpec) {
    var c, flags, f := spec.conversion, spec.flags, FlagsTaken(spec.conversion);
    && c in "duoxXbBfFeEgGaAcspn%"
    && (flags.left ==> '-' in f) && (flags.sign ==> '+' in f) && (flags.space ==> ' ' in f)
    && (flags.alternate ==> '#' in f) && (flags.zero ==> '0' in f)
    && (spec.length.BigL? ==> c in "fFeEgGaA")
    && (!spec.length.LengthNone? && !spec.length.BigL? ==> c in "duoxXbBn")
    && (!spec.widthKind.WidthNone? ==> c !in "n%")
    && (!spec.precisionKind.PrecisionNone? ==> c !in "cpn%")
  }

  lemma AcceptableIsTakes(spec: FormatSpec)
    ensures Acceptable(spec) <==> Takes(spec)
  {
    ConversionLetters(spec.conversion);
  }

  lemma ConversionLetters(c: char)
    ensures (IsInteger(c) <==> c in "duoxXbB") && (IsFloat(c) <==> c in "fFeEgGaA")
  {
  }

  /** From i to end, s is the text of a specification. */
  ghost predicate StandsAt(s: string, i: nat, spec: FormatSpec, end: nat) {
    && i <= end <= |s| && Takes(spec)
    && exists f: string, w: string, p: string, l: string ::
         PartsRead(spec, f, w, p, l) && s[i..end] == f + (w + (p + (l + [spec.conversion])))
  }

  // ---- text at an index ----------------------------------------------------------------------

  ghost predicate Reads(s: string, i: nat, t: string) {
    i + |t| <= |s| && s[i..i + |t|] == t
  }

  lemma ReadsBoth(s: string, i: nat, t: string, u: string)
    requires Reads(s, i, t + u)
    ensures Reads(s, i, t) && Reads(s, i + |t|, u)
  {
    var whole := s[i..i + |t + u|];
    assert whole[..|t|] == s[i..i + |t|] && whole[|t|..] == s[i + |t|..i + |t| + |u|];
  }

  lemma ReadsAt(s: string, i: nat, t: string, k: nat)
    requires Reads(s, i, t) && k < |t|
    ensures At(s, i + k) == t[k]
  {
    assert s[i..i + |t|][k] == s[i + k];
  }

  /** What stands where a part may be missing: its first byte, or what stands behind it. */
  lemma HeadOrNext(s: string, i: nat, t: string)
    requires Reads(s, i, t)
    ensures At(s, i) == if t != "" then t[0] else At(s, i + |t|)
  {
    if t != "" { ReadsAt(s, i, t, 0); }
  }

  /** The character behind the digits is none. */
  lemma {:induction false} DigitsEndAt(s: string, i: nat, t: string)
    requires Reads(s, i, t) && AllDigits(t) && !IsDigit(At(s, i + |t|))
    ensures DigitsEnd(s, i) == i + |t|
    decreases |t|
  {
    if t != "" {
      assert t == [t[0]] + t[1..];
      ReadsBoth(s, i, [t[0]], t[1..]);
      ReadsAt(s, i, t, 0);
      DigitsEndAt(s, i + 1, t[1..]);
    }
  }

  lemma NumberParses(s: string, i: nat, t: string, n: nat)
    requires Reads(s, i, t) && t != "" && NumberReads(t, n) && !IsDigit(At(s, i + |t|))
    ensures UintAt(s, i) == Ok((n, i + |t|))
  {
    DigitsEndAt(s, i, t);
  }

  lemma NumberSound(s: string, i: nat)
    requires i <= |s| && UintAt(s, i).Ok?
    ensures NumberReads(s[i..UintAt(s, i).value.1], UintAt(s, i).value.0)
  {
  }

  // ---- each part, read and parsed --------------------------------------------------------------

  lemma {:induction false} FlagsSound(s: string, i: nat, before: Flags)
    requires i <= |s|
    ensures var (f, e) := FlagsAt(s, i, before); !IsFlag(At(s, e)) && FlagsAdd(s[i..e], before, f)
    decreases |s| - i
  {
    hide FlagsAdd;
    if i < |s| && IsFlag(s[i]) {
      var next := OneFlag(before, s[i]);
      var (f, e) := FlagsAt(s, i + 1, next);
      FlagsSound(s, i + 1, next);
      assert s[i..e] == [s[i]] + s[i + 1..e];
      FlagAdds(before, s[i]);
      FlagsJoin([s[i]], s[i + 1..e], before, next, f);
    } else {
      NoFlagAdds(before);
      assert s[i..i] == "";
    }
  }

  lemma FlagAdds(f: Flags, c: char)
    requires IsFlag(c)
    ensures FlagsAdd([c], f, OneFlag(f, c))
  {
  }

  lemma NoFlagAdds(f: Flags)
    ensures FlagsAdd("", f, f)
  {
  }

  lemma FlagsJoin(t: string, u: string, f: Flags, g: Flags, h: Flags)
    requires FlagsAdd(t, f, g) && FlagsAdd(u, g, h)
    ensures FlagsAdd(t + u, f, h)
  {
  }

  function OneFlag(f: Flags, c: char): Flags {
    match c
    case '-' => f.(left := true)
    case '+' => f.(sign := true)
    case ' ' => f.(space := true)
    case '#' => f.(alternate := true)
    case '0' => f.(zero := true)
    case _ => f
  }

  lemma FlagWithin(s: string, i: nat, e: nat, k: nat)
    requires i <= k < e <= |s| && forall j :: 0 <= j < e - i ==> IsFlag(s[i..e][j])
    ensures IsFlag(At(s, k))
  {
    assert s[i..e][k - i] == s[k];
  }

  lemma FlagsParse(s: string, i: nat, t: string, f: Flags)
    requires Reads(s, i, t) && FlagsRead(t, f) && !IsFlag(At(s, i + |t|))
    ensures FlagsAt(s, i, NO_FLAGS) == (f, i + |t|)
  {
    hide FlagsAt;
    FlagsSound(s, i, NO_FLAGS);
    var e := FlagsAt(s, i, NO_FLAGS).1;
    if e < i + |t| {
      ReadsAt(s, i, t, e - i);
    } else if e > i + |t| {
      FlagWithin(s, i, e, i + |t|);
    }
  }

  /** What may follow the digits of a specification. */
  predicate Ends(c: char) { !IsDigit(c) && c != '*' && c != '$' }

  lemma WidthParses(s: string, i: nat, t: string, kind: WidthKind, width: int)
    requires Reads(s, i, t) && WidthReads(t, kind, width) && Ends(At(s, i + |t|))
    ensures WidthAt(s, i) == Ok((kind, width as nat, i + |t|))
  {
    hide UintAt;
    HeadOrNext(s, i, t);
    if kind.WidthLiteral? { NumberParses(s, i, t, width); }
  }

  lemma WidthSound(s: string, i: nat)
    requires i <= |s| && !IsFlag(At(s, i)) && WidthAt(s, i).Ok?
    ensures var (kind, width, e) := WidthAt(s, i).value; WidthReads(s[i..e], kind, width)
  {
    hide UintAt;
    if At(s, i) != '*' && IsDigit(At(s, i)) { NumberSound(s, i); }
  }

  lemma PrecisionParses(s: string, i: nat, t: string, kind: PrecisionKind, precision: int)
    requires Reads(s, i, t) && PrecisionReads(t, kind, precision) && Ends(At(s, i + |t|)) && At(s, i + |t|) != '.'
    ensures PrecisionAt(s, i) == Ok((kind, precision as nat, i + |t|))
  {
    hide UintAt;
    hide DigitsEnd;
    HeadOrNext(s, i, t);
    if t != "" {
      assert t == [t[0]] + t[1..];
      ReadsBoth(s, i, [t[0]], t[1..]);
      HeadOrNext(s, i + 1, t[1..]);
    }
    if kind.PrecisionLiteral? && |t| > 1 {
      NumberParses(s, i + 1, t[1..], precision);
      DigitsEndAt(s, i + 1, t[1..]);
    }
  }

  lemma PrecisionSound(s: string, i: nat)
    requires i <= |s| && PrecisionAt(s, i).Ok?
    ensures var (kind, precision, e) := PrecisionAt(s, i).value; PrecisionReads(s[i..e], kind, precision)
  {
    hide UintAt;
    hide Positional;
    var e := PrecisionAt(s, i).value.2;
    if At(s, i) == '.' {
      assert s[i..e][1..] == s[i + 1..e];
      if At(s, i + 1) != '*' && IsDigit(At(s, i + 1)) { NumberSound(s, i + 1); }
    }
  }

  predicate IsConversion(c: char) {
    IsInteger(c) || IsFloat(c) || c == 'c' || c == 's' || c == 'p' || c == 'n' || c == '%'
  }

  lemma LengthParses(s: string, i: nat, t: string, length: Length)
    requires Reads(s, i, t) && LengthReads(t, length) && IsConversion(At(s, i + |t|))
    ensures LengthAt(s, i) == Ok((length, i + |t|))
  {
    hide UintAt;
    HeadOrNext(s, i, t);
    if length.W8? || length.W16? || length.W32? || length.W64? {
      BitsParse(s, i, t, if length.W8? then 8 else if length.W16? then 16 else if length.W32? then 32 else 64);
    } else if |t| > 1 {
      ReadsAt(s, i, t, 1);
    }
  }

  lemma BitsParse(s: string, i: nat, t: string, bits: nat)
    requires Reads(s, i, t) && BitsRead(t, bits) && IsConversion(At(s, i + |t|))
    ensures At(s, i) == 'w' && IsDigit(At(s, i + 1)) && UintAt(s, i + 1) == Ok((bits, i + |t|))
  {
    assert t == [t[0]] + t[1..];
    ReadsBoth(s, i, [t[0]], t[1..]);
    ReadsAt(s, i, t, 0);
    ReadsAt(s, i + 1, t[1..], 0);
    NumberParses(s, i + 1, t[1..], bits);
  }

  lemma LengthSound(s: string, i: nat)
    requires i <= |s| && LengthAt(s, i).Ok?
    ensures var (length, e) := LengthAt(s, i).value; LengthReads(s[i..e], length)
  {
    hide UintAt;
    var e := LengthAt(s, i).value.1;
    if At(s, i) == 'w' {
      NumberSound(s, i + 1);
      assert s[i..e][1..] == s[i + 1..e];
    } else if e == i + 2 {
      assert s[i..e] == [s[i], s[i + 1]];
    }
  }

  // ---- the whole specification -------------------------------------------------------------------

  /** Which texts stand where. */
  ghost predicate Placed(s: string, i: nat, spec: FormatSpec, f: string, w: string, p: string, l: string) {
    && Reads(s, i, f) && Reads(s, i + |f|, w) && Reads(s, i + |f| + |w|, p) && Reads(s, i + |f| + |w| + |p|, l)
    && At(s, i + |f| + |w| + |p| + |l|) == spec.conversion
  }

  lemma PlaceParts(s: string, i: nat, spec: FormatSpec, f: string, w: string, p: string, l: string)
    requires Reads(s, i, f + (w + (p + (l + [spec.conversion]))))
    ensures Placed(s, i, spec, f, w, p, l)
  {
    hide Reads;
    var c := [spec.conversion];
    ReadsBoth(s, i, f, w + (p + (l + c)));
    ReadsBoth(s, i + |f|, w, p + (l + c));
    ReadsBoth(s, i + |f| + |w|, p, l + c);
    ReadsBoth(s, i + |f| + |w| + |p|, l, c);
    ReadsAt(s, i + |f| + |w| + |p| + |l|, c, 0);
  }

  /** The first byte of a part that is there. */
  lemma Heads(spec: FormatSpec, f: string, w: string, p: string, l: string)
    requires PartsRead(spec, f, w, p, l)
    ensures l != "" ==> l[0] in "hlLw"
    ensures p != "" ==> p[0] == '.'
    ensures w != "" ==> w[0] == '*' || '1' <= w[0] <= '9'
  {
  }

  lemma ConversionsEnd(c: char)
    requires IsConversion(c)
    ensures Ends(c) && c != '.' && !IsFlag(c) && c != '\0'
  {
  }

  /** What can stand at the border of two parts. */
  lemma Borders(s: string, i: nat, spec: FormatSpec, f: string, w: string, p: string, l: string)
    requires Placed(s, i, spec, f, w, p, l) && PartsRead(spec, f, w, p, l) && IsConversion(spec.conversion)
    ensures var i1, i2, i3 := i + |f|, i + |f| + |w|, i + |f| + |w| + |p|;
            && Ends(At(s, i3)) && At(s, i3) != '.' && Ends(At(s, i2)) && !IsFlag(At(s, i1)) && At(s, i) != '\0'
  {
    hide PartsRead;
    hide IsConversion;
    hide Reads;
    hide At;
    Heads(spec, f, w, p, l);
    ConversionsEnd(spec.conversion);
    HeadOrNext(s, i + |f| + |w| + |p|, l);
    HeadOrNext(s, i + |f| + |w|, p);
    HeadOrNext(s, i + |f|, w);
    HeadOrNext(s, i, f);
    FlagIsNoEnd(spec, f, w, p, l);
  }

  lemma FlagIsNoEnd(spec: FormatSpec, f: string, w: string, p: string, l: string)
    requires PartsRead(spec, f, w, p, l)
    ensures f != "" ==> f[0] != '\0'
  {
  }

  lemma {:induction false} DigitsStop(s: string, i: nat, j: nat)
    requires i <= j && !IsDigit(At(s, j))
    ensures DigitsEnd(s, i) <= j
    decreases j - i
  {
    if i < j && i < |s| && IsDigit(s[i]) { DigitsStop(s, i + 1, j); }
  }

  /** Text without a dollar sign that does not end in a digit cannot look like a positional argument. */
  lemma NotPositional(s: string, i: nat, t: string)
    requires Reads(s, i, t) && t != "" && !IsDigit(t[|t| - 1]) && '$' !in t
    ensures !Positional(s, i)
  {
    var last := |t| - 1;
    ReadsAt(s, i, t, last);
    hide Reads;
    DigitsStop(s, i, i + last);
    var end := DigitsEnd(s, i);
    ReadsAt(s, i, t, end - i);
  }

  lemma NoDollar(spec: FormatSpec, f: string, w: string, p: string, l: string)
    requires PartsRead(spec, f, w, p, l) && IsConversion(spec.conversion)
    ensures '$' !in f + (w + (p + (l + [spec.conversion])))
  {
    assert '$' !in w;
    if p != "" { assert p == [p[0]] + p[1..]; }
    if |l| > 1 { assert l == [l[0]] + l[1..]; }
  }

  lemma AcceptableConverts(spec: FormatSpec)
    requires Acceptable(spec)
    ensures IsConversion(spec.conversion)
  {
  }

  /** Wherever the text of a specification stands, and whatever follows it, it parses to that specification. */
  lemma StandingParses(s: string, i: nat, spec: FormatSpec, end: nat)
    requires StandsAt(s, i, spec, end)
    ensures SpecAt(s, i) == Ok((spec, end))
  {
    hide FlagsAt;
    hide WidthAt;
    hide PrecisionAt;
    hide LengthAt;
    hide Positional;
    hide PartsRead;
    hide Acceptable;
    hide Takes;
    hide Reads;
    hide At;
    var f: string, w: string, p: string, l: string :|
      PartsRead(spec, f, w, p, l) && s[i..end] == f + (w + (p + (l + [spec.conversion])));
    var t := f + (w + (p + (l + [spec.conversion])));
    StandingReads(s, i, end, t);
    AcceptableIsTakes(spec);
    AcceptableConverts(spec);
    PlaceParts(s, i, spec, f, w, p, l);
    Borders(s, i, spec, f, w, p, l);
    NoDollar(spec, f, w, p, l);
    ConversionsEnd(spec.conversion);
    assert t[|t| - 1] == spec.conversion;
    NotPositional(s, i, t);
    PartsParse(s, i, spec, f, w, p, l);
  }

  lemma StandingReads(s: string, i: nat, end: nat, t: string)
    requires i <= end <= |s| && s[i..end] == t
    ensures Reads(s, i, t) && end == i + |t|
  {
  }

  lemma PartsParse(s: string, i: nat, spec: FormatSpec, f: string, w: string, p: string, l: string)
    requires Placed(s, i, spec, f, w, p, l) && PartsRead(spec, f, w, p, l) && IsConversion(spec.conversion)
    ensures var i1, i2, i3 := i + |f|, i + |f| + |w|, i + |f| + |w| + |p|;
            && FlagsAt(s, i, NO_FLAGS) == (spec.flags, i1)
            && i1 <= |s| && WidthAt(s, i1) == Ok((spec.widthKind, spec.width, i2))
            && i2 <= |s| && PrecisionAt(s, i2) == Ok((spec.precisionKind, spec.precision, i3))
            && i3 <= |s| && LengthAt(s, i3) == Ok((spec.length, i3 + |l|))
  {
    hide FlagsAt;
    hide WidthAt;
    hide PrecisionAt;
    hide LengthAt;
    Borders(s, i, spec, f, w, p, l);
    FlagsParse(s, i, f, spec.flags);
    WidthParses(s, i + |f|, w, spec.widthKind, spec.width);
    PrecisionParses(s, i + |f| + |w|, p, spec.precisionKind, spec.precision);
    LengthParses(s, i + |f| + |w| + |p|, l, spec.length);
  }

  /** What is parsed is what stands there. */
  lemma ParsedStands(s: string, i: nat)
    requires i <= |s| && SpecAt(s, i).Ok?
    ensures var (spec, end) := SpecAt(s, i).value; StandsAt(s, i, spec, end)
  {
    hide FlagsAt;
    hide WidthAt;
    hide PrecisionAt;
    hide LengthAt;
    hide Positional;
    hide Acceptable;
    hide IsFlag;
    hide WidthReads;
    hide PrecisionReads;
    hide LengthReads;
    hide FlagsAdd;
    hide Takes;
    var (spec, end) := SpecAt(s, i).value;
    AcceptableIsTakes(spec);
    var i1 := FlagsAt(s, i, NO_FLAGS).1;
    FlagsSound(s, i, NO_FLAGS);
    WidthSound(s, i1);
    var i2 := WidthAt(s, i1).value.2;
    PrecisionSound(s, i2);
    var i3 := PrecisionAt(s, i2).value.2;
    LengthSound(s, i3);
    var i4 := LengthAt(s, i3).value.1;
    assert PartsRead(spec, s[i..i1], s[i1..i2], s[i2..i3], s[i3..i4]);
    FiveParts(s, i, i1, i2, i3, i4);
  }

  lemma FiveParts(s: string, i: nat, i1: nat, i2: nat, i3: nat, i4: nat)
    requires i <= i1 <= i2 <= i3 <= i4 < |s|
    ensures s[i..i4 + 1] == s[i..i1] + (s[i1..i2] + (s[i2..i3] + (s[i3..i4] + [s[i4]])))
  {
  }

  /** The parser accepts exactly the texts of specifications, and returns what they say. */
  lemma GrammarIsExact(s: string, i: nat, spec: FormatSpec, end: nat)
    requires i <= |s|
    ensures SpecAt(s, i) == Ok((spec, end)) <==> StandsAt(s, i, spec, end)
  {
    hide SpecAt;
    hide StandsAt;
    if StandsAt(s, i, spec, end) { StandingParses(s, i, spec, end); }
    if SpecAt(s, i).Ok? { ParsedStands(s, i); }
  }

  // ---- the parser ---------------------------------------------------------------------------

  method ParseWidth(s: string, cursor: nat) returns (r: Result<(WidthKind, nat, nat)>)
    requires cursor <= |s|
    ensures r == WidthAt(s, cursor)
  {
    if At(s, cursor) == '*' {
      return if Positional(s, cursor + 1) then Err(EINVAL) else Ok((WidthArg, 0, cursor + 1));
    } else if IsDigit(At(s, cursor)) {
      var u :- ParseUint(s, cursor);
      return Ok((WidthLiteral, u.0, u.1));
    }
    return Ok((WidthNone, 0, cursor));
  }

  method ParsePrecision(s: string, cursor: nat) returns (r: Result<(PrecisionKind, nat, nat)>)
    requires cursor <= |s|
    ensures r == PrecisionAt(s, cursor)
  {
    if At(s, cursor) != '.' { return Ok((PrecisionNone, 0, cursor)); }
    var next := cursor + 1;
    if At(s, next) == '*' {
      return if Positional(s, next + 1) then Err(EINVAL) else Ok((PrecisionArg, 0, next + 1));
    } else if IsDigit(At(s, next)) {
      if Positional(s, next) { return Err(EINVAL); }
      var u :- ParseUint(s, next);
      return Ok((PrecisionLiteral, u.0, u.1));
    }
    return Ok((PrecisionLiteral, 0, next));
  }

  method ParseLength(s: string, cursor: nat) returns (r: Result<(Length, nat)>)
    requires cursor <= |s|
    ensures r == LengthAt(s, cursor)
  {
    if At(s, cursor) != 'w' { return PlainLengthAt(s, cursor); }
    var next := cursor + 1;
    if At(s, next) == 'f' || !IsDigit(At(s, next)) { return Err(EINVAL); }
    var u :- ParseUint(s, next);
    var length :- BitWidth(u.0);
    return Ok((length, u.1));
  }

  /** fmt_parse_spec: the specification whose text stands at the cursor, or an error when there is none. */
  method ParseSpec(s: string, cursor: nat) returns (r: Result<(FormatSpec, nat)>)
    requires cursor <= |s|
    ensures r == SpecAt(s, cursor)
    ensures r.Ok? ==> StandsAt(s, cursor, r.value.0, r.value.1)
    ensures r.Err? ==> forall spec: FormatSpec, end: nat :: !StandsAt(s, cursor, spec, end)
  {
    hide StandsAt;
    forall spec: FormatSpec, end: nat ensures SpecAt(s, cursor) == Ok((spec, end)) <==> StandsAt(s, cursor, spec, end) {
      GrammarIsExact(s, cursor, spec, end);
    }
    if At(s, cursor) == '\0' || Positional(s, cursor) { return Err(EINVAL); }
    var flags := FlagsAt(s, cursor, NO_FLAGS);
    var width :- ParseWidth(s, flags.1);
    var precision :- ParsePrecision(s, width.2);
    var length :- ParseLength(s, precision.2);
    var conversion := At(s, length.1);
    if conversion == '\0' { return Err(EINVAL); }
    var spec := FormatSpec(flags.0, width.1, precision.1, width.0, precision.0, length.0, conversion);
    return if Acceptable(spec) then Ok((spec, length.1 + 1)) else Err(EINVAL);
  }
}
