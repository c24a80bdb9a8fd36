/**
 Whole formats (cbase/fmt.c): formatting straight from the format string and from its parsed segments come
 to the same, and the estimate bounds the text of either.
 */
module FormatRuns {
  import opened Powers
  import opened Results
  import opened RyuTexts
  import opened FormatFloats
  import opened FormatSink
  import opened FormatSpec
  import opened FormatInteger
  import opened FormatConversion
  import opened FormatExecute

  /** The bytes before a conversion, and the conversion. */
  datatype Segment = Segment(literal: string, spec: FormatSpec)

  datatype Segments = Segments(specs: seq<Segment>, tail: string)

  /** What a formatting call leaves. */
  datatype Printed = Printed(stream: Stream, result: Result<nat>, stores: seq<Stored>)

  // ---- the format string -------------------------------------------------------------------

  /** The next percent sign from index i on, or the end. */
  function NextPercent(format: string, i: nat): (p: nat)
    requires i <= |format|
    ensures i <= p <= |format| && '%' !in format[i..p] && (p < |format| ==> format[p] == '%')
    decreases |format| - i
  {
    if i == |format| || format[i] == '%' then i
    else
      var p := NextPercent(format, i + 1);
      assert format[i..p] == [format[i]] + format[i + 1..p];
      p
  }

  /** The segments of the format from index `literal` on. */
  ghost function SegmentsFrom(format: string, literal: nat): Result<Segments>
    requires literal <= |format|
    decreases |format| - literal
  {
    var p := NextPercent(format, literal);
    if p == |format| then Ok(Segments([], format[literal..]))
    else
      var parsed :- SpecAt(format, p + 1);
      var rest :- SegmentsFrom(format, parsed.1);
      Ok(Segments([Segment(format[literal..p], parsed.0)] + rest.specs, rest.tail))
  }

  /** Every conversion takes at least two bytes of the format. */
  lemma {:induction false} TwoBytesEach(format: string, literal: nat)
    requires literal <= |format|
    ensures var s := SegmentsFrom(format, literal); s.Ok? ==> 2 * |s.value.specs| <= |format| - literal
    decreases |format| - literal
  {
    hide SpecAt;
    var p := NextPercent(format, literal);
    if p < |format| {
      var parsed := SpecAt(format, p + 1);
      if parsed.Ok? { TwoBytesEach(format, parsed.value.1); }
    }
  }

  // ---- formatting ---------------------------------------------------------------------------

  function Finished(s: Stream, stores: seq<Stored>): Printed {
    Printed(s, if s.overflow then Err(EOVERFLOW) else Ok(|s.text|), stores)
  }

  /** fmt_vsnprintf_plan_sink: literal, conversion, literal, conversion, ..., tail. */
  ghost function FromSegments(s: Stream, writeCount: bool, segments: seq<Segment>, tail: string, args: seq<Arg>, env: Environment): Printed
    decreases |segments|
  {
    if segments == [] then Finished(Put(s, tail), [])
    else
      var s1 := Put(s, segments[0].literal);
      if s1.overflow then Printed(s1, Err(EOVERFLOW), [])
      else
        var done := Executed(s1, writeCount, segments[0].spec, args, env);
        match done.result
        case Err(errno) => Printed(done.stream, Err(errno), done.stores)
        case Ok(rest) =>
          var more := FromSegments(done.stream, writeCount, segments[1..], tail, rest, env);
          more.(stores := done.stores + more.stores)
  }

  /** fmt_vsnprintf_sink: the same, parsing each conversion when it comes to it. */
  ghost function FromFormat(s: Stream, writeCount: bool, format: string, literal: nat, args: seq<Arg>, env: Environment): Printed
    requires literal <= |format|
    decreases |format| - literal
  {
    var p := NextPercent(format, literal);
    if p == |format| then Finished(Put(s, format[literal..]), [])
    else
      var s1 := Put(s, format[literal..p]);
      if s1.overflow then Printed(s1, Err(EOVERFLOW), [])
      else
        match SpecAt(format, p + 1)
        case Err(errno) => Printed(s1, Err(errno), [])
        case Ok((spec, next)) =>
          var done := Executed(s1, writeCount, spec, args, env);
          match done.result
          case Err(errno) => Printed(done.stream, Err(errno), done.stores)
          case Ok(rest) =>
            var more := FromFormat(done.stream, writeCount, format, next, rest, env);
            more.(stores := done.stores + more.stores)
  }

  /** A format that parses prints the same from its segments as from its text. */
  lemma {:induction false} SegmentsPrintTheSame(s: Stream, writeCount: bool, format: string, literal: nat, args: seq<Arg>, env: Environment)
    requires literal <= |format| && SegmentsFrom(format, literal).Ok?
    ensures var segments := SegmentsFrom(format, literal).value;
            FromFormat(s, writeCount, format, literal, args, env)
              == FromSegments(s, writeCount, segments.specs, segments.tail, args, env)
    decreases |format| - literal
  {
    hide Executed;
    hide SpecAt;
    var p := NextPercent(format, literal);
    if p < |format| {
      var parsed := SpecAt(format, p + 1).value;
      var rest := SegmentsFrom(format, parsed.1).value;
      var segments := SegmentsFrom(format, literal).value;
      assert segments.specs[1..] == rest.specs;
      var s1 := Put(s, format[literal..p]);
      if !s1.overflow {
        var done := Executed(s1, writeCount, parsed.0, args, env);
        if done.result.Ok? {
          SegmentsPrintTheSame(done.stream, writeCount, format, parsed.1, done.result.value, env);
        }
      }
    }
  }

  // ---- the text only grows -----------------------------------------------------------------

  lemma ExecutedGrows(s: Stream, writeCount: bool, spec: FormatSpec, args: seq<Arg>, env: Environment)
    ensures s.text <= Executed(s, writeCount, spec, args, env).stream.text
  {
    hide ActionOf;
  }

  lemma {:induction false} FormatGrows(s: Stream, writeCount: bool, format: string, literal: nat, args: seq<Arg>, env: Environment)
    requires literal <= |format|
    ensures s.text <= FromFormat(s, writeCount, format, literal, args, env).stream.text
    decreases |format| - literal
  {
    hide Executed;
    hide SpecAt;
    var p := NextPercent(format, literal);
    if p < |format| {
      var s1 := Put(s, format[literal..p]);
      var parsed := SpecAt(format, p + 1);
      if !s1.overflow && parsed.Ok? {
        var done := Executed(s1, writeCount, parsed.value.0, args, env);
        ExecutedGrows(s1, writeCount, parsed.value.0, args, env);
        if done.result.Ok? { FormatGrows(done.stream, writeCount, format, parsed.value.1, done.result.value, env); }
      }
    }
  }

  lemma {:induction false} SegmentsGrow(s: Stream, writeCount: bool, segments: seq<Segment>, tail: string, args: seq<Arg>, env: Environment)
    ensures s.text <= FromSegments(s, writeCount, segments, tail, args, env).stream.text
    decreases |segments|
  {
    hide Executed;
    if segments != [] {
      var s1 := Put(s, segments[0].literal);
      if !s1.overflow {
        var done := Executed(s1, writeCount, segments[0].spec, args, env);
        ExecutedGrows(s1, writeCount, segments[0].spec, args, env);
        if done.result.Ok? { SegmentsGrow(done.stream, writeCount, segments[1..], tail, done.result.value, env); }
      }
    }
  }

  // ---- the estimate --------------------------------------------------------------------------

  /** fmt_estimate_add */
  function AddEstimate(total: nat, len: nat): (r: Result<nat>)
    ensures r.Ok? ==> r.value == total + len <= INT32_MAX
  {
    if len > INT32_MAX - total then Err(EOVERFLOW) else Ok(total + len)
  }

  /** What a literal and a conversion add to the total. */
  function AddSegment(total: nat, literalLen: nat, spec: FormatSpec, args: seq<Arg>, env: Environment): Result<Estimated> {
    var t :- AddEstimate(total, literalLen);
    var e :- EstimateOf(spec, args, env);
    var u :- AddEstimate(t, e.length);
    Ok(Estimated(u, e.args))
  }

  /** The loop of fmt_vsnprintf_estimate_plan over the parsed segments. */
  function EstimateFrom(total: nat, segments: seq<Segment>, tail: string, args: seq<Arg>, env: Environment): Result<nat>
    decreases |segments|
  {
    if segments == [] then AddEstimate(total, |tail|)
    else
      var first :- AddSegment(total, |segments[0].literal|, segments[0].spec, args, env);
      EstimateFrom(first.length, segments[1..], tail, first.args, env)
  }

  /** A conversion that was estimated adds no more than the estimate, and does not overflow below it. */
  lemma ExecutedBounded(s: Stream, writeCount: bool, spec: FormatSpec, args: seq<Arg>, env: Environment)
    requires RyuBounded(env.ryu) && EstimateOf(spec, args, env).Ok? && !s.overflow
    requires |s.text| + EstimateOf(spec, args, env).value.length <= INT32_MAX
    ensures var done := Executed(s, writeCount, spec, args, env);
            && !done.stream.overflow && |done.stream.text| <= |s.text| + EstimateOf(spec, args, env).value.length
            && (done.result.Ok? ==> done.result.value == EstimateOf(spec, args, env).value.args)
  {
    hide EstimateOf;
    hide ActionOf;
    hide RyuBounded;
    EstimateBounds(spec, args, env);
    var does := ActionOf(spec, args, env);
    if does.Ok? && does.value.action.Write? {
      PutAllIsPut(s, does.value.action.pieces);
    }
  }

  /** However the run ends, its text is no longer than the estimate, and nothing overflows. */
  lemma {:induction false} EstimateBoundsRun(total: nat, s: Stream, writeCount: bool, segments: seq<Segment>, tail: string,
                                       args: seq<Arg>, env: Environment)
    requires RyuBounded(env.ryu) && !s.overflow && |s.text| <= total
    requires EstimateFrom(total, segments, tail, args, env).Ok?
    ensures var printed := FromSegments(s, writeCount, segments, tail, args, env);
            !printed.stream.overflow && |printed.stream.text| <= EstimateFrom(total, segments, tail, args, env).value
    decreases |segments|
  {
    hide Executed;
    hide RyuBounded;
    hide EstimateOf;
    if segments != [] {
      var t1 := AddEstimate(total, |segments[0].literal|).value;
      var e := EstimateOf(segments[0].spec, args, env).value;
      var t2 := AddEstimate(t1, e.length).value;
      var s1 := Put(s, segments[0].literal);
      ExecutedBounded(s1, writeCount, segments[0].spec, args, env);
      var done := Executed(s1, writeCount, segments[0].spec, args, env);
      EstimateGrows(t2, segments[1..], tail, e.args, env);
      if done.result.Ok? {
        EstimateBoundsRun(t2, done.stream, writeCount, segments[1..], tail, e.args, env);
      }
    }
  }

  lemma {:induction false} EstimateGrows(total: nat, segments: seq<Segment>, tail: string, args: seq<Arg>, env: Environment)
    ensures EstimateFrom(total, segments, tail, args, env).Ok? ==> total <= EstimateFrom(total, segments, tail, args, env).value
    decreases |segments|
  {
    hide EstimateOf;
    if segments != [] {
      var t1 := AddEstimate(total, |segments[0].literal|);
      var e := EstimateOf(segments[0].spec, args, env);
      if t1.Ok? && e.Ok? {
        var t2 := AddEstimate(t1.value, e.value.length);
        if t2.Ok? { EstimateGrows(t2.value, segments[1..], tail, e.value.args, env); }
      }
    }
  }

  // ---- one step of a run ---------------------------------------------------------------------

  /** A run whose first conversions have already stored some counts. */
  function After(stores: seq<Stored>, p: Printed): Printed {
    p.(stores := stores + p.stores)
  }

  lemma AfterNothing(p: Printed)
    ensures After([], p) == p
  {
    assert [] + p.stores == p.stores;
  }

  lemma AfterTwice(a: seq<Stored>, b: seq<Stored>, p: Printed)
    ensures After(a, After(b, p)) == After(a + b, p)
  {
    assert a + (b + p.stores) == a + b + p.stores;
  }

  /** The first segment of a run: what comes out of it, and that no intermediate text is longer than the final one. */
  lemma SegmentStep(s: Stream, writeCount: bool, segments: seq<Segment>, tail: string, args: seq<Arg>, env: Environment)
    requires segments != []
    ensures var printed := FromSegments(s, writeCount, segments, tail, args, env);
            var s1 := Put(s, segments[0].literal);
            var done := Executed(s1, writeCount, segments[0].spec, args, env);
            && s1.text <= printed.stream.text
            && (s1.overflow ==> printed == Printed(s1, Err(EOVERFLOW), []))
            && (!s1.overflow ==> done.stream.text <= printed.stream.text)
            && (!s1.overflow && done.result.Err? ==> printed == Printed(done.stream, Err(done.result.errno), done.stores))
            && (!s1.overflow && done.result.Ok? ==>
                  printed == After(done.stores, FromSegments(done.stream, writeCount, segments[1..], tail, done.result.value, env)))
  {
    hide Executed;
    var s1 := Put(s, segments[0].literal);
    var done := Executed(s1, writeCount, segments[0].spec, args, env);
    ExecutedGrows(s1, writeCount, segments[0].spec, args, env);
    if done.result.Ok? { SegmentsGrow(done.stream, writeCount, segments[1..], tail, done.result.value, env); }
  }

  /** The same for the first conversion of a format. */
  lemma FormatStep(s: Stream, writeCount: bool, format: string, literal: nat, args: seq<Arg>, env: Environment)
    requires literal <= |format| && NextPercent(format, literal) < |format|
    ensures var p := NextPercent(format, literal);
            var printed := FromFormat(s, writeCount, format, literal, args, env);
            var s1 := Put(s, format[literal..p]);
            var parsed := SpecAt(format, p + 1);
            && s1.text <= printed.stream.text
            && (s1.overflow ==> printed == Printed(s1, Err(EOVERFLOW), []))
            && (!s1.overflow && parsed.Err? ==> printed == Printed(s1, Err(parsed.errno), []))
            && (!s1.overflow && parsed.Ok? ==> ConversionStep(s1, writeCount, format, parsed.value, args, env, printed))
  {
    hide Executed;
    hide SpecAt;
    var p := NextPercent(format, literal);
    var s1 := Put(s, format[literal..p]);
    var parsed := SpecAt(format, p + 1);
    if parsed.Ok? {
      var done := Executed(s1, writeCount, parsed.value.0, args, env);
      ExecutedGrows(s1, writeCount, parsed.value.0, args, env);
      if done.result.Ok? { FormatGrows(done.stream, writeCount, format, parsed.value.1, done.result.value, env); }
    }
  }

  ghost predicate ConversionStep(s1: Stream, writeCount: bool, format: string, parsed: (FormatSpec, nat), args: seq<Arg>,
                                 env: Environment, printed: Printed)
    requires parsed.1 <= |format|
  {
    var done := Executed(s1, writeCount, parsed.0, args, env);
    && done.stream.text <= printed.stream.text
    && (done.result.Err? ==> printed == Printed(done.stream, Err(done.result.errno), done.stores))
    && (done.result.Ok? ==>
          printed == After(done.stores, FromFormat(done.stream, writeCount, format, parsed.1, done.result.value, env)))
  }

  /** A conversion leaves only arguments of the sizes it was given. */
  lemma ExecutedSized(s: Stream, writeCount: bool, spec: FormatSpec, args: seq<Arg>, env: Environment)
    requires Sized(args)
    ensures var done := Executed(s, writeCount, spec, args, env); done.result.Ok? ==> Sized(done.result.value)
  {
    hide Sized;
    hide PutAll;
    hide StoreStatus;
    ActionSized(spec, args, env);
    hide ActionOf;
  }

  lemma ActionSized(spec: FormatSpec, args: seq<Arg>, env: Environment)
    requires Sized(args)
    ensures ActionOf(spec, args, env).Ok? ==> Sized(ActionOf(spec, args, env).value.args)
  {
    hide Sized;
    hide LoadWidth;
    hide LoadBoth;
    hide LoadString;
    hide LoadFloat;
    hide StringBytes;
    hide Rest;
    LoadedSized(spec, args, env.longDouble);
    NextSized(args);
    var w, b, t, f := LoadWidth(spec, args), LoadBoth(spec, args), LoadString(spec, args), LoadFloat(spec, args, env.longDouble);
    if w.Ok? { NextSized(w.value.args); }
    if b.Ok? { NextSized(b.value.args); }
    if t.Ok? { NextSized(t.value.args); }
    if f.Ok? { NextSized(f.value.args); }
  }
}
