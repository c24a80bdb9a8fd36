/** The entry points of the formatter (cbase/fmt.c): direct, estimated and planned formatting. */
module FormatEntry {
  import opened Powers
  import opened Results
  import opened RyuTexts
  import opened FormatFloats
  import opened FormatSink
  import opened FormatSpec
  import opened FormatGrammar
  import opened FormatInteger
  import opened FormatConversion
  import opened FormatMeaning
  import opened FormatExecute
  import opened FormatRuns
  import opened FormatRooms
  import opened FormatPlan

  // ---- formatting straight from the format ---------------------------------------------------

  /** The literal before a percent sign and the conversion behind it. */
  method RunConversion(sink: FormatSink, format: string, literal: nat, percent: nat, args: seq<Arg>, env: Environment)
    returns (r: Result<(seq<Arg>, nat)>, stores: seq<Stored>)
    requires literal <= |format| < FMT_MAX_FORMAT_LEN && percent == NextPercent(format, literal) < |format|
    requires sink.Valid() && Sized(args) && EnvironmentSized(env)
    requires sink.unchecked ==> |FromFormat(sink.stream, sink.writeCount, format, literal, args, env).stream.text| < sink.capacity
    modifies sink`written, sink`total, sink`failed, sink`stream, sink.buffer
    ensures sink.Valid() && sink.buffer[sink.capacity..] == old(sink.buffer[sink.capacity..])
    ensures r.Err? ==>
      Printed(sink.stream, Err(r.errno), stores) == FromFormat(old(sink.stream), sink.writeCount, format, literal, args, env)
    ensures r.Ok? ==>
      && percent + 1 < r.value.1 <= |format| && Sized(r.value.0)
      && FromFormat(old(sink.stream), sink.writeCount, format, literal, args, env)
           == After(stores, FromFormat(sink.stream, sink.writeCount, format, r.value.1, r.value.0, env))
  {
    hide Executed;
    hide FromFormat;
    hide Sized;
    hide EnvironmentSized;
    hide SpecAt;
    hide NextPercent;
    hide ConversionShown;
    FormatStep(sink.stream, sink.writeCount, format, literal, args, env);
    sink.Write(format[literal..percent]);
    if sink.failed {
      return Err(EOVERFLOW), [];
    }
    var parsed := ParseSpec(format, percent + 1);
    if parsed.Err? {
      return Err(parsed.errno), [];
    }
    var (spec, next) := parsed.value;
    ExecutedSized(sink.stream, sink.writeCount, spec, args, env);
    var rest;
    rest, stores := ExecuteSpec(sink, spec, args, env);
    r := if rest.Err? then Err(rest.errno) else Ok((rest.value, next));
  }

  /** fmt_vsnprintf_sink */
  method RunFormat(sink: FormatSink, format: string, args: seq<Arg>, env: Environment) returns (r: Result<nat>, stores: seq<Stored>)
    requires |format| < FMT_MAX_FORMAT_LEN && sink.Valid() && Sized(args) && EnvironmentSized(env)
    requires sink.unchecked ==> |FromFormat(sink.stream, sink.writeCount, format, 0, args, env).stream.text| < sink.capacity
    modifies sink`written, sink`total, sink`failed, sink`stream, sink.buffer
    ensures sink.Valid() && sink.buffer[sink.capacity..] == old(sink.buffer[sink.capacity..])
    ensures Printed(sink.stream, r, stores) == FromFormat(old(sink.stream), sink.writeCount, format, 0, args, env)
  {
    hide FromFormat;
    hide Sized;
    hide EnvironmentSized;
    hide NextPercent;
    hide Holds;
    ghost var printed := FromFormat(sink.stream, sink.writeCount, format, 0, args, env);
    AfterNothing(printed);
    stores := [];
    var left := args;
    var literal, cursor := 0, 0;
    while cursor < |format|
      invariant 0 <= literal <= cursor <= |format| && sink.Valid() && Sized(left)
      invariant NextPercent(format, cursor) == NextPercent(format, literal)
      invariant sink.buffer[sink.capacity..] == old(sink.buffer[sink.capacity..])
      invariant printed == After(stores, FromFormat(sink.stream, sink.writeCount, format, literal, left, env))
      decreases |format| - cursor
    {
      PercentStep(format, cursor);
      if format[cursor] != '%' {
        cursor := cursor + 1;
        continue;
      }
      var step, more := RunConversion(sink, format, literal, cursor, left, env);
      if step.Err? {
        return Err(step.errno), stores + more;
      }
      AfterTwice(stores, more, FromFormat(sink.stream, sink.writeCount, format, step.value.1, step.value.0, env));
      stores := stores + more;
      left := step.value.0;
      literal, cursor := step.value.1, step.value.1;
    }
    PercentEnd(format);
    LastLiteral(sink.stream, sink.writeCount, format, literal, left, env, stores);
    sink.Write(format[literal..cursor]);
    r := sink.Finish();
  }

  lemma LastLiteral(s: Stream, writeCount: bool, format: string, literal: nat, args: seq<Arg>, env: Environment, stores: seq<Stored>)
    requires literal <= |format| && NextPercent(format, literal) == |format|
    ensures var after := Put(s, format[literal..|format|]);
            After(stores, FromFormat(s, writeCount, format, literal, args, env))
              == Printed(after, if after.overflow then Err(EOVERFLOW) else Ok(|after.text|), stores)
  {
    assert format[literal..|format|] == format[literal..];
    assert stores + [] == stores;
  }

  // ---- the estimate without a plan --------------------------------------------------------------

  /** The loop of fmt_vsnprintf_estimate, which parses as it goes. */
  ghost function EstimateFormatFrom(total: nat, format: string, literal: nat, args: seq<Arg>, env: Environment): Result<nat>
    requires literal <= |format|
    decreases |format| - literal
  {
    var p := NextPercent(format, literal);
    if p == |format| then AddEstimate(total, |format| - literal)
    else
      var t1 :- AddEstimate(total, p - literal);
      var parsed :- SpecAt(format, p + 1);
      var e :- EstimateOf(parsed.0, args, env);
      var t2 :- AddEstimate(t1, e.length);
      EstimateFormatFrom(t2, format, parsed.1, e.args, env)
  }

  /** With and without a plan the estimate is the same, and a format that can be estimated parses. */
  lemma {:induction false} EstimatesAgree(total: nat, format: string, literal: nat, args: seq<Arg>, env: Environment)
    requires literal <= |format|
    ensures EstimateFormatFrom(total, format, literal, args, env).Ok? ==> SegmentsFrom(format, literal).Ok?
    ensures SegmentsFrom(format, literal).Ok? ==>
      var segments := SegmentsFrom(format, literal).value;
      EstimateFormatFrom(total, format, literal, args, env) == EstimateFrom(total, segments.specs, segments.tail, args, env)
    decreases |format| - literal
  {
    hide SpecAt;
    hide EstimateOf;
    hide AddEstimate;
    var p := NextPercent(format, literal);
    if p < |format| {
      var parsed := SpecAt(format, p + 1);
      if parsed.Ok? {
        var segments, rest := SegmentsFrom(format, literal), SegmentsFrom(format, parsed.value.1);
        if rest.Ok? { assert segments.value.specs[1..] == rest.value.specs; }
        var t1, e := AddEstimate(total, p - literal), EstimateOf(parsed.value.0, args, env);
        if t1.Ok? && e.Ok? {
          var t2 := AddEstimate(t1.value, e.value.length);
          if t2.Ok? { EstimatesAgree(t2.value, format, parsed.value.1, e.value.args, env); }
        }
      }
    }
  }

  /** A format has an estimate exactly when it parses and its literals and rooms sum up to an int32. */
  lemma EstimateFormatIs(format: string, args: seq<Arg>, env: Environment)
    requires |format| < FMT_MAX_FORMAT_LEN
    ensures forall n: nat :: EstimateFormatFrom(0, format, 0, args, env) == Ok(n) <==> FormatEstimates(format, args, env, n)
    ensures '%' !in format ==> EstimateFormatFrom(0, format, 0, args, env) == Ok(|format|)
  {
    hide FormatEstimates;
    hide EstimateFrom;
    hide EstimateFormatFrom;
    hide SegmentsFrom;
    EstimatesExactly(format, args, env);
    EstimatesAgree(0, format, 0, args, env);
  }

  /** One conversion of it. */
  function AddConversion(total: nat, literalLen: nat, parsed: Result<(FormatSpec, nat)>, args: seq<Arg>, env: Environment): Result<Estimated> {
    var _ :- AddEstimate(total, literalLen);
    var spec :- parsed;
    AddSegment(total, literalLen, spec.0, args, env)
  }

  lemma EstimateFormatNext(total: nat, format: string, literal: nat, args: seq<Arg>, env: Environment)
    requires literal <= |format| && NextPercent(format, literal) < |format|
    ensures var p := NextPercent(format, literal);
            var parsed := SpecAt(format, p + 1);
            var first := AddConversion(total, p - literal, parsed, args, env);
            && (first.Err? ==> EstimateFormatFrom(total, format, literal, args, env) == Err(first.errno))
            && (first.Ok? ==> parsed.Ok? && EstimateFormatFrom(total, format, literal, args, env)
                              == EstimateFormatFrom(first.value.length, format, parsed.value.1, first.value.args, env))
  {
    hide SpecAt;
    hide EstimateOf;
  }

  lemma EstimateFormatLast(total: nat, format: string, literal: nat, args: seq<Arg>, env: Environment)
    requires literal <= |format| && NextPercent(format, literal) == |format|
    ensures EstimateFormatFrom(total, format, literal, args, env) == AddEstimate(total, |format| - literal)
  {
  }

  /** fmt_vsnprintf_estimate */
  method EstimateFormat(format: string, args: seq<Arg>, env: Environment) returns (r: Result<nat>)
    requires |format| < FMT_MAX_FORMAT_LEN
    ensures r == EstimateFormatFrom(0, format, 0, args, env)
    ensures forall n: nat :: r == Ok(n) <==> FormatEstimates(format, args, env, n)
    ensures '%' !in format ==> r == Ok(|format|)
  {
    hide FormatEstimates;
    hide NextPercent;
    hide SpecAt;
    hide EstimateFormatFrom;
    hide AddConversion;
    hide AddEstimate;
    hide StandsAt;
    EstimateFormatIs(format, args, env);
    var total, left := 0, args;
    var literal, cursor := 0, 0;
    while cursor < |format|
      invariant 0 <= literal <= cursor <= |format| && NextPercent(format, cursor) == NextPercent(format, literal)
      invariant EstimateFormatFrom(total, format, literal, left, env) == EstimateFormatFrom(0, format, 0, args, env)
      decreases |format| - cursor
    {
      PercentStep(format, cursor);
      if format[cursor] != '%' {
        cursor := cursor + 1;
        continue;
      }
      EstimateFormatNext(total, format, literal, left, env);
      var parsed := ParseSpec(format, cursor + 1);
      var added :- AddConversion(total, cursor - literal, parsed, left, env);
      total, left := added.length, added.args;
      literal, cursor := parsed.value.1, parsed.value.1;
    }
    PercentEnd(format);
    EstimateFormatLast(total, format, literal, left, env);
    return AddEstimate(total, cursor - literal);
  }

  /** Whatever estimate was given for a format and its arguments, the text they print is no longer. */
  lemma EstimateBoundsFormat(format: string, writeCount: bool, args: seq<Arg>, env: Environment)
    requires RyuBounded(env.ryu) && EstimateFormatFrom(0, format, 0, args, env).Ok?
    ensures var printed := FromFormat(EmptyStream, writeCount, format, 0, args, env);
            !printed.stream.overflow && |printed.stream.text| <= EstimateFormatFrom(0, format, 0, args, env).value
  {
    hide RyuBounded;
    EstimatesAgree(0, format, 0, args, env);
    SegmentsPrintTheSame(EmptyStream, writeCount, format, 0, args, env);
    var segments := SegmentsFrom(format, 0).value;
    EstimateBoundsRun(0, EmptyStream, writeCount, segments.specs, segments.tail, args, env);
  }

  // ---- public functions ---------------------------------------------------------------------------

  /** The buffer holds as much of the text as fits before a terminator. */
  ghost predicate Shows(buffer: seq<char>, capacity: nat, text: string) {
    Holds(buffer, capacity, if capacity == 0 then 0 else Min(|text|, capacity - 1), text)
  }

  /** fmt_vsnprintf: the result does not depend on the capacity, and the buffer holds what fits. */
  method Vsnprintf(memory: array?<char>, capacity: int, format: string, args: seq<Arg>, env: Environment)
    returns (r: Result<nat>, stores: seq<Stored>)
    requires memory != null ==> capacity <= memory.Length
    requires |format| < FMT_MAX_FORMAT_LEN && Sized(args) && EnvironmentSized(env)
    modifies if memory == null then {} else {memory}
    ensures capacity < 0 || (capacity > 0 && memory == null && capacity <= INT32_MAX) ==> r == Err(EINVAL)
    ensures capacity > INT32_MAX ==> r == Err(EOVERFLOW)
    ensures 0 <= capacity <= INT32_MAX && (memory == null ==> capacity == 0) ==>
      var printed := FromFormat(EmptyStream, true, format, 0, args, env);
      && r == printed.result && stores == printed.stores
      && (memory != null ==> Shows(memory[..], capacity, printed.stream.text) && memory[capacity..] == old(memory[capacity..]))
  {
    hide FromFormat;
    hide Sized;
    hide EnvironmentSized;
    var sink := new FormatSink();
    var status := sink.Init(memory, capacity);
    if status.Err? { return Err(status.errno), []; }
    r, stores := RunFormat(sink, format, args, env);
    HoldsLength(sink.buffer[..], capacity, sink.written, sink.stream.text);
  }

  /**
   fmt_vsprintf without its debugging check. The caller has more room than the estimate; then the writes
   need no checks, and the whole text is there.
   */
  method Vsprintf(memory: array<char>, capacity: nat, format: string, args: seq<Arg>, env: Environment)
    returns (r: Result<nat>, stores: seq<Stored>)
    requires 0 < capacity <= memory.Length && capacity <= INT32_MAX
    requires |format| < FMT_MAX_FORMAT_LEN && Sized(args) && EnvironmentSized(env) && RyuBounded(env.ryu)
    requires EstimateFormatFrom(0, format, 0, args, env).Ok? && EstimateFormatFrom(0, format, 0, args, env).value < capacity
    modifies memory
    ensures var printed := FromFormat(EmptyStream, true, format, 0, args, env);
            && r == printed.result && stores == printed.stores
            && |printed.stream.text| < capacity
            && memory[..|printed.stream.text|] == printed.stream.text && memory[|printed.stream.text|] == '\0'
    ensures memory[capacity..] == old(memory[capacity..])
  {
    hide FromFormat;
    hide EstimateFormatFrom;
    hide Sized;
    hide EnvironmentSized;
    hide RyuBounded;
    EstimateBoundsFormat(format, true, args, env);
    var sink := new FormatSink();
    var status := sink.Init(memory, capacity);
    sink.unchecked := true;
    r, stores := RunFormat(sink, format, args, env);
    WholeText(memory[..], capacity, sink.written, sink.stream.text);
  }

  lemma WholeText(buffer: seq<char>, capacity: nat, written: nat, text: string)
    requires Holds(buffer, capacity, written, text) && |text| < capacity
    ensures |text| < |buffer| && buffer[..|text|] == text && buffer[|text|] == '\0'
  {
  }

  /**
   fmt_vsnprintf_planned without its debugging check: into a buffer longer than the estimate it writes exactly
   what formatting straight from the format would, and never outside.
   */
  method VsnprintfPlanned(plan: FmtPlan, memory: array?<char>, capacity: int, args: seq<Arg>, env: Environment, ghost segments: Segments)
    returns (r: Result<nat>, stores: seq<Stored>)
    requires memory != null ==> capacity <= memory.Length && memory as object != plan.specs
    requires capacity <= INT32_MAX && Sized(args) && EnvironmentSized(env) && RyuBounded(env.ryu)
    requires plan.valid ==>
      && plan.Holds(segments) && EstimateFrom(0, segments.specs, segments.tail, args, env).Ok?
      && (capacity > 0 ==> EstimateFrom(0, segments.specs, segments.tail, args, env).value < capacity)
    modifies if memory == null then {} else {memory}
    ensures !plan.valid || memory == null || capacity <= 0 ==> r == Err(EINVAL)
    ensures plan.valid && memory != null && capacity > 0 ==>
      var printed := FromFormat(EmptyStream, true, plan.format, 0, args, env);
      && r == printed.result && stores == printed.stores
      && |printed.stream.text| < capacity
      && memory[..|printed.stream.text|] == printed.stream.text && memory[|printed.stream.text|] == '\0'
      && memory[capacity..] == old(memory[capacity..])
  {
    hide FromFormat;
    hide FromSegments;
    hide EstimateFrom;
    hide SegmentsFrom;
    hide Sized;
    hide EnvironmentSized;
    hide RyuBounded;
    hide StandAll;
    if !plan.valid || memory == null || capacity <= 0 { return Err(EINVAL), []; }
    EstimateBoundsRun(0, EmptyStream, true, segments.specs, segments.tail, args, env);
    SegmentsPrintTheSame(EmptyStream, true, plan.format, 0, args, env);
    var sink := new FormatSink();
    var status := sink.Init(memory, capacity);
    sink.unchecked := true;
    assert plan.Holds(segments);
    r, stores := RunPlan(sink, plan, args, env, segments);
    WholeText(memory[..], capacity, sink.written, sink.stream.text);
  }
}
