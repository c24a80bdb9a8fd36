/**
 Cached plans and the public entry points of the formatter (cbase/fmt.c). A plan prints what its format
 prints, and with a buffer one byte longer than the estimate it does so in bounds without any check.
 */
module FormatPlan {
  import opened Powers
  import opened Results
  import opened FormatFloats
  import opened FormatSink
  import opened FormatSpec
  import opened FormatGrammar
  import opened FormatInteger
  import opened FormatConversion
  import opened FormatExecute
  import opened FormatRuns
  import opened FormatRooms

  const FMT_MAX_FORMAT_LEN: nat := 256
  const FMT_PLAN_MAX_FORMAT_LEN: nat := 128
  const FMT_PLAN_MAX_SPECS: nat := (FMT_PLAN_MAX_FORMAT_LEN - 1) / 2

  /** A format short enough for a plan never holds more conversions than a plan has room for. */
  lemma PlanHasRoom(format: string)
    requires |format| < FMT_PLAN_MAX_FORMAT_LEN && SegmentsFrom(format, 0).Ok?
    ensures |SegmentsFrom(format, 0).value.specs| <= FMT_PLAN_MAX_SPECS
  {
    TwoBytesEach(format, 0);
  }

  /** A parsed conversion and where the bytes before it stand in the format. */
  datatype PlanSpec = PlanSpec(spec: FormatSpec, literalOffset: nat, literalLen: nat)

  /** The segment a plan entry stands for. */
  ghost predicate Stands(p: PlanSpec, format: string, segment: Segment) {
    && p.spec == segment.spec && p.literalOffset + p.literalLen <= |format|
    && format[p.literalOffset..p.literalOffset + p.literalLen] == segment.literal
  }

  ghost predicate StandAll(specs: seq<PlanSpec>, format: string, segments: seq<Segment>) {
    |specs| == |segments| && forall i :: 0 <= i < |specs| ==> Stands(specs[i], format, segments[i])
  }

  class FmtPlan {
    var format: string
    var specs: array<PlanSpec>
    var specCount: nat
    var tailOffset: nat
    var tailLen: nat
    var valid: bool

    constructor ()
      ensures fresh(specs) && Room() && !valid
    {
      format := "";
      specs := new PlanSpec[FMT_PLAN_MAX_SPECS](_ => PlanSpec(EMPTY_SPEC, 0, 0));
      specCount, tailOffset, tailLen, valid := 0, 0, 0, false;
    }

    ghost predicate Room()
      reads this
    {
      specs.Length == FMT_PLAN_MAX_SPECS && specCount <= specs.Length
    }

    /** The plan holds the segments of its format. */
    ghost predicate Holds(segments: Segments)
      reads this, specs
    {
      && Room() && |format| < FMT_PLAN_MAX_FORMAT_LEN && SegmentsFrom(format, 0) == Ok(segments)
      && StandAll(specs[..specCount], format, segments.specs)
      && tailOffset + tailLen == |format| && format[tailOffset..] == segments.tail
    }

    /** One more entry of the plan. */
    method Add(p: PlanSpec, ghost done: seq<Segment>) returns (ghost done': seq<Segment>)
      requires Room() && specCount < FMT_PLAN_MAX_SPECS && StandAll(specs[..specCount], format, done)
      requires p.literalOffset + p.literalLen <= |format|
      modifies this`specCount, specs
      ensures Room() && specCount == old(specCount) + 1
      ensures done' == done + [Segment(format[p.literalOffset..p.literalOffset + p.literalLen], p.spec)]
      ensures StandAll(specs[..specCount], format, done')
    {
      hide StandAll;
      ghost var segment := Segment(format[p.literalOffset..p.literalOffset + p.literalLen], p.spec);
      StandOneMore(specs[..specCount], format, done, p, segment);
      ghost var before := specs[..specCount];
      specs[specCount] := p;
      assert specs[..specCount + 1] == before + [p];
      specCount := specCount + 1;
      done' := done + [segment];
    }

    /** One conversion of the format: an entry more, or the first error. */
    method ParseEntry(literal: nat, cursor: nat, ghost done: seq<Segment>) returns (r: Result<nat>, ghost done': seq<Segment>)
      requires Room() && |format| < FMT_PLAN_MAX_FORMAT_LEN && literal <= cursor < |format| && 2 * specCount <= literal
      requires format[cursor] == '%' && NextPercent(format, literal) == cursor && StandAll(specs[..specCount], format, done)
      modifies this`specCount, specs
      ensures Room() && StandAll(specs[..specCount], format, done')
      ensures r.Err? ==> specCount == old(specCount) && SegmentsFrom(format, literal).Err?
      ensures r.Err? ==>
        r.errno == if specCount + ParsedBefore(format, literal) < FMT_PLAN_MAX_SPECS then SegmentsFrom(format, literal).errno else EOVERFLOW
      ensures r.Ok? ==> specCount == old(specCount) + 1 && cursor + 1 < r.value <= |format| && 2 * specCount <= r.value
      ensures r.Ok? ==> ParsedBefore(format, literal) == 1 + ParsedBefore(format, r.value)
      ensures r.Ok? ==> Behind(done, SegmentsFrom(format, literal)) == Behind(done', SegmentsFrom(format, r.value))
    {
      hide SpecAt;
      hide SegmentsFrom;
      hide Behind;
      hide StandAll;
      hide NextPercent;
      hide ParsedBefore;
      done' := done;
      NextSegment(format, literal, done);
      if specCount >= FMT_PLAN_MAX_SPECS {
        NoConversionAtEnd(format, literal);
        return Err(EOVERFLOW), done;
      }
      var parsed := ParseSpec(format, cursor + 1);
      if parsed.Err? { return Err(parsed.errno), done; }
      var (spec, next) := parsed.value;
      done' := Add(PlanSpec(spec, literal, cursor - literal), done);
      return Ok(next), done';
    }

    /** The first loop of fmt_vsnprintf_estimate_plan. */
    method Parse() returns (r: Result<()>)
      requires Room() && |format| < FMT_PLAN_MAX_FORMAT_LEN
      modifies this`specCount, this`tailOffset, this`tailLen, specs
      ensures Room() && (r.Ok? <==> SegmentsFrom(format, 0).Ok?)
      ensures r.Ok? ==> Holds(SegmentsFrom(format, 0).value)
      ensures r.Err? ==>
        r.errno == if ParsedBefore(format, 0) < FMT_PLAN_MAX_SPECS then SegmentsFrom(format, 0).errno else EOVERFLOW
    {
      hide ParsedBefore;
      hide SpecAt;
      hide SegmentsFrom;
      hide Behind;
      hide StandAll;
      hide NextPercent;
      specCount := 0;
      var literal, cursor := 0, 0;
      ghost var done: seq<Segment> := [];
      BehindNothing(SegmentsFrom(format, 0));
      StandNone(specs[..0], format);
      while cursor < |format|
        invariant literal <= cursor <= |format| && Room() && 2 * specCount <= literal
        invariant NextPercent(format, cursor) == NextPercent(format, literal)
        invariant SegmentsFrom(format, 0) == Behind(done, SegmentsFrom(format, literal))
        invariant StandAll(specs[..specCount], format, done)
        invariant specCount + ParsedBefore(format, literal) == ParsedBefore(format, 0)
        decreases |format| - cursor
      {
        PercentStep(format, cursor);
        if format[cursor] != '%' {
          cursor := cursor + 1;
          continue;
        }
        var next, more := ParseEntry(literal, cursor, done);
        if next.Err? {
          BehindError(done, SegmentsFrom(format, literal));
          return Err(next.errno);
        }
        literal, cursor, done := next.value, next.value, more;
      }
      PercentEnd(format);
      LastSegment(format, literal, done);
      tailOffset, tailLen := literal, cursor - literal;
      return Ok(());
    }
  }

  /** How many conversions parse before the end of the format or the first that does not. */
  ghost function ParsedBefore(format: string, literal: nat): nat
    requires literal <= |format|
    decreases |format| - literal
  {
    var p := NextPercent(format, literal);
    if p == |format| then 0
    else
      match SpecAt(format, p + 1)
      case Err(errno) => 0
      case Ok((spec, next)) => 1 + ParsedBefore(format, next)
  }

  lemma {:induction false} TwoBytesBefore(format: string, literal: nat)
    requires literal <= |format|
    ensures literal + 2 * ParsedBefore(format, literal) <= |format|
    decreases |format| - literal
  {
    hide SpecAt;
    var p := NextPercent(format, literal);
    if p < |format| && SpecAt(format, p + 1).Ok? { TwoBytesBefore(format, SpecAt(format, p + 1).value.1); }
  }

  /** Where the conversion behind those that parse stands, if one does not. */
  lemma {:induction false} WhereParsingStops(format: string, literal: nat) returns (p: nat)
    requires literal <= |format| && SegmentsFrom(format, literal).Err?
    ensures literal + 2 * ParsedBefore(format, literal) <= p < |format| && format[p] == '%'
    ensures SpecAt(format, p + 1) == Err(SegmentsFrom(format, literal).errno)
    decreases |format| - literal
  {
    hide SpecAt;
    p := NextPercent(format, literal);
    if SpecAt(format, p + 1).Ok? { p := WhereParsingStops(format, SpecAt(format, p + 1).value.1); }
  }

  /**
   The limit on the entries of a plan is met only by a format of 63 two-byte conversions and one more percent
   sign at its end, which does not parse either way: only the error differs.
   */
  lemma LimitMetAtEnd(format: string)
    requires |format| < FMT_PLAN_MAX_FORMAT_LEN && ParsedBefore(format, 0) >= FMT_PLAN_MAX_SPECS && SegmentsFrom(format, 0).Err?
    ensures |format| == FMT_PLAN_MAX_FORMAT_LEN - 1 && format[|format| - 1] == '%'
    ensures ParsedBefore(format, 0) == FMT_PLAN_MAX_SPECS && SegmentsFrom(format, 0) == Err(EINVAL)
  {
    hide SegmentsFrom;
    hide ParsedBefore;
    TwoBytesBefore(format, 0);
    var p := WhereParsingStops(format, 0);
    assert SpecAt(format, |format|) == Err(EINVAL);
  }

  ghost function Behind(done: seq<Segment>, rest: Result<Segments>): Result<Segments> {
    match rest
    case Ok(segments) => Ok(Segments(done + segments.specs, segments.tail))
    case Err(errno) => Err(errno)
  }

  lemma BehindNothing(rest: Result<Segments>)
    ensures Behind([], rest) == rest
  {
    if rest.Ok? { assert [] + rest.value.specs == rest.value.specs; }
  }

  lemma BehindError(done: seq<Segment>, rest: Result<Segments>)
    requires rest.Err?
    ensures Behind(done, rest) == rest
  {
  }

  lemma BehindOneMore(done: seq<Segment>, segment: Segment, rest: Result<Segments>)
    ensures Behind(done + [segment], rest) == Behind(done, Behind([segment], rest))
  {
    if rest.Ok? { assert done + [segment] + rest.value.specs == done + ([segment] + rest.value.specs); }
  }

  lemma PercentStep(format: string, cursor: nat)
    requires cursor < |format|
    ensures NextPercent(format, cursor) == if format[cursor] == '%' then cursor else NextPercent(format, cursor + 1)
  {
  }

  lemma PercentEnd(format: string)
    ensures NextPercent(format, |format|) == |format|
  {
  }

  /** At a percent sign: a specification that does not parse fails the whole format, otherwise it adds a segment. */
  lemma NextSegment(format: string, literal: nat, done: seq<Segment>)
    requires literal <= |format| && NextPercent(format, literal) < |format|
    ensures var p := NextPercent(format, literal);
            match SpecAt(format, p + 1)
            case Err(errno) =>
              SegmentsFrom(format, literal) == Behind(done, SegmentsFrom(format, literal)) == Err(errno) && ParsedBefore(format, literal) == 0
            case Ok((spec, next)) =>
              ParsedBefore(format, literal) == 1 + ParsedBefore(format, next) &&
              Behind(done, SegmentsFrom(format, literal)) == Behind(done + [Segment(format[literal..p], spec)], SegmentsFrom(format, next))
  {
    hide SpecAt;
    var p := NextPercent(format, literal);
    var parsed := SpecAt(format, p + 1);
    if parsed.Ok? {
      BehindOneMore(done, Segment(format[literal..p], parsed.value.0), SegmentsFrom(format, parsed.value.1));
    }
  }

  lemma LastSegment(format: string, literal: nat, done: seq<Segment>)
    requires literal <= |format| && NextPercent(format, literal) == |format|
    ensures Behind(done, SegmentsFrom(format, literal)) == Ok(Segments(done, format[literal..]))
  {
    assert done + [] == done;
  }

  lemma StandNone(specs: seq<PlanSpec>, format: string)
    requires specs == []
    ensures StandAll(specs, format, [])
  {
  }

  lemma StandOneMore(specs: seq<PlanSpec>, format: string, done: seq<Segment>, p: PlanSpec, segment: Segment)
    requires StandAll(specs, format, done) && Stands(p, format, segment)
    ensures StandAll(specs + [p], format, done + [segment])
  {
  }

  /** A percent sign with nothing behind it. */
  lemma NoConversionAtEnd(format: string, literal: nat)
    requires literal <= |format| && NextPercent(format, literal) == |format| - 1
    ensures SegmentsFrom(format, literal).Err? && ParsedBefore(format, literal) == 0
  {
  }

  // ---- the estimate of a plan -----------------------------------------------------------------

  /** The second loop of fmt_vsnprintf_estimate_plan. */
  method EstimateSegments(plan: FmtPlan, args: seq<Arg>, env: Environment, ghost segments: Segments) returns (r: Result<nat>)
    requires plan.Holds(segments)
    ensures r == EstimateFrom(0, segments.specs, segments.tail, args, env)
  {
    hide EstimateFrom;
    hide AddSegment;
    hide AddEstimate;
    hide StandAll;
    var total, left := 0, args;
    var i := 0;
    assert segments.specs[0..] == segments.specs;
    ghost var entries := plan.specs[..plan.specCount];
    StandLength(entries, plan.format, segments.specs);
    while i < plan.specCount
      invariant i <= plan.specCount == |segments.specs|
      invariant EstimateFrom(total, segments.specs[i..], segments.tail, left, env)
             == EstimateFrom(0, segments.specs, segments.tail, args, env)
    {
      var entry := plan.specs[i];
      StandAt(entries, plan.format, segments.specs, i);
      assert segments.specs[i..][1..] == segments.specs[i + 1..];
      EstimateNext(total, segments.specs[i..], segments.tail, left, env);
      var added :- AddSegment(total, entry.literalLen, entry.spec, left, env);
      total, left := added.length, added.args;
      i := i + 1;
    }
    EstimateLast(total, segments.specs[i..], segments.tail, left, env);
    return AddEstimate(total, plan.tailLen);
  }

  lemma EstimateNext(total: nat, segments: seq<Segment>, tail: string, args: seq<Arg>, env: Environment)
    requires segments != []
    ensures var first := AddSegment(total, |segments[0].literal|, segments[0].spec, args, env);
            && (first.Err? ==> EstimateFrom(total, segments, tail, args, env) == Err(first.errno))
            && (first.Ok? ==> EstimateFrom(total, segments, tail, args, env)
                              == EstimateFrom(first.value.length, segments[1..], tail, first.value.args, env))
  {
    hide EstimateOf;
  }

  lemma EstimateLast(total: nat, segments: seq<Segment>, tail: string, args: seq<Arg>, env: Environment)
    requires segments == []
    ensures EstimateFrom(total, segments, tail, args, env) == AddEstimate(total, |tail|)
  {
  }

  /** For a format that parses, the estimate of its segments is the sum of its literals and rooms. */
  lemma EstimatesExactly(format: string, args: seq<Arg>, env: Environment)
    ensures SegmentsFrom(format, 0).Ok? ==>
      var segments := SegmentsFrom(format, 0).value;
      forall n: nat :: EstimateFrom(0, segments.specs, segments.tail, args, env) == Ok(n) <==> FormatEstimates(format, args, env, n)
    ensures SegmentsFrom(format, 0).Err? ==> forall n: nat :: !FormatEstimates(format, args, env, n)
    ensures '%' !in format && |format| <= INT32_MAX ==> FormatEstimates(format, args, env, |format|)
  {
    hide SegmentsFrom;
    hide Estimates;
    if SegmentsFrom(format, 0).Ok? {
      var segments := SegmentsFrom(format, 0).value;
      forall n: nat ensures EstimateFrom(0, segments.specs, segments.tail, args, env) == Ok(n) <==> FormatEstimates(format, args, env, n) {
        EstimateIsSum(0, segments.specs, segments.tail, args, env, n);
      }
    }
    if '%' !in format && |format| <= INT32_MAX { PlainFormat(format, args, env); }
  }

  /**
   fmt_vsnprintf_estimate_plan: the plan is valid exactly when the call succeeds, which it does for every
   format below 128 bytes that parses and can be estimated.
   */
  method EstimatePlan(plan: FmtPlan, format: string, args: seq<Arg>, env: Environment) returns (r: Result<nat>)
    requires plan.Room()
    modifies plan, plan.specs
    ensures plan.Room() && plan.specs == old(plan.specs) && plan.valid == r.Ok?
    ensures |format| >= FMT_PLAN_MAX_FORMAT_LEN ==> r == Err(EOVERFLOW)
    ensures |format| < FMT_PLAN_MAX_FORMAT_LEN ==> plan.format == format
    ensures |format| < FMT_PLAN_MAX_FORMAT_LEN && SegmentsFrom(format, 0).Err? ==>
      r == Err(if ParsedBefore(format, 0) < FMT_PLAN_MAX_SPECS then SegmentsFrom(format, 0).errno else EOVERFLOW)
    ensures |format| < FMT_PLAN_MAX_FORMAT_LEN && SegmentsFrom(format, 0).Ok? ==>
      var segments := SegmentsFrom(format, 0).value;
      plan.Holds(segments) && r == EstimateFrom(0, segments.specs, segments.tail, args, env)
    ensures forall n: nat :: r == Ok(n) <==> |format| < 128 && FormatEstimates(format, args, env, n)
    ensures |format| < 128 && '%' !in format ==> r == Ok(|format|)
  {
    hide StandAll;
    hide SegmentsFrom;
    hide EstimateFrom;
    hide Estimates;
    hide FormatEstimates;
    EstimatesExactly(format, args, env);
    plan.valid := false;
    if |format| >= FMT_PLAN_MAX_FORMAT_LEN { return Err(EOVERFLOW); }
    plan.format := format;
    var parsed := plan.Parse();
    if parsed.Err? { return Err(parsed.errno); }
    r := EstimateSegments(plan, args, env, SegmentsFrom(format, 0).value);
    plan.valid := r.Ok?;
  }

  // ---- running --------------------------------------------------------------------------------

  /** One literal and one conversion of a plan. */
  method RunEntry(sink: FormatSink, literal: string, args: seq<Arg>, env: Environment, spec: FormatSpec,
                  ghost segments: seq<Segment>, ghost tail: string)
    returns (r: Result<seq<Arg>>, stores: seq<Stored>)
    requires segments != [] && segments[0] == Segment(literal, spec) && |literal| < INT32_MAX
    requires sink.Valid() && Sized(args) && EnvironmentSized(env)
    requires sink.unchecked ==> |FromSegments(sink.stream, sink.writeCount, segments, tail, args, env).stream.text| < sink.capacity
    modifies sink`written, sink`total, sink`failed, sink`stream, sink.buffer
    ensures sink.Valid() && sink.buffer[sink.capacity..] == old(sink.buffer[sink.capacity..])
    ensures r.Err? ==>
      Printed(sink.stream, Err(r.errno), stores) == FromSegments(old(sink.stream), sink.writeCount, segments, tail, args, env)
    ensures r.Ok? ==>
      && Sized(r.value)
      && FromSegments(old(sink.stream), sink.writeCount, segments, tail, args, env)
           == After(stores, FromSegments(sink.stream, sink.writeCount, segments[1..], tail, r.value, env))
  {
    hide Executed;
    hide FromSegments;
    hide Sized;
    hide EnvironmentSized;
    SegmentStep(sink.stream, sink.writeCount, segments, tail, args, env);
    sink.Write(literal);
    if sink.failed {
      return Err(EOVERFLOW), [];
    }
    ExecutedSized(sink.stream, sink.writeCount, spec, args, env);
    r, stores := ExecuteSpec(sink, spec, args, env);
  }

  /** fmt_vsnprintf_plan_sink */
  method RunPlan(sink: FormatSink, plan: FmtPlan, args: seq<Arg>, env: Environment, ghost segments: Segments)
    returns (r: Result<nat>, stores: seq<Stored>)
    requires plan.Holds(segments) && sink.Valid() && sink.buffer as object != plan.specs && Sized(args) && EnvironmentSized(env)
    requires sink.unchecked ==>
      |FromSegments(sink.stream, sink.writeCount, segments.specs, segments.tail, args, env).stream.text| < sink.capacity
    modifies sink`written, sink`total, sink`failed, sink`stream, sink.buffer
    ensures sink.Valid() && sink.buffer[sink.capacity..] == old(sink.buffer[sink.capacity..])
    ensures Printed(sink.stream, r, stores)
         == FromSegments(old(sink.stream), sink.writeCount, segments.specs, segments.tail, args, env)
  {
    hide SegmentsFrom;
    hide Holds;
    hide FromSegments;
    hide Sized;
    hide EnvironmentSized;
    hide StandAll;
    ghost var printed := FromSegments(sink.stream, sink.writeCount, segments.specs, segments.tail, args, env);
    ghost var entries, format := plan.specs[..plan.specCount], plan.format;
    stores := [];
    var left := args;
    var i := 0;
    AfterNothing(printed);
    StandLength(entries, format, segments.specs);
    assert segments.specs[0..] == segments.specs;
    while i < plan.specCount
      invariant i <= plan.specCount == |segments.specs| && sink.Valid() && Sized(left) && plan.specs[..plan.specCount] == entries
      invariant sink.buffer[sink.capacity..] == old(sink.buffer[sink.capacity..])
      invariant printed == After(stores, FromSegments(sink.stream, sink.writeCount, segments.specs[i..], segments.tail, left, env))
    {
      var entry := plan.specs[i];
      StandAt(entries, format, segments.specs, i);
      assert entries[i] == entry && segments.specs[i..][1..] == segments.specs[i + 1..];
      var rest, more := RunEntry(sink, plan.format[entry.literalOffset..entry.literalOffset + entry.literalLen], left, env, entry.spec,
                                 segments.specs[i..], segments.tail);
      if rest.Err? {
        return Err(rest.errno), stores + more;
      }
      AfterTwice(stores, more, FromSegments(sink.stream, sink.writeCount, segments.specs[i + 1..], segments.tail, rest.value, env));
      stores := stores + more;
      left := rest.value;
      i := i + 1;
    }
    LastPut(sink.stream, sink.writeCount, segments.specs[i..], segments.tail, left, env, stores);
    sink.Write(plan.format[plan.tailOffset..plan.tailOffset + plan.tailLen]);
    r := sink.Finish();
  }

  lemma StandLength(specs: seq<PlanSpec>, format: string, segments: seq<Segment>)
    requires StandAll(specs, format, segments)
    ensures |specs| == |segments|
  {
  }

  lemma StandAt(specs: seq<PlanSpec>, format: string, segments: seq<Segment>, i: nat)
    requires StandAll(specs, format, segments) && i < |specs|
    ensures i < |segments| && specs[i].spec == segments[i].spec && specs[i].literalOffset + specs[i].literalLen <= |format|
    ensures format[specs[i].literalOffset..specs[i].literalOffset + specs[i].literalLen] == segments[i].literal
  {
    assert Stands(specs[i], format, segments[i]);
  }

  lemma LastPut(s: Stream, writeCount: bool, segments: seq<Segment>, tail: string, args: seq<Arg>, env: Environment, stores: seq<Stored>)
    requires segments == []
    ensures var after := Put(s, tail);
            After(stores, FromSegments(s, writeCount, segments, tail, args, env))
              == Printed(after, if after.overflow then Err(EOVERFLOW) else Ok(|after.text|), stores)
  {
    assert stores + [] == stores;
  }
}
