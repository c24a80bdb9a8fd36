/** How the fields of the formatter look: on which side they are filled, with what, and where zeros go (cbase/fmt.c). */
module FormatFields {
  import opened Powers
  import opened Decimal
  import opened IntegerText
  import opened FixedStyle
  import opened FormatFloats
  import opened FormatSink
  import opened FormatSpec
  import opened FormatInteger
  import opened FormatIntegerFacts
  import opened FormatConversion

  /** t is the content, filled with spaces up to the width behind it or in front of it. */
  ghost predicate Justified(t: string, content: string, left: bool, width: int) {
    && |t| == Max(|content|, width)
    && (if left then t[..|content|] == content else t[|t| - |content|..] == content)
    && forall i :: 0 <= i < |t| && (if left then i >= |content| else i < |t| - |content|) ==> t[i] == ' '
  }

  lemma SpacesJustify(content: string, left: bool, width: int)
    ensures var spaces := Copies(' ', PadLength(width, |content|));
            Justified(if left then content + spaces else spaces + content, content, left, width)
  {
    var spaces := Copies(' ', PadLength(width, |content|));
    if left {
      assert (content + spaces)[..|content|] == content;
    } else {
      assert (spaces + content)[|spaces|..] == content;
    }
  }

  /** Characters and strings: the bytes, with spaces on the side the flag asks for. */
  lemma PaddedShows(spec: FormatSpec, data: string)
    ensures Justified(Joined(PaddedPieces(spec, data)), data, spec.flags.left, spec.width)
  {
    var p := PaddedPieces(spec, data);
    JoinFrom(p, 0);
    JoinFrom(p, 1);
    JoinFrom(p, 2);
    JoinNone(p);
    assert p[0..] == p;
    SpacesJustify(data, spec.flags.left, spec.width);
    var spaces := Copies(' ', PadLength(spec.width, |data|));
    if spec.flags.left {
      assert "" + (data + (spaces + "")) == data + spaces;
    } else {
      assert spaces + (data + ("" + "")) == spaces + data;
    }
  }

  /**
   Integers: the prefix, then zeros, then the digits. A precision asks for at least so many digits; without
   one the zero flag fills a right-justified field with zeros behind the prefix.
   */
  lemma IntegerShows(spec: FormatSpec, value: IntegerValue) returns (prefix: string, zeros: nat)
    ensures var digits := Digits(spec, value);
            && prefix == Prefix(spec, value, |digits|, PrecisionZeros(spec, |digits|))
            && Justified(Joined(IntegerPieces(spec, value)), prefix + (Copies('0', zeros) + digits), spec.flags.left, spec.width)
            && (HasPrecision(spec) ==> zeros + |digits| == Max(spec.precision, |digits|))
            && (!HasPrecision(spec) && spec.flags.zero && !spec.flags.left ==>
                  |prefix| + zeros + |digits| == Max(spec.width, |prefix| + |digits|))
            && (!HasPrecision(spec) && (!spec.flags.zero || spec.flags.left) ==> zeros == 0)
  {
    hide Joined;
    hide NumberText;
    var digits := Digits(spec, value);
    var least := PrecisionZeros(spec, |digits|);
    prefix := Prefix(spec, value, |digits|, least);
    var zeroPad := ZeroPad(spec, |prefix| + least + |digits|);
    zeros := zeroPad + least;
    var content := prefix + (Copies('0', zeros) + digits);
    var spaces := PadLength(spec.width, |content|);
    FieldText(spec.flags.left, spaces, prefix, zeroPad, least, digits);
    BothSides(spec.flags.left, spaces, content);
    SpacesJustify(content, spec.flags.left, spec.width);
  }

  lemma BothSides(left: bool, spaces: nat, content: string)
    ensures Copies(' ', if left then 0 else spaces) + (content + Copies(' ', if left then spaces else 0))
         == if left then content + Copies(' ', spaces) else Copies(' ', spaces) + content
  {
    assert Copies(' ', 0) == "";
    assert content + "" == content;
  }

  /** Pointers: the text reads back as the address. */
  lemma PointerReadsBack(spec: FormatSpec, address: nat)
    ensures ReadField(Joined(PointerPieces(spec, address)), 'x') == address
  {
    hide Joined;
    hide ReadField;
    var digits := NumberText(address, 16, false);
    var spaces := PadLength(spec.width, 2 + |digits|);
    FieldText(spec.flags.left, spaces, "0x", 0, 0, digits);
    NumberTextReads(address, 16, false);
    FieldReads(if spec.flags.left then 0 else spaces, "0x", 0, digits, if spec.flags.left then spaces else 0, 'x');
  }

  /** Floating point: zeros stand behind the sign and behind the mark of a hexadecimal body, and only where the flag asks for them. */
  lemma FloatShows(spec: FormatSpec, sign: string, body: string) returns (mark: nat, zeros: nat)
    ensures mark == MarkLength(spec, body)
    ensures Justified(Joined(FloatPieces(spec, sign, body)), sign + (body[..mark] + (Copies('0', zeros) + body[mark..])),
                      spec.flags.left, spec.width)
    ensures if spec.flags.zero && !spec.flags.left then |sign| + zeros + |body| == Max(|sign| + |body|, spec.width) else zeros == 0
  {
    hide Joined;
    hide Justified;
    mark := MarkLength(spec, body);
    zeros := if spec.flags.zero && !spec.flags.left then PadLength(spec.width, |sign| + |body|) else 0;
    var content := sign + (body[..mark] + (Copies('0', zeros) + body[mark..]));
    var spaces := PadLength(spec.width, |content|);
    FloatText(spec.flags.left, spaces, sign, body[..mark], zeros, body[mark..]);
    SpacesJustify(content, spec.flags.left, spec.width);
  }

  lemma FloatText(left: bool, spaces: nat, sign: string, mark: string, zeros: nat, rest: string)
    ensures var content := sign + (mark + (Copies('0', zeros) + rest));
            Joined(FloatField(left, spaces, sign, mark, zeros, rest))
            == if left then content + Copies(' ', spaces) else Copies(' ', spaces) + content
  {
    hide Joined;
    var p := FloatField(left, spaces, sign, mark, zeros, rest);
    JoinSix(p);
    assert rest + "" == rest;
    if left {
      assert "" + p[1] == p[1];
    }
  }

  /** Zeros in front of a text in fixed style do not change the number it denotes. */
  lemma ZerosKeepFixed(t: string, n: nat, precision: nat, alternate: bool, zeros: nat) returns (whole: string, fraction: string)
    requires ReadsAsFixed(t, n, precision, alternate)
    ensures AllDigits(whole) && AllDigits(fraction) && |fraction| == precision
    ensures Copies('0', zeros) + t == whole + (if precision > 0 || alternate then "." else "") + fraction
    ensures AllDigits(whole + fraction) && ReadDec(whole + fraction) == n
  {
    var first, second :| PartsRead(t, first, second, n, precision, alternate);
    var pad := Copies('0', zeros);
    whole, fraction := pad + first, second;
    LeadingZeros(pad, first);
    LeadingZeros(pad, first + second);
    assert whole + fraction == pad + (first + second);
  }
}
