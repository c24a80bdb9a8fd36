/**
 The sink of the formatter (cbase/fmt.c): whatever its capacity, it collects the same text, and its buffer
 holds as much of that text as fits before a terminator.
 */
module FormatSink {
  import opened Powers
  import opened Results

  const INT32_MAX: nat := 0x7FFF_FFFF

  // ---- what is written, whatever the capacity --------------------------------------------

  /** Everything written so far, and whether a write was refused because the total would overflow. */
  datatype Stream = Stream(text: string, overflow: bool)

  const EmptyStream: Stream := Stream("", false)

  /** A write that would overflow the total is dropped, and so is every one after it. */
  function Put(s: Stream, data: string): (r: Stream)
    ensures s.text <= r.text <= s.text + data
    ensures |s.text| <= INT32_MAX ==> |r.text| <= INT32_MAX
  {
    if s.overflow then s
    else if |data| > INT32_MAX - |s.text| then Stream(s.text, true)
    else Stream(s.text + data, false)
  }

  /** Writing the pieces of a conversion one after the other. */
  function PutAll(s: Stream, pieces: seq<string>): (r: Stream)
    ensures s.text <= r.text
    ensures |s.text| <= INT32_MAX ==> |r.text| <= INT32_MAX
    decreases |pieces|
  {
    if pieces == [] then s else PutAll(Put(s, pieces[0]), pieces[1..])
  }

  function Joined(pieces: seq<string>): string {
    if pieces == [] then "" else pieces[0] + Joined(pieces[1..])
  }

  /** As long as the total does not overflow, only the concatenation of the pieces matters. */
  lemma {:induction false} PutAllIsPut(s: Stream, pieces: seq<string>)
    requires !s.overflow && |s.text| + |Joined(pieces)| <= INT32_MAX
    ensures PutAll(s, pieces) == Put(s, Joined(pieces)) == Stream(s.text + Joined(pieces), false)
    decreases |pieces|
  {
    if pieces == [] {
      assert s.text + "" == s.text;
    } else {
      PutAllIsPut(Put(s, pieces[0]), pieces[1..]);
      assert s.text + pieces[0] + Joined(pieces[1..]) == s.text + (pieces[0] + Joined(pieces[1..]));
    }
  }

  /** A write is refused exactly when the total would pass an int32; otherwise all pieces are there. */
  lemma {:induction false} PutAllWhole(s: Stream, pieces: seq<string>)
    requires |s.text| <= INT32_MAX
    ensures PutAll(s, pieces).overflow <==> s.overflow || |s.text| + |Joined(pieces)| > INT32_MAX
    ensures !PutAll(s, pieces).overflow ==> PutAll(s, pieces).text == s.text + Joined(pieces)
    decreases |pieces|
  {
    if pieces == [] {
      assert s.text + "" == s.text;
    } else {
      PutAllWhole(Put(s, pieces[0]), pieces[1..]);
      assert s.text + pieces[0] + Joined(pieces[1..]) == s.text + (pieces[0] + Joined(pieces[1..]));
    }
  }

  function Copies(byte: char, n: nat): (s: string)
    ensures |s| == n && forall i :: 0 <= i < n ==> s[i] == byte
  {
    seq(n, _ => byte)
  }

  /** The buffer holds the first min(|text|, capacity - 1) bytes of the text and a terminator. */
  ghost predicate Holds(buffer: seq<char>, capacity: nat, written: nat, text: string) {
    && capacity <= |buffer|
    && written == (if capacity == 0 then 0 else Min(|text|, capacity - 1))
    && (capacity > 0 ==> buffer[..written] == text[..written] && buffer[written] == '\0')
  }

  /** How much of the new data the buffer takes. */
  function Taken(capacity: nat, written: nat, len: nat): (n: nat)
    ensures n <= len
  {
    if capacity - 1 - written <= 0 then 0 else Min(len, capacity - 1 - written)
  }

  lemma HoldsMore(before: seq<char>, after: seq<char>, capacity: nat, written: nat, text: string, data: string)
    requires Holds(before, capacity, written, text) && |after| == |before| && capacity > 0
    requires var n := Taken(capacity, written, |data|);
             after[..written] == before[..written] && after[written..written + n] == data[..n] && after[written + n] == '\0'
    ensures Holds(after, capacity, written + Taken(capacity, written, |data|), text + data)
  {
    var n := Taken(capacity, written, |data|);
    if n > 0 {
      assert written == |text|;
      assert (text + data)[..written + n] == text + data[..n];
      assert after[..written + n] == after[..written] + after[written..written + n];
    } else {
      assert (text + data)[..written] == text[..written];
    }
  }

  lemma HoldsLength(buffer: seq<char>, capacity: nat, written: nat, text: string)
    requires Holds(buffer, capacity, written, text)
    ensures capacity <= |buffer| && written == if capacity == 0 then 0 else Min(|text|, capacity - 1)
  {
  }

  lemma HoldsNothing(buffer: seq<char>, text: string)
    ensures Holds(buffer, 0, 0, text)
  {
  }

  // ---- the sink ---------------------------------------------------------------------------

  class FormatSink {
    var buffer: array<char>
    var capacity: nat
    var written: nat
    var total: nat
    var failed: bool                // status is -EOVERFLOW; no other status is ever stored
    var unchecked: bool
    var writeCount: bool
    ghost var stream: Stream

    ghost predicate Valid()
      reads this, buffer
    {
      && capacity <= buffer.Length && capacity <= INT32_MAX
      && total == |stream.text| <= INT32_MAX && failed == stream.overflow
      && Holds(buffer[..], capacity, written, stream.text)
      && (unchecked ==> total < capacity)
    }

    constructor ()
      ensures Valid() && fresh(buffer) && capacity == 0 && stream == EmptyStream && !unchecked
    {
      buffer := new char[0];
      capacity, written, total := 0, 0, 0;
      failed, unchecked, writeCount := false, false, true;
      stream := EmptyStream;
    }

    /** fmt_sink_init, for memory of which the caller says that it has room for `capacity` bytes. */
    method Init(memory: array?<char>, capacity: int) returns (r: Result<()>)
      requires memory != null ==> capacity <= memory.Length
      modifies this, if memory == null then {} else {memory}
      ensures r.Ok? <==> 0 <= capacity <= INT32_MAX && (capacity > 0 ==> memory != null)
      ensures !r.Ok? ==> r.errno == if capacity > INT32_MAX then EOVERFLOW else EINVAL
      ensures r.Ok? ==> Valid() && stream == EmptyStream && this.capacity == capacity && !unchecked && writeCount
      ensures r.Ok? ==> if memory == null then fresh(buffer) else buffer == memory
      ensures memory != null ==> forall i :: 0 <= i < memory.Length && !(i == 0 < capacity) ==> memory[i] == old(memory[i])
    {
      if capacity < 0 { return Err(EINVAL); }
      if capacity > INT32_MAX { return Err(EOVERFLOW); }
      if capacity > 0 && memory == null { return Err(EINVAL); }
      if memory == null {
        buffer := new char[0];
      } else {
        buffer := memory;
      }
      this.capacity := capacity;
      written, total := 0, 0;
      failed, unchecked, writeCount := false, false, true;
      stream := EmptyStream;
      if capacity > 0 {
        buffer[0] := '\0';
      }
      return Ok(());
    }

    /** fmt_sink_add_total */
    method AddTotal(len: nat)
      requires total <= INT32_MAX
      modifies this`total, this`failed
      ensures failed == (old(failed) || len > INT32_MAX - old(total))
      ensures total == if failed then old(total) else old(total) + len
    {
      if failed { return; }
      if len > INT32_MAX - total {
        failed := true;
        return;
      }
      total := total + len;
    }

    /** Copies the bytes behind what is written, and a terminator behind them. */
    method CopyBytes(bytes: string)
      requires written + |bytes| < capacity <= buffer.Length
      modifies this`written, buffer
      ensures written == old(written) + |bytes|
      ensures buffer[..old(written)] == old(buffer[..written]) && buffer[old(written)..written] == bytes
      ensures buffer[written] == '\0' && buffer[capacity..] == old(buffer[capacity..])
    {
      ghost var before := buffer[..];
      for i := 0 to |bytes|
        invariant buffer[..written] == before[..written]
        invariant buffer[written..written + i] == bytes[..i]
        invariant buffer[capacity..] == before[capacity..]
        modifies buffer
      {
        buffer[written + i] := bytes[i];
      }
      ghost var copied := buffer[..];
      buffer[written + |bytes|] := '\0';
      assert buffer[..] == copied[written + |bytes| := '\0'];
      written := written + |bytes|;
    }

    /** The end of both writers, after the total has been counted. */
    method Deliver(bytes: string, ghost text: string, ghost data: string)
      requires capacity > 0 && Holds(buffer[..], capacity, written, text)
      requires bytes <= data && |bytes| == Taken(capacity, written, |data|)
      modifies this`written, buffer
      ensures Holds(buffer[..], capacity, written, text + data)
      ensures buffer[capacity..] == old(buffer[capacity..])
    {
      ghost var before := buffer[..];
      if capacity - 1 - written > 0 {
        CopyBytes(bytes);
      }
      HoldsMore(before, buffer[..], capacity, old(written), text, data);
    }

    /** fmt_sink_write. Without checks the caller promises that the bytes fit. */
    method Write(data: string)
      requires Valid() && |data| < INT32_MAX
      requires unchecked ==> |Put(stream, data).text| < capacity
      modifies this`written, this`total, this`failed, this`stream, buffer
      ensures Valid() && stream == Put(old(stream), data)
      ensures buffer[capacity..] == old(buffer[capacity..])
    {
      hide Holds;
      ghost var text := stream.text;
      stream := Put(stream, data);
      if failed { return; }
      AddTotal(|data|);
      if failed { return; }
      if capacity == 0 {
        HoldsLength(buffer[..], 0, written, text);
        HoldsNothing(buffer[..], stream.text);
        return;
      }
      HoldsLength(buffer[..], capacity, written, text);
      var n := if unchecked then |data| else Taken(capacity, written, |data|);
      Deliver(data[..n], text, data);
    }

    /** fmt_sink_write_repeat */
    method WriteRepeat(byte: char, len: nat)
      requires Valid()
      requires unchecked ==> |Put(stream, Copies(byte, len)).text| < capacity
      modifies this`written, this`total, this`failed, this`stream, buffer
      ensures Valid() && stream == Put(old(stream), Copies(byte, len))
      ensures buffer[capacity..] == old(buffer[capacity..])
    {
      ghost var data := Copies(byte, len);
      hide Holds;
      ghost var text := stream.text;
      stream := Put(stream, data);
      if failed { return; }
      AddTotal(len);
      if failed { return; }
      if capacity == 0 {
        HoldsLength(buffer[..], 0, written, text);
        HoldsNothing(buffer[..], stream.text);
        return;
      }
      HoldsLength(buffer[..], capacity, written, text);
      var n := if unchecked then len else Taken(capacity, written, len);
      var bytes := Copies(byte, n);
      assert bytes == data[..n];
      Deliver(bytes, text, data);
    }

    /** fmt_sink_write_byte */
    method WriteByte(byte: char)
      requires Valid()
      requires unchecked ==> |Put(stream, [byte]).text| < capacity
      modifies this`written, this`total, this`failed, this`stream, buffer
      ensures Valid() && stream == Put(old(stream), [byte])
      ensures buffer[capacity..] == old(buffer[capacity..])
    {
      Write([byte]);
    }

    /** fmt_sink_finish: the length of the whole text, however much of it the buffer holds. */
    method Finish() returns (r: Result<nat>)
      requires Valid()
      ensures r == if stream.overflow then Err(EOVERFLOW) else Ok(|stream.text|)
    {
      return if failed then Err(EOVERFLOW) else Ok(total);
    }
  }
}
