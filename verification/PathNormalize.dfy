/** normalize of cbase/fs.c, in place, over the search of cbase/mem_literal_short.h. */
module PathNormalize {
  import opened PathText

  /** memchr: the first c in path[from..end], or end. */
  method Memchr(path: array<char>, c: char, from: nat, end: nat) returns (p: nat)
    requires from <= end <= path.Length
    ensures from <= p <= end && (p < end ==> path[p] == c)
    ensures forall j :: from <= j < p ==> path[j] != c
  {
    p := from;
    while p < end && path[p] != c
      invariant from <= p <= end
      invariant forall j :: from <= j < p ==> path[j] != c
    {
      p := p + 1;
    }
  }

  lemma FindFromIs(s: string, literal: string, i: nat, p: nat)
    requires i <= p < |s| && literal != "" && MatchAt(s, literal, p)
    requires forall j: nat :: i <= j < p ==> !MatchAt(s, literal, j)
    ensures FindFrom(s, literal, i) == p
  {
  }

  lemma FindFromNone(s: string, literal: string, i: nat)
    requires i <= |s| && literal != "" && forall j: nat :: i <= j ==> !MatchAt(s, literal, j)
    ensures FindFrom(s, literal, i) == |s|
  {
  }

  /** No match from `off` on ends before index `end`. */
  ghost predicate NoMatchEnds(s: string, literal: string, off: nat, end: nat) {
    forall j: nat :: off <= j && j + |literal| - 1 < end ==> !MatchAt(s, literal, j)
  }

  /**
   mem_literal_short_N on path[off..length]: looks for the last byte of the literal and compares the bytes
   before it. The index found is that of the first match, or `length`.
   */
  method MemLiteralShort(path: array<char>, off: nat, length: nat, literal: string) returns (p: nat)
    requires off <= length <= path.Length && 2 <= |literal| <= 15
    ensures p == FindFrom(path[..length], literal, off)
  {
    hide NoMatchEnds;
    hide MatchAt;
    hide FindFrom;
    ghost var s := path[..length];
    NoMatchAtStart(s, literal, off);
    if length - off < |literal| {
      NoMatchAtAll(s, literal, off, off + |literal| - 1);
      return length;
    }
    var preceding := |literal| - 1;
    var candidate := off + preceding;
    while candidate < length
      invariant off + preceding <= candidate <= length
      invariant NoMatchEnds(s, literal, off, candidate)
    {
      var q := Memchr(path, literal[preceding], candidate, length);
      NoMatchWithoutLast(s, literal, off, candidate, q);
      if q == length {
        NoMatchAtAll(s, literal, off, q);
        return length;
      }
      LastByteMatches(s, literal, q - preceding);
      assert path[q - preceding..q] == s[q - preceding..q];
      if path[q - preceding..q] == literal[..preceding] {
        FirstMatch(s, literal, off, q - preceding);
        return q - preceding;
      }
      NoMatchYet(s, literal, off, q - preceding);
      candidate := q + 1;
    }
    NoMatchAtAll(s, literal, off, candidate);
    return length;
  }

  lemma NoMatchAtStart(s: string, literal: string, off: nat)
    ensures literal != "" ==> NoMatchEnds(s, literal, off, off + |literal| - 1)
  {
  }

  lemma NoMatchAtAll(s: string, literal: string, off: nat, end: nat)
    requires literal != "" && off <= |s| && |s| <= end && NoMatchEnds(s, literal, off, end)
    ensures FindFrom(s, literal, off) == |s|
  {
    hide FindFrom;
    forall j: nat | off <= j ensures !MatchAt(s, literal, j) {
      LastByteOfMatch(s, literal, j);
    }
    FindFromNone(s, literal, off);
  }

  lemma FirstMatch(s: string, literal: string, off: nat, i: nat)
    requires literal != "" && off <= i < |s| && NoMatchEnds(s, literal, off, i + |literal| - 1) && MatchAt(s, literal, i)
    ensures FindFrom(s, literal, off) == i
  {
    hide FindFrom;
    hide MatchAt;
    FindFromIs(s, literal, off, i);
  }

  lemma NoMatchYet(s: string, literal: string, off: nat, i: nat)
    requires literal != "" && NoMatchEnds(s, literal, off, i + |literal| - 1) && !MatchAt(s, literal, i)
    ensures NoMatchEnds(s, literal, off, i + |literal|)
  {
    hide MatchAt;
  }

  /** Where the last byte is missing there is no match. */
  lemma NoMatchWithoutLast(s: string, literal: string, off: nat, candidate: nat, q: nat)
    requires literal != "" && candidate <= q <= |s| && forall k :: candidate <= k < q ==> s[k] != literal[|literal| - 1]
    requires NoMatchEnds(s, literal, off, candidate)
    ensures NoMatchEnds(s, literal, off, q)
  {
    forall j: nat | off <= j && j + |literal| - 1 < q ensures !MatchAt(s, literal, j) {
      LastByteOfMatch(s, literal, j);
    }
  }

  lemma LastByteOfMatch(s: string, literal: string, j: nat)
    requires literal != ""
    ensures MatchAt(s, literal, j) ==> j + |literal| <= |s| && s[j + |literal| - 1] == literal[|literal| - 1]
  {
    if MatchAt(s, literal, j) { assert s[j..j + |literal|][|literal| - 1] == s[j + |literal| - 1]; }
  }

  lemma LastByteMatches(s: string, literal: string, i: nat)
    requires literal != "" && i + |literal| <= |s| && s[i + |literal| - 1] == literal[|literal| - 1]
    ensures MatchAt(s, literal, i) <==> s[i..i + |literal| - 1] == literal[..|literal| - 1]
  {
    var n := |literal| - 1;
    assert s[i..i + n + 1] == s[i..i + n] + [s[i + n]];
    assert literal == literal[..n] + [literal[n]];
  }

  /** memmove(path + to, path + from, count) for to <= from. */
  method MoveDown(path: array<char>, to: nat, from: nat, count: nat)
    requires to <= from && from + count <= path.Length
    modifies path
    ensures path[..to] == old(path[..to]) && path[to..to + count] == old(path[from..from + count])
    ensures path[from + count..] == old(path[from + count..])
  {
    ghost var before := path[..];
    for i := 0 to count
      invariant path[..to] == before[..to] && path[to..to + i] == before[from..from + i]
      invariant forall j :: from + i <= j < path.Length ==> path[j] == before[j]
    {
      path[to + i] := path[from + i];
    }
  }

  // ---- resuming the search behind the last cut ------------------------------------------------

  /** Nothing before index off matches, so the first match from there on is the first of all. */
  ghost predicate NoneBefore(s: string, literal: string, off: nat) {
    forall j: nat :: j < off ==> !MatchAt(s, literal, j)
  }

  lemma ResumeFind(s: string, literal: string, off: nat)
    requires off <= |s| && literal != "" && NoneBefore(s, literal, off)
    ensures FindFrom(s, literal, 0) == FindFrom(s, literal, off)
  {
    var p := FindFrom(s, literal, off);
    if p < |s| {
      FindFromIs(s, literal, 0, p);
    } else {
      forall j: nat ensures !MatchAt(s, literal, j) { }
      FindFromNone(s, literal, 0);
    }
  }

  /** Cutting the second of two slashes leaves no match before the first. */
  lemma ResumeAfterSlash(s: string, p: nat)
    requires p < |s| && MatchAt(s, "//", p) && NoneBefore(s, "//", p)
    ensures NoneBefore(s[..p] + s[p + 1..], "//", p)
  {
    SlashesAt(s, p);
    var t := s[..p] + s[p + 1..];
    forall j: nat | j < p ensures !MatchAt(t, "//", j) {
      SlashesAt(t, j);
      SlashesAt(s, j);
    }
  }

  lemma ResumeAfterDot(s: string, p: nat)
    requires MatchAt(s, "/./", p) && NoneBefore(s, "/./", p)
    ensures p + 3 <= |s| && NoneBefore(s[..p + 1] + s[p + 3..], "/./", p)
  {
    SlashDotSlashAt(s, p);
    var t := s[..p + 1] + s[p + 3..];
    forall j: nat | j < p ensures !MatchAt(t, "/./", j) {
      SlashDotSlashAt(t, j);
      SlashDotSlashAt(s, j);
    }
  }

  // ---- normalize ----------------------------------------------------------------------------

  /** The memory holds the path, a terminator, and at its very end the bytes that do not belong to the path. */
  ghost predicate IsPath(memory: seq<char>, s: string, behind: seq<char>) {
    && |s| + |behind| < |memory| && memory[..|s|] == s && memory[|s|] == '\0'
    && memory[|memory| - |behind|..] == behind
  }

  /** Takes path[to..from] out; the terminator moves along. */
  method Cut(path: array<char>, to: nat, from: nat, length: nat, ghost behind: seq<char>)
    requires to <= from <= length < path.Length && IsPath(path[..], path[..length], behind)
    modifies path
    ensures IsPath(path[..], old(path[..to] + path[from..length]), behind)
  {
    ghost var before := path[..];
    MoveDown(path, to, from, length - from + 1);
    ghost var s := before[..to] + before[from..length];
    assert before[from..length + 1] == before[from..length] + ['\0'];
    assert path[..|s|] == s;
  }

  lemma PathIs(memory: seq<char>, s: string, behind: seq<char>)
    requires IsPath(memory, s, behind)
    ensures |s| < |memory| && memory[..|s|] == s && memory[|s|] == '\0'
  {
  }

  /** One round of the rewrite of double slashes. */
  lemma DoublesStep(s: string, off: nat)
    requires off <= |s| && NoneBefore(s, "//", off)
    ensures var p := FindFrom(s, "//", off);
            if p == |s| then WithoutDoubles(s) == s
            else p + 1 < |s| && WithoutDoubles(s) == WithoutDoubles(s[..p] + s[p + 1..])
                 && NoneBefore(s[..p] + s[p + 1..], "//", p)
  {
    hide FindFrom;
    hide NoneBefore;
    hide WithoutDoubles;
    WithoutDoublesFirst(s);
    ResumeFind(s, "//", off);
    var p := FindFrom(s, "//", off);
    if p < |s| {
      SlashesAt(s, p);
      ResumeAfterSlash(s, p);
    }
  }

  lemma DotsStep(s: string, off: nat)
    requires off <= |s| && NoneBefore(s, "/./", off)
    ensures var p := FindFrom(s, "/./", off);
            if p == |s| then WithoutDots(s) == s
            else p + 2 < |s| && WithoutDots(s) == WithoutDots(s[..p + 1] + s[p + 3..])
                 && NoneBefore(s[..p + 1] + s[p + 3..], "/./", p)
  {
    hide FindFrom;
    hide NoneBefore;
    hide WithoutDots;
    WithoutDotsFirst(s);
    ResumeFind(s, "/./", off);
    var p := FindFrom(s, "/./", off);
    if p < |s| {
      SlashDotSlashAt(s, p);
      ResumeAfterDot(s, p);
    }
  }

  method CollapseSlashes(path: array<char>, length: nat, ghost behind: seq<char>) returns (length': nat)
    requires length < path.Length && IsPath(path[..], path[..length], behind)
    modifies path
    ensures length' <= length && IsPath(path[..], path[..length'], behind)
    ensures path[..length'] == WithoutDoubles(old(path[..length]))
  {
    hide WithoutDoubles;
    hide FindFrom;
    hide NoneBefore;
    length' := length;
    var off: nat := 0;
    NothingBefore(path[..length], "//");
    while true
      invariant off <= length' <= length && IsPath(path[..], path[..length'], behind) && NoneBefore(path[..length'], "//", off)
      invariant WithoutDoubles(path[..length']) == WithoutDoubles(old(path[..length]))
      decreases length'
    {
      ghost var s := path[..length'];
      DoublesStep(s, off);
      off := MemLiteralShort(path, off, length', "//");
      if off == length' { return; }
      Cut(path, off, off + 1, length', behind);
      length' := length' - 1;
      PathIs(path[..], s[..off] + s[off + 1..], behind);
    }
  }

  lemma NothingBefore(s: string, literal: string)
    ensures NoneBefore(s, literal, 0)
  {
  }

  method DropLeading(path: array<char>, length: nat, ghost behind: seq<char>) returns (length': nat)
    requires length < path.Length && IsPath(path[..], path[..length], behind)
    modifies path
    ensures length' <= length && IsPath(path[..], path[..length'], behind)
    ensures path[..length'] == WithoutLeading(old(path[..length]))
  {
    length' := length;
    while path[0] == '.' && path[1] == '/' && length' > 2
      invariant length' <= length && IsPath(path[..], path[..length'], behind)
      invariant WithoutLeading(path[..length']) == WithoutLeading(old(path[..length]))
      decreases length'
    {
      ghost var s := path[..length'];
      Cut(path, 0, 2, length', behind);
      length' := length' - 2;
      assert s[..0] + s[2..] == s[2..];
      PathIs(path[..], s[2..], behind);
    }
  }

  method DropFinal(path: array<char>, length: nat, ghost behind: seq<char>) returns (length': nat)
    requires length < path.Length && IsPath(path[..], path[..length], behind)
    modifies path
    ensures length' <= length && IsPath(path[..], path[..length'], behind)
    ensures path[..length'] == WithoutFinal(old(path[..length]))
  {
    length' := length;
    while length' >= 2 && path[length' - 2] == '/' && path[length' - 1] == '.'
      invariant length' <= length && IsPath(path[..], path[..length'], behind)
      invariant WithoutFinal(path[..length']) == WithoutFinal(old(path[..length]))
    {
      ghost var s, before := path[..length'], path[..];
      path[length' - 1] := '\0';
      assert path[..] == before[length' - 1 := '\0'];
      length' := length' - 1;
      assert path[..length'] == s[..length'];
    }
  }

  method CollapseDots(path: array<char>, length: nat, ghost behind: seq<char>) returns (length': nat)
    requires length < path.Length && IsPath(path[..], path[..length], behind)
    modifies path
    ensures length' <= length && IsPath(path[..], path[..length'], behind)
    ensures path[..length'] == WithoutDots(old(path[..length]))
  {
    hide WithoutDots;
    hide FindFrom;
    hide NoneBefore;
    length' := length;
    var off: nat := 0;
    NothingBefore(path[..length], "/./");
    while true
      invariant off <= length' <= length && IsPath(path[..], path[..length'], behind) && NoneBefore(path[..length'], "/./", off)
      invariant WithoutDots(path[..length']) == WithoutDots(old(path[..length]))
      decreases length'
    {
      ghost var s := path[..length'];
      DotsStep(s, off);
      off := MemLiteralShort(path, off, length', "/./");
      if off == length' { return; }
      Cut(path, off + 1, off + 3, length', behind);
      length' := length' - 2;
      PathIs(path[..], s[..off + 1] + s[off + 3..], behind);
    }
  }

  /** strlen32 */
  method StrLen32(path: array<char>) returns (n: nat)
    requires exists i :: 0 <= i < path.Length && path[i] == '\0'
    ensures IsLength(path[..], n)
  {
    n := 0;
    while path[n] != '\0'
      invariant n < path.Length && forall j :: 0 <= j < n ==> path[j] != '\0'
      invariant exists i :: n <= i < path.Length && path[i] == '\0'
      decreases path.Length - n
    {
      n := n + 1;
    }
  }

  ghost predicate IsLength(memory: seq<char>, n: nat) {
    n < |memory| && memory[n] == '\0' && '\0' !in memory[..n]
  }

  lemma PathStarts(memory: seq<char>, n: nat)
    requires n < |memory| && memory[n] == '\0'
    ensures IsPath(memory, memory[..n], memory[n + 1..])
  {
  }

  lemma PathEnds(memory: seq<char>, s: string, behind: seq<char>, n: nat)
    requires IsPath(memory, s, behind) && n < |memory| && |behind| == |memory| - n - 1
    ensures |s| <= n && memory[..|s|] == s && memory[|s|] == '\0' && memory[n + 1..] == behind
  {
  }

  /** The four loops of normalize, on a path of a given length. */
  method NormalizeGiven(path: array<char>, n: nat, ghost behind: seq<char>) returns (length': nat)
    requires n < path.Length && IsPath(path[..], path[..n], behind)
    modifies path
    ensures length' <= n && IsPath(path[..], path[..length'], behind)
    ensures path[..length'] == Normalized(old(path[..n])) && IsNormal(path[..length'])
  {
    hide WithoutDoubles;
    hide WithoutLeading;
    hide WithoutFinal;
    hide WithoutDots;
    hide IsNormal;
    hide SameMeaning;
    hide IsPath;
    NormalizedIsRight(path[..n]);
    length' := CollapseSlashes(path, n, behind);
    length' := DropLeading(path, length', behind);
    length' := DropFinal(path, length', behind);
    length' := CollapseDots(path, length', behind);
  }

  /**
   normalize, for a terminated path of the given length, or of the length up to its terminator for a
   negative one. The result is the path in normal form, terminated, and nothing behind it is touched.
   */
  method Normalize(path: array<char>, length: int) returns (length': nat, ghost n: nat)
    requires if length < 0 then exists i :: 0 <= i < path.Length && path[i] == '\0'
             else length < path.Length && path[length] == '\0'
    modifies path
    ensures n < path.Length && (if length < 0 then IsLength(old(path[..]), n) else n == length)
    ensures length' <= n && path[..length'] == Normalized(old(path[..n])) && path[length'] == '\0'
    ensures path[n + 1..] == old(path[n + 1..])
    ensures IsNormal(path[..length'])
  {
    hide Normalized;
    hide IsNormal;
    hide IsPath;
    var given: nat;
    if length < 0 { given := StrLen32(path); } else { given := length; }
    n := given;
    ghost var behind := path[n + 1..];
    PathStarts(path[..], n);
    length' := NormalizeGiven(path, given, behind);
    PathEnds(path[..], path[..length'], behind, n);
  }
}
