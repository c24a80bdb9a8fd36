/** What normalizing a path means: same place, simplest text (normalize in cbase/fs.c, on values). */
module PathText {

  // ---- searching -------------------------------------------------------------------------

  ghost predicate MatchAt(s: string, literal: string, i: nat) {
    i + |literal| <= |s| && s[i..i + |literal|] == literal
  }

  /** The literal occurs nowhere in s. */
  ghost predicate Lacks(s: string, literal: string) {
    forall i: nat :: !MatchAt(s, literal, i)
  }

  /** The first match at or behind index i, or the length of s if there is none. */
  ghost function FindFrom(s: string, literal: string, i: nat): (p: nat)
    requires i <= |s| && literal != ""
    ensures i <= p <= |s| && (p < |s| ==> MatchAt(s, literal, p))
    ensures forall j: nat :: i <= j < p ==> !MatchAt(s, literal, j)
    decreases |s| - i
  {
    if i == |s| || MatchAt(s, literal, i) then i else FindFrom(s, literal, i + 1)
  }

  lemma SlashesAt(s: string, i: nat)
    ensures MatchAt(s, "//", i) <==> i + 1 < |s| && s[i] == '/' && s[i + 1] == '/'
  {
    if i + 2 <= |s| { assert s[i..i + 2] == [s[i], s[i + 1]]; }
  }

  lemma SlashDotSlashAt(s: string, i: nat)
    ensures MatchAt(s, "/./", i) <==> i + 2 < |s| && s[i] == '/' && s[i + 1] == '.' && s[i + 2] == '/'
  {
    if i + 3 <= |s| { assert s[i..i + 3] == [s[i], s[i + 1], s[i + 2]]; }
  }

  // ---- what a path means -------------------------------------------------------------------

  predicate IsAbsolute(s: string) { s != "" && s[0] == '/' }

  /** The parts between slashes, empty ones included. */
  ghost function Parts(s: string): (parts: seq<string>)
    ensures parts != []
  {
    if s == "" then [""]
    else InFront(s[0], Parts(s[1..]))
  }

  function Kept(part: string): seq<string> {
    if part == "" || part == "." then [] else [part]
  }

  /** Parts that name something: not empty and not ".". */
  ghost function Named(parts: seq<string>): seq<string> {
    if parts == [] then [] else Kept(parts[0]) + Named(parts[1..])
  }

  ghost function Components(s: string): seq<string> { Named(Parts(s)) }

  ghost predicate SameMeaning(s: string, t: string) {
    IsAbsolute(s) == IsAbsolute(t) && Components(s) == Components(t)
  }

  /** One more character in front. */
  ghost function InFront(c: char, parts: seq<string>): seq<string>
    requires parts != []
    ensures InFront(c, parts) != []
  {
    if c == '/' then [""] + parts else [[c] + parts[0]] + parts[1..]
  }

  lemma InFrontJoin(c: char, p: seq<string>, q: seq<string>)
    requires p != []
    ensures InFront(c, p + q) == InFront(c, p) + q
  {
    assert (p + q)[1..] == p[1..] + q;
  }

  lemma {:induction false} PartsJoin(u: string, v: string)
    ensures Parts(u + "/" + v) == Parts(u) + Parts(v)
  {
    var s := u + "/" + v;
    if u == "" {
      assert s[1..] == v;
    } else {
      PartsJoin(u[1..], v);
      assert s[1..] == u[1..] + "/" + v && s[0] == u[0];
      InFrontJoin(u[0], Parts(u[1..]), Parts(v));
    }
  }

  lemma {:induction false} NamedJoin(p: seq<string>, q: seq<string>)
    ensures Named(p + q) == Named(p) + Named(q)
  {
    hide Named;
    hide Kept;
    if p == [] {
      NamedNone();
      assert p + q == q;
    } else {
      NamedJoin(p[1..], q);
      NamedStep(p);
      NamedStep(p + q);
      assert (p + q)[1..] == p[1..] + q && (p + q)[0] == p[0];
      assert Kept(p[0]) + (Named(p[1..]) + Named(q)) == Kept(p[0]) + Named(p[1..]) + Named(q);
    }
  }

  lemma NamedStep(p: seq<string>)
    requires p != []
    ensures Named(p) == Kept(p[0]) + Named(p[1..])
  {
  }

  lemma NamedNone()
    ensures Named([]) == []
  {
  }

  lemma ComponentsJoin(u: string, v: string)
    ensures Components(u + "/" + v) == Components(u) + Components(v)
  {
    PartsJoin(u, v);
    NamedJoin(Parts(u), Parts(v));
  }

  lemma NamesNothing()
    ensures Components("") == [] && Components(".") == []
  {
    assert Parts(".") == ["."] by { assert "."[1..] == ""; assert ['.'] + "" == "."; }
  }

  // ---- the four rewrites --------------------------------------------------------------------

  /** "//" becomes "/", from left to right until there is none. */
  ghost function WithoutDoubles(s: string): string
    decreases |s|
  {
    var p := FindFrom(s, "//", 0);
    if p == |s| then s else WithoutDoubles(s[..p] + s[p + 1..])
  }

  /** Leading "./" go, unless that is all there is. */
  ghost function WithoutLeading(s: string): string {
    if |s| > 2 && s[0] == '.' && s[1] == '/' then WithoutLeading(s[2..]) else s
  }

  /** A final "/." loses its dot. */
  ghost function WithoutFinal(s: string): string {
    if |s| >= 2 && s[|s| - 2] == '/' && s[|s| - 1] == '.' then WithoutFinal(s[..|s| - 1]) else s
  }

  /** "/./" becomes "/", from left to right until there is none. */
  ghost function WithoutDots(s: string): string
    decreases |s|
  {
    var p := FindFrom(s, "/./", 0);
    if p == |s| then s else WithoutDots(s[..p + 1] + s[p + 3..])
  }

  lemma WithoutDoublesFirst(s: string)
    ensures var p := FindFrom(s, "//", 0);
            if p == |s| then WithoutDoubles(s) == s
            else p + 1 < |s| && WithoutDoubles(s) == WithoutDoubles(s[..p] + s[p + 1..])
  {
  }

  lemma WithoutDotsFirst(s: string)
    ensures var p := FindFrom(s, "/./", 0);
            if p == |s| then WithoutDots(s) == s
            else p + 2 < |s| && WithoutDots(s) == WithoutDots(s[..p + 1] + s[p + 3..])
  {
    hide FindFrom;
    var p := FindFrom(s, "/./", 0);
    if p < |s| {
      DotInside(s, p);
      assert WithoutDots(s) == WithoutDots(s[..p + 1] + s[p + 3..]);
    }
  }

  lemma DotInside(s: string, p: nat)
    requires MatchAt(s, "/./", p)
    ensures p + 2 < |s|
  {
  }

  ghost function Normalized(s: string): string {
    WithoutDots(WithoutFinal(WithoutLeading(WithoutDoubles(s))))
  }

  // ---- the normal form ------------------------------------------------------------------------

  predicate LeadsWithDot(s: string) { |s| >= 2 && s[0] == '.' && s[1] == '/' && |s| != 2 }

  predicate EndsWithDot(s: string) { |s| >= 2 && s[|s| - 2] == '/' && s[|s| - 1] == '.' }

  ghost predicate IsNormal(s: string) {
    Lacks(s, "//") && Lacks(s, "/./") && !LeadsWithDot(s) && !EndsWithDot(s)
  }

  lemma DoubleMeansNothing(u: string, v: string)
    ensures SameMeaning(u + "//" + v, u + "/" + v)
  {
    hide Components;
    assert u + "//" + v == u + "/" + ("" + "/" + v);
    ComponentsJoin(u, "" + "/" + v);
    ComponentsJoin("", v);
    ComponentsJoin(u, v);
    NamesNothing();
  }

  lemma DotMeansNothing(u: string, v: string)
    ensures SameMeaning(u + "/./" + v, u + "/" + v)
  {
    hide Components;
    assert u + "/./" + v == u + "/" + ("." + "/" + v);
    ComponentsJoin(u, "." + "/" + v);
    ComponentsJoin(".", v);
    ComponentsJoin(u, v);
    NamesNothing();
  }

  lemma {:induction false} WithoutDoublesIsRight(s: string)
    ensures SameMeaning(s, WithoutDoubles(s)) && Lacks(WithoutDoubles(s), "//")
    decreases |s|
  {
    var p := FindFrom(s, "//", 0);
    if p < |s| {
      SlashesAt(s, p);
      assert s == s[..p] + "//" + s[p + 2..];
      assert s[..p] + s[p + 1..] == s[..p] + "/" + s[p + 2..];
      DoubleMeansNothing(s[..p], s[p + 2..]);
      WithoutDoublesIsRight(s[..p] + s[p + 1..]);
    } else {
      AllMiss(s, "//");
    }
  }

  lemma AllMiss(s: string, literal: string)
    requires literal != "" && FindFrom(s, literal, 0) == |s|
    ensures Lacks(s, literal)
  {
    forall i: nat ensures !MatchAt(s, literal, i) { }
  }

  lemma {:induction false} WithoutLeadingIsRight(s: string)
    requires Lacks(s, "//")
    ensures SameMeaning(s, WithoutLeading(s)) && Lacks(WithoutLeading(s), "//") && !LeadsWithDot(WithoutLeading(s))
  {
    if LeadsWithDot(s) {
      var rest := s[2..];
      assert s == "." + "/" + rest;
      ComponentsJoin(".", rest);
      NamesNothing();
      SlashesAt(s, 1);
      LacksBehind(s, 2);
      WithoutLeadingIsRight(rest);
    }
  }

  lemma LacksBehind(s: string, k: nat)
    requires Lacks(s, "//") && k <= |s|
    ensures Lacks(s[k..], "//")
  {
    forall i: nat ensures !MatchAt(s[k..], "//", i) {
      SlashesAt(s[k..], i);
      SlashesAt(s, i + k);
    }
  }

  lemma LacksBefore(s: string, k: nat)
    requires Lacks(s, "//") && k <= |s|
    ensures Lacks(s[..k], "//")
  {
    forall i: nat ensures !MatchAt(s[..k], "//", i) {
      SlashesAt(s[..k], i);
      SlashesAt(s, i);
    }
  }

  lemma {:induction false} WithoutFinalIsRight(s: string)
    requires Lacks(s, "//") && !LeadsWithDot(s)
    ensures var t := WithoutFinal(s);
            SameMeaning(s, t) && Lacks(t, "//") && !LeadsWithDot(t) && !EndsWithDot(t)
  {
    if EndsWithDot(s) {
      var n := |s| - 1;
      assert s == s[..n - 1] + "/" + ".";
      assert s[..n] == s[..n - 1] + "/" + "";
      ComponentsJoin(s[..n - 1], ".");
      ComponentsJoin(s[..n - 1], "");
      NamesNothing();
      LacksBefore(s, n);
      WithoutFinalIsRight(s[..n]);
    }
  }

  lemma {:induction false} WithoutDotsIsRight(s: string)
    requires Lacks(s, "//") && !LeadsWithDot(s) && !EndsWithDot(s)
    ensures SameMeaning(s, WithoutDots(s)) && IsNormal(WithoutDots(s))
    decreases |s|
  {
    hide FindFrom;
    hide WithoutDots;
    hide SameMeaning;
    WithoutDotsFirst(s);
    var p := FindFrom(s, "/./", 0);
    if p < |s| {
      SlashDotSlashAt(s, p);
      var u, v := s[..p], s[p + 3..];
      var t := s[..p + 1] + v;
      assert s == u + "/./" + v && t == u + "/" + v;
      DotMeansNothing(u, v);
      CutKeepsForm(s, p);
      WithoutDotsIsRight(t);
      Transitive(s, t, WithoutDots(t));
    } else {
      AllMiss(s, "/./");
      Same(s);
    }
  }

  /** Cutting out a "./" behind a slash makes no double slash, no leading "./" and no final "/.". */
  lemma CutKeepsForm(s: string, p: nat)
    requires Lacks(s, "//") && !LeadsWithDot(s) && !EndsWithDot(s) && MatchAt(s, "/./", p)
    ensures var t := s[..p + 1] + s[p + 3..];
            Lacks(t, "//") && !LeadsWithDot(t) && !EndsWithDot(t)
  {
    SlashDotSlashAt(s, p);
    var t := s[..p + 1] + s[p + 3..];
    forall i: nat ensures !MatchAt(t, "//", i) {
      SlashesAt(t, i);
      SlashesAt(s, if i < p then i else i + 2);
      SlashesAt(s, i);
    }
  }

  /** Normalizing keeps what a path means, and leaves it in normal form. */
  lemma NormalizedIsRight(s: string)
    ensures SameMeaning(s, Normalized(s)) && IsNormal(Normalized(s))
  {
    hide SameMeaning;
    WithoutDoublesIsRight(s);
    var s1 := WithoutDoubles(s);
    WithoutLeadingIsRight(s1);
    var s2 := WithoutLeading(s1);
    WithoutFinalIsRight(s2);
    var s3 := WithoutFinal(s2);
    WithoutDotsIsRight(s3);
    Transitive(s, s1, s2);
    Transitive(s, s2, s3);
    Transitive(s, s3, WithoutDots(s3));
  }

  lemma Same(s: string)
    ensures SameMeaning(s, s)
  {
  }

  lemma Transitive(s: string, t: string, u: string)
    requires SameMeaning(s, t) && SameMeaning(t, u)
    ensures SameMeaning(s, u)
  {
  }

  /** A path in normal form is left as it is. */
  lemma NormalStays(s: string)
    requires IsNormal(s)
    ensures Normalized(s) == s
  {
    assert FindFrom(s, "//", 0) == |s|;
    assert FindFrom(s, "/./", 0) == |s|;
  }

  lemma Idempotent(s: string)
    ensures Normalized(Normalized(s)) == Normalized(s)
  {
    NormalizedIsRight(s);
    NormalStays(Normalized(s));
  }
}
