/** Small facts about sequences and C strings, stated once so that method bodies stay cheap to verify. */
module Sequences {

  lemma PrefixSnoc<T>(s: seq<T>, n: nat, x: T)
    requires n < |s|
    ensures s[n := x][..n + 1] == s[..n] + [x]
    ensures s[n := x][..n] == s[..n]
  {
  }

  /** The byte at index i of a C string; its terminator stands behind the last one. */
  function At(s: string, i: nat): char {
    if i < |s| then s[i] else '\0'
  }
}
