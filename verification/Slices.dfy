/** How parallel_for cuts [0, length) into slices, and how many threads it asks for (cbase/threads.c). */
module Slices {
  import opened Powers

  const PARALLEL_FOR_MAX_THREADS: nat := 64

  datatype Slice = Slice(start: nat, end: nat, workerId: nat)

  /** Where slice i starts; the end of the array for the index past the last slice. */
  function Cut(length: nat, threads: nat, i: nat): nat
    requires threads > 0
  {
    if i < threads then i * (length / threads) else length
  }

  /** The slice the caller fills in for index i. */
  function SliceAt(length: nat, threads: nat, i: nat): Slice
    requires i < threads
  {
    var range := length / threads;
    Slice(i * range, if i + 1 < threads then (i + 1) * range else length, i)
  }

  lemma SliceIsCut(length: nat, threads: nat, i: nat)
    requires i < threads
    ensures SliceAt(length, threads, i) == Slice(Cut(length, threads, i), Cut(length, threads, i + 1), i)
    ensures Cut(length, threads, i) <= Cut(length, threads, i + 1) <= length
    ensures threads <= length ==> Cut(length, threads, i) < Cut(length, threads, i + 1)
  {
    var range := length / threads;
    DivMod(length, threads);
    MulDist(range, i, 1);
    if i + 1 < threads {
      MulMono(i + 1, threads, range);
    } else {
      assert threads * range <= length;
    }
    if threads <= length { DivGe(length, threads, 1); }
  }

  /** The integers of [a, b), each once. */
  ghost function Interval(a: int, b: int): multiset<int>
    decreases b - a
  {
    if a >= b then multiset{} else Interval(a, b - 1) + multiset{b - 1}
  }

  lemma {:induction false} IntervalMembers(a: int, b: int, x: int)
    ensures Interval(a, b)[x] == if a <= x < b then 1 else 0
    decreases b - a
  {
    if a < b { IntervalMembers(a, b - 1, x); }
  }

  lemma {:induction false} IntervalsJoin(a: int, b: int, c: int)
    requires a <= b <= c
    ensures Interval(a, b) + Interval(b, c) == Interval(a, c)
    decreases c - b
  {
    if b < c {
      IntervalsJoin(a, b, c - 1);
      assert Interval(a, b) + (Interval(b, c - 1) + multiset{c - 1}) == Interval(a, b) + Interval(b, c - 1) + multiset{c - 1};
    }
  }

  /** A number of threads that every limit allows; more than one only for a range worth cutting. */
  ghost predicate Allowed(n: nat, length: int, maxThreads: int, minParallelItems: int, available: int) {
    && n <= PARALLEL_FOR_MAX_THREADS && n <= (if length > 0 then length else 0)
    && (n > 1 ==> n <= maxThreads && n <= available && length >= minParallelItems)
  }

  /** thread_pool_default_thread_count: as many threads as every limit allows. */
  function ThreadCount(length: int, maxThreads: int, minParallelItems: int, available: int): (count: nat)
    ensures count == 0 <==> length <= 0
    ensures Allowed(count, length, maxThreads, minParallelItems, available)
    ensures forall n: nat :: Allowed(n, length, maxThreads, minParallelItems, available) ==> n <= count
  {
    if length <= 0 then 0
    else if maxThreads <= 1 then 1
    else if length < minParallelItems then 1
    else
      var threads := if available <= 0 then 1 else available;
      var c0 := if threads < PARALLEL_FOR_MAX_THREADS then threads else PARALLEL_FOR_MAX_THREADS;
      var c1 := if c0 < maxThreads then c0 else maxThreads;
      var c2 := if c1 < length then c1 else length;
      if c2 < 1 then 1 else c2
  }
}
