/**
 The k-way merge of cbase/sort.c: p sorted runs in one array become one sorted array. The runs are the
 slices that parallel_for cuts, so sorting each slice and merging sorts the array.
 */
module MergeSort {
  import opened Powers
  import opened Slices
  import opened Heaps

  const MAX_NTHREADS: nat := 64

  ghost predicate Sorted<T>(compare: (T, T) -> int, s: seq<T>) {
    forall i: nat, j: nat :: i < j < |s| ==> Le(compare, s[i], s[j])
  }

  /** Run k goes from cuts[k] to cuts[k + 1]. */
  ghost predicate RunSorted<T>(compare: (T, T) -> int, a: seq<T>, cuts: seq<nat>, k: nat)
    requires k + 1 < |cuts|
  {
    cuts[k] <= cuts[k + 1] <= |a| && Sorted(compare, a[cuts[k]..cuts[k + 1]])
  }

  ghost predicate RunsSorted<T>(compare: (T, T) -> int, a: seq<T>, cuts: seq<nat>) {
    forall k: nat :: k < |cuts| - 1 ==> RunSorted(compare, a, cuts, k)
  }

  // ---- where the merge stands --------------------------------------------------------------

  ghost predicate InRun(n: nat, cuts: seq<nat>, at: seq<nat>, k: nat)
    requires k < |at| < |cuts|
  {
    cuts[k] <= at[k] <= cuts[k + 1] <= n
  }

  /** How far each run has been consumed: at least its start, at most its end. */
  ghost predicate Positions(n: nat, cuts: seq<nat>, at: seq<nat>) {
    |cuts| == |at| + 1 && forall k: nat :: k < |at| ==> InRun(n, cuts, at, k)
  }

  /** What is left of run k. */
  ghost function Tail<T>(a: seq<T>, cuts: seq<nat>, at: seq<nat>, k: nat): seq<T>
    requires Positions(|a|, cuts, at) && k < |at|
  {
    assert InRun(|a|, cuts, at, k);
    a[at[k]..cuts[k + 1]]
  }

  /** What is left of the first k runs. */
  ghost function Rest<T>(a: seq<T>, cuts: seq<nat>, at: seq<nat>, k: nat): multiset<T>
    requires Positions(|a|, cuts, at) && k <= |at|
  {
    if k == 0 then multiset{} else Rest(a, cuts, at, k - 1) + multiset(Tail(a, cuts, at, k - 1))
  }

  /** The node that stands for run k; none when the run is exhausted. */
  ghost function Front<T>(a: seq<T>, cuts: seq<nat>, at: seq<nat>, k: nat): multiset<HeapNode<T>>
    requires Positions(|a|, cuts, at) && k < |at|
  {
    var tail := Tail(a, cuts, at, k);
    if tail == [] then multiset{} else multiset{HeapNode(tail[0], k)}
  }

  ghost function Fronts<T>(a: seq<T>, cuts: seq<nat>, at: seq<nat>, k: nat): multiset<HeapNode<T>>
    requires Positions(|a|, cuts, at) && k <= |at|
  {
    if k == 0 then multiset{} else Fronts(a, cuts, at, k - 1) + Front(a, cuts, at, k - 1)
  }

  lemma {:induction false} FrontIsRun<T>(a: seq<T>, cuts: seq<nat>, at: seq<nat>, k: nat, node: HeapNode<T>)
    requires Positions(|a|, cuts, at) && k <= |at| && node in Fronts(a, cuts, at, k)
    ensures node.run < k && |Tail(a, cuts, at, node.run)| > 0 && node.value == Tail(a, cuts, at, node.run)[0]
  {
    if node in Fronts(a, cuts, at, k - 1) {
      FrontIsRun(a, cuts, at, k - 1, node);
    } else {
      assert node in Front(a, cuts, at, k - 1);
    }
  }

  lemma {:induction false} RunHasFront<T>(a: seq<T>, cuts: seq<nat>, at: seq<nat>, k: nat, r: nat)
    requires Positions(|a|, cuts, at) && r < k <= |at| && Tail(a, cuts, at, r) != []
    ensures HeapNode(Tail(a, cuts, at, r)[0], r) in Fronts(a, cuts, at, k)
  {
    if r < k - 1 {
      RunHasFront(a, cuts, at, k - 1, r);
    } else {
      assert HeapNode(Tail(a, cuts, at, r)[0], r) in Front(a, cuts, at, r);
    }
  }

  /** What is left of some run is no less than that run's front. */
  lemma {:induction false} RestAboveFronts<T(!new)>(compare: (T, T) -> int, a: seq<T>, cuts: seq<nat>, at: seq<nat>, k: nat, x: T)
    returns (r: nat)
    requires TotalPreorder(compare) && Positions(|a|, cuts, at) && RunsSorted(compare, a, cuts)
    requires k <= |at| && x in Rest(a, cuts, at, k)
    ensures r < k && Tail(a, cuts, at, r) != [] && Le(compare, Tail(a, cuts, at, r)[0], x)
  {
    hide TotalPreorder;
    if x in Rest(a, cuts, at, k - 1) {
      r := RestAboveFronts(compare, a, cuts, at, k - 1, x);
    } else {
      r := k - 1;
      HeadOfTail(compare, a, cuts, at, r, x);
    }
  }

  lemma HeadOfTail<T(!new)>(compare: (T, T) -> int, a: seq<T>, cuts: seq<nat>, at: seq<nat>, r: nat, x: T)
    requires TotalPreorder(compare) && Positions(|a|, cuts, at) && RunsSorted(compare, a, cuts)
    requires r < |at| && x in Tail(a, cuts, at, r)
    ensures Le(compare, Tail(a, cuts, at, r)[0], x)
  {
    assert InRun(|a|, cuts, at, r);
    assert RunSorted(compare, a, cuts, r);
    var run := a[cuts[r]..cuts[r + 1]];
    var i := at[r] - cuts[r];
    var tail := Tail(a, cuts, at, r);
    assert tail == run[i..];
    var j :| 0 <= j < |tail| && tail[j] == x;
    assert run[i + j] == x && run[i] == tail[0];
    LessIsLe(compare, x, x);
  }

  /** Consuming the front of run r. */
  function Advanced(at: seq<nat>, r: nat): seq<nat>
    requires r < |at|
  {
    at[r := at[r] + 1]
  }

  lemma AdvancedTail<T>(a: seq<T>, cuts: seq<nat>, at: seq<nat>, r: nat)
    requires Positions(|a|, cuts, at) && r < |at| && Tail(a, cuts, at, r) != []
    ensures Positions(|a|, cuts, Advanced(at, r))
    ensures Tail(a, cuts, Advanced(at, r), r) == Tail(a, cuts, at, r)[1..]
    ensures forall k: nat :: k < |at| && k != r ==> Tail(a, cuts, Advanced(at, r), k) == Tail(a, cuts, at, k)
  {
    var at' := Advanced(at, r);
    forall k: nat | k < |at'| ensures InRun(|a|, cuts, at', k) {
      assert InRun(|a|, cuts, at, k);
    }
    assert InRun(|a|, cuts, at, r) && InRun(|a|, cuts, at', r);
  }

  lemma {:induction false} AdvanceRest<T>(a: seq<T>, cuts: seq<nat>, at: seq<nat>, at': seq<nat>, k: nat, r: nat)
    requires Positions(|a|, cuts, at) && k <= |at| && r < |at| && Tail(a, cuts, at, r) != []
    requires at' == Advanced(at, r) && Positions(|a|, cuts, at')
    ensures Rest(a, cuts, at, k) == Rest(a, cuts, at', k) + if r < k then multiset{Tail(a, cuts, at, r)[0]} else multiset{}
  {
    hide Rest;
    hide Tail;
    if k > 0 {
      AdvanceRest(a, cuts, at, at', k - 1, r);
      AdvancedTail(a, cuts, at, r);
      LastRest(a, cuts, at, k);
      LastRest(a, cuts, at', k);
      var tail := Tail(a, cuts, at, r);
      if k - 1 == r {
        HeadOut(tail);
      } else if r < k {
        SwapLast(Rest(a, cuts, at', k - 1), multiset{tail[0]}, multiset(Tail(a, cuts, at, k - 1)));
      }
    } else {
      NoRest(a, cuts, at);
      NoRest(a, cuts, at');
    }
  }

  lemma LastRest<T>(a: seq<T>, cuts: seq<nat>, at: seq<nat>, k: nat)
    requires Positions(|a|, cuts, at) && 0 < k <= |at|
    ensures Rest(a, cuts, at, k) == Rest(a, cuts, at, k - 1) + multiset(Tail(a, cuts, at, k - 1))
  {
  }

  lemma NoRest<T>(a: seq<T>, cuts: seq<nat>, at: seq<nat>)
    requires Positions(|a|, cuts, at)
    ensures Rest(a, cuts, at, 0) == multiset{}
  {
  }

  lemma HeadOut<T>(s: seq<T>)
    requires s != []
    ensures multiset(s) == multiset(s[1..]) + multiset{s[0]}
  {
    assert s == [s[0]] + s[1..];
  }

  lemma SwapLast<T>(a: multiset<T>, b: multiset<T>, c: multiset<T>)
    ensures (a + b) + c == (a + c) + b
  {
  }

  lemma Carry<T>(a: multiset<T>, b: multiset<T>, c: multiset<T>, d: multiset<T>, e: multiset<T>)
    requires a + b == c + d
    ensures (a + e) + b == (c + e) + d
  {
    SwapLast(a, e, b);
    SwapLast(c, e, d);
  }

  lemma AdvancedFront<T>(a: seq<T>, cuts: seq<nat>, at: seq<nat>, r: nat)
    requires Positions(|a|, cuts, at) && r < |at| && Tail(a, cuts, at, r) != []
    ensures Positions(|a|, cuts, Advanced(at, r))
    ensures forall k: nat :: k < |at| && k != r ==> Front(a, cuts, Advanced(at, r), k) == Front(a, cuts, at, k)
  {
    AdvancedTail(a, cuts, at, r);
  }

  lemma {:induction false} AdvanceFronts<T>(a: seq<T>, cuts: seq<nat>, at: seq<nat>, at': seq<nat>, k: nat, r: nat)
    requires Positions(|a|, cuts, at) && k <= |at| && r < |at| && Tail(a, cuts, at, r) != []
    requires at' == Advanced(at, r) && Positions(|a|, cuts, at')
    ensures r >= k ==> Fronts(a, cuts, at', k) == Fronts(a, cuts, at, k)
    ensures r < k ==> Fronts(a, cuts, at', k) + Front(a, cuts, at, r) == Fronts(a, cuts, at, k) + Front(a, cuts, at', r)
  {
    hide Fronts;
    hide Front;
    hide Tail;
    if k > 0 {
      AdvanceFronts(a, cuts, at, at', k - 1, r);
      AdvancedFront(a, cuts, at, r);
      LastFront(a, cuts, at, k);
      LastFront(a, cuts, at', k);
      if k - 1 == r {
        SwapLast(Fronts(a, cuts, at, r), Front(a, cuts, at', r), Front(a, cuts, at, r));
      } else if r < k {
        Carry(Fronts(a, cuts, at', k - 1), Front(a, cuts, at, r), Fronts(a, cuts, at, k - 1), Front(a, cuts, at', r),
              Front(a, cuts, at, k - 1));
      }
    } else {
      NoFronts(a, cuts, at);
      NoFronts(a, cuts, at');
    }
  }

  lemma NoFronts<T>(a: seq<T>, cuts: seq<nat>, at: seq<nat>)
    requires Positions(|a|, cuts, at)
    ensures Fronts(a, cuts, at, 0) == multiset{}
  {
  }

  lemma LastFront<T>(a: seq<T>, cuts: seq<nat>, at: seq<nat>, k: nat)
    requires Positions(|a|, cuts, at) && 0 < k <= |at|
    ensures Fronts(a, cuts, at, k) == Fronts(a, cuts, at, k - 1) + Front(a, cuts, at, k - 1)
  {
  }

  /** Nothing is left exactly when no run has a front. */
  lemma {:induction false} RestEmpty<T>(a: seq<T>, cuts: seq<nat>, at: seq<nat>, k: nat)
    requires Positions(|a|, cuts, at) && k <= |at|
    ensures |Rest(a, cuts, at, k)| == 0 <==> |Fronts(a, cuts, at, k)| == 0
  {
    hide Positions;
    hide Tail;
    hide Front;
    if k > 0 {
      RestEmpty(a, cuts, at, k - 1);
      TailEmpty(a, cuts, at, k - 1);
    }
  }

  lemma TailEmpty<T>(a: seq<T>, cuts: seq<nat>, at: seq<nat>, k: nat)
    requires Positions(|a|, cuts, at) && k < |at|
    ensures |multiset(Tail(a, cuts, at, k))| == 0 <==> |Front(a, cuts, at, k)| == 0
  {
  }

  /** At the start everything is left. */
  lemma {:induction false} RestIsAll<T>(a: seq<T>, cuts: seq<nat>, k: nat)
    requires |cuts| > 0 && cuts[0] == 0 && Positions(|a|, cuts, cuts[..|cuts| - 1]) && k < |cuts|
    ensures cuts[k] <= |a| && Rest(a, cuts, cuts[..|cuts| - 1], k) == multiset(a[..cuts[k]])
  {
    if k > 0 {
      RestIsAll(a, cuts, k - 1);
      assert InRun(|a|, cuts, cuts[..|cuts| - 1], k - 1);
      assert a[..cuts[k]] == a[..cuts[k - 1]] + a[cuts[k - 1]..cuts[k]];
    }
  }

  // ---- the merge ---------------------------------------------------------------------------

  /** The output so far is sorted, is no greater than what is left, and together with it makes up the array. */
  ghost predicate Merged<T(!new)>(compare: (T, T) -> int, a: seq<T>, cuts: seq<nat>, at: seq<nat>, output: seq<T>) {
    && Positions(|a|, cuts, at)
    && Sorted(compare, output) && Below(compare, output, Rest(a, cuts, at, |at|))
    && multiset(output) + Rest(a, cuts, at, |at|) == multiset(a)
  }

  ghost predicate Below<T(!new)>(compare: (T, T) -> int, output: seq<T>, rest: multiset<T>) {
    forall j: nat, x: T :: j < |output| && x in rest ==> Le(compare, output[j], x)
  }

  /** The nodes are the fronts of the runs. */
  ghost predicate HoldsFronts<T>(a: seq<T>, cuts: seq<nat>, at: seq<nat>, h: seq<HeapNode<T>>) {
    Positions(|a|, cuts, at) && multiset(h) == Fronts(a, cuts, at, |at|)
  }

  /** The heap runs empty exactly when the output is complete. */
  lemma EmptyWhenDone<T(!new)>(compare: (T, T) -> int, a: seq<T>, cuts: seq<nat>, at: seq<nat>, output: seq<T>, h: seq<HeapNode<T>>)
    requires Merged(compare, a, cuts, at, output) && HoldsFronts(a, cuts, at, h)
    ensures |output| <= |a|
    ensures |h| == 0 <==> |output| == |a|
    ensures |output| == |a| ==> multiset(output) == multiset(a)
  {
    hide Positions;
    hide Rest;
    hide Fronts;
    hide Below;
    hide Sorted;
    RestEmpty(a, cuts, at, |at|);
    assert |multiset(output) + Rest(a, cuts, at, |at|)| == |multiset(a)|;
    assert |multiset(h)| == |h|;
    if |output| == |a| {
      assert Rest(a, cuts, at, |at|) == multiset{};
      assert multiset(output) + multiset{} == multiset(output);
    }
  }

  /** The root of the heap is the front of its run and no greater than anything that is left. */
  lemma RootIsFront<T(!new)>(compare: (T, T) -> int, a: seq<T>, cuts: seq<nat>, at: seq<nat>, h: seq<HeapNode<T>>)
    requires TotalPreorder(compare) && RunsSorted(compare, a, cuts) && HoldsFronts(a, cuts, at, h)
    requires h != [] && Ordered(compare, h, 0)
    ensures h[0].run < |at| && Tail(a, cuts, at, h[0].run) != [] && h[0].value == Tail(a, cuts, at, h[0].run)[0]
    ensures forall x: T :: x in Rest(a, cuts, at, |at|) ==> Le(compare, h[0].value, x)
  {
    hide TotalPreorder;
    hide Ordered;
    hide RunsSorted;
    hide Tail;
    hide Rest;
    assert h[0] in multiset(h);
    FrontIsRun(a, cuts, at, |at|, h[0]);
    forall x: T | x in Rest(a, cuts, at, |at|) ensures Le(compare, h[0].value, x) {
      var r := RestAboveFronts(compare, a, cuts, at, |at|, x);
      var front := Tail(a, cuts, at, r)[0];
      RunHasFront(a, cuts, at, |at|, r);
      assert HeapNode(front, r) in multiset(h);
      var c :| 0 <= c < |h| && h[c] == HeapNode(front, r);
      RootIsLeast(compare, h, c);
      LeTransitive(compare, h[0].value, front, x);
    }
  }

  /** Moving the least element that is left to the end of the output. */
  lemma OutputStep<T(!new)>(compare: (T, T) -> int, a: seq<T>, cuts: seq<nat>, at: seq<nat>, output: seq<T>, r: nat)
    requires Merged(compare, a, cuts, at, output) && r < |at| && Tail(a, cuts, at, r) != []
    requires forall x: T :: x in Rest(a, cuts, at, |at|) ==> Le(compare, Tail(a, cuts, at, r)[0], x)
    ensures Merged(compare, a, cuts, Advanced(at, r), output + [Tail(a, cuts, at, r)[0]])
  {
    hide Rest;
    hide Tail;
    hide Positions;
    var at' := Advanced(at, r);
    AdvancedTail(a, cuts, at, r);
    AdvanceRest(a, cuts, at, at', |at|, r);
    var value := Tail(a, cuts, at, r)[0];
    OutputGrows(compare, output, value, Rest(a, cuts, at, |at|), Rest(a, cuts, at', |at|), multiset(a));
  }

  lemma OutputGrows<T(!new)>(compare: (T, T) -> int, output: seq<T>, value: T, rest: multiset<T>, rest': multiset<T>, all: multiset<T>)
    requires Sorted(compare, output) && Below(compare, output, rest) && multiset(output) + rest == all
    requires rest == rest' + multiset{value} && forall x: T :: x in rest ==> Le(compare, value, x)
    ensures Sorted(compare, output + [value]) && Below(compare, output + [value], rest')
    ensures multiset(output + [value]) + rest' == all
  {
    assert value in rest;
    assert forall x: T :: x in rest' ==> x in rest;
    assert multiset(output + [value]) + rest' == multiset(output) + rest;
  }

  /** The heap with its root replaced by the next element of the same run, or by the last node when there is none. */
  function Refilled<T>(h: seq<HeapNode<T>>, tail: seq<T>): seq<HeapNode<T>>
    requires h != []
  {
    if tail != [] then h[0 := HeapNode(tail[0], h[0].run)]
    else if |h| > 1 then h[..|h| - 1][0 := h[|h| - 1]]
    else []
  }

  lemma RefilledNodes<T>(h: seq<HeapNode<T>>, tail: seq<T>)
    requires h != []
    ensures multiset(Refilled(h, tail)) + multiset{h[0]}
         == multiset(h) + if tail == [] then multiset{} else multiset{HeapNode(tail[0], h[0].run)}
  {
    assert h == [h[0]] + h[1..];
    if tail != [] {
      assert Refilled(h, tail) == [HeapNode(tail[0], h[0].run)] + h[1..];
    } else if |h| > 1 {
      var n := |h| - 1;
      assert h[1..] == h[1..n] + [h[n]];
      assert Refilled(h, tail) == [h[n]] + h[1..n];
    }
  }

  lemma RefilledOrdered<T>(compare: (T, T) -> int, h: seq<HeapNode<T>>, tail: seq<T>)
    requires h != [] && Ordered(compare, h, 0)
    ensures Ordered(compare, Refilled(h, tail), 1)
  {
    var h' := Refilled(h, tail);
    forall c: nat | 0 < c < |h'| && Parent(c) >= 1 ensures EdgeOk(compare, h', c) {
      assert EdgeOk(compare, h, c);
    }
  }

  lemma RefilledFronts<T>(a: seq<T>, cuts: seq<nat>, at: seq<nat>, h: seq<HeapNode<T>>)
    requires HoldsFronts(a, cuts, at, h) && h != [] && h[0].run < |at|
    requires Tail(a, cuts, at, h[0].run) != [] && h[0].value == Tail(a, cuts, at, h[0].run)[0]
    ensures Positions(|a|, cuts, Advanced(at, h[0].run))
    ensures HoldsFronts(a, cuts, Advanced(at, h[0].run), Refilled(h, Tail(a, cuts, Advanced(at, h[0].run), h[0].run)))
  {
    hide Positions;
    hide Fronts;
    hide Tail;
    var r := h[0].run;
    var at' := Advanced(at, r);
    AdvancedTail(a, cuts, at, r);
    AdvanceFronts(a, cuts, at, at', |at|, r);
    RefilledNodes(h, Tail(a, cuts, at', r));
    Cancel(Fronts(a, cuts, at', |at|), multiset(Refilled(h, Tail(a, cuts, at', r))), multiset{h[0]});
  }

  lemma Cancel<T>(x: multiset<T>, y: multiset<T>, z: multiset<T>)
    requires x + z == y + z
    ensures x == y
  {
    assert x == (x + z) - z;
    assert y == (y + z) - z;
  }

  // ---- the runs are parallel_for's slices ------------------------------------------------------

  /** The places where parallel_for cuts [0, n) for p threads. */
  ghost function Cuts(n: nat, p: nat): (cuts: seq<nat>)
    requires p > 0
    ensures |cuts| == p + 1 && forall k: nat :: k <= p ==> cuts[k] == Cut(n, p, k)
  {
    seq(p + 1, k requires 0 <= k <= p => Cut(n, p, k))
  }

  ghost predicate RunNotEmpty(n: nat, cuts: seq<nat>, k: nat) {
    k + 1 < |cuts| && cuts[k] < cuts[k + 1] <= n
  }

  lemma CutsInOrder(n: nat, p: nat)
    requires p > 0
    ensures Cuts(n, p)[0] == 0 && Cuts(n, p)[p] == n
    ensures Positions(n, Cuts(n, p), Cuts(n, p)[..p])
    ensures p <= n ==> forall k: nat :: k < p ==> RunNotEmpty(n, Cuts(n, p), k)
  {
    forall k: nat | k < p ensures InRun(n, Cuts(n, p), Cuts(n, p)[..p], k) && (p <= n ==> RunNotEmpty(n, Cuts(n, p), k)) {
      SliceIsCut(n, p, k);
    }
  }

  ghost predicate SliceSorted<T>(compare: (T, T) -> int, a: seq<T>, p: nat, k: nat)
    requires k < p
  {
    var slice := SliceAt(|a|, p, k);
    slice.start <= slice.end <= |a| && Sorted(compare, a[slice.start..slice.end])
  }

  /** Sorting every slice that parallel_for hands out leaves exactly the runs the merge asks for. */
  lemma SlicesAreRuns<T>(compare: (T, T) -> int, a: seq<T>, p: nat)
    requires p > 0
    ensures (forall k: nat :: k < p ==> SliceSorted(compare, a, p, k)) <==> RunsSorted(compare, a, Cuts(|a|, p))
  {
    forall k: nat | k < p ensures SliceSorted(compare, a, p, k) <==> RunSorted(compare, a, Cuts(|a|, p), k) {
      SliceIsCut(|a|, p, k);
    }
  }

  /** The length and the offset of run k are those of the slice parallel_for cuts. */
  ghost predicate IsSlice(n: nat, p: nat, lengths: seq<nat>, offsets: seq<nat>, k: nat)
    requires 0 < p && k < |lengths| && k < |offsets|
  {
    offsets[k] == Cut(n, p, k) && offsets[k] + lengths[k] == Cut(n, p, k + 1)
  }

  ghost predicate AreSlices(n: nat, p: nat, lengths: seq<nat>, offsets: seq<nat>) {
    && 0 < p <= MAX_NTHREADS && |lengths| == |offsets| == MAX_NTHREADS
    && forall k: nat :: k < p ==> IsSlice(n, p, lengths, offsets, k)
  }

  /** How long run k is: the last one also takes what is left over. */
  function RunLength(n: nat, p: nat, k: nat): nat
    requires p > 0
  {
    if k == p - 1 then n / p + n % p else n / p
  }

  method Lengths(p: nat, range: nat, left: nat) returns (lengths: array<nat>)
    requires 0 < p <= MAX_NTHREADS
    ensures fresh(lengths) && lengths.Length == MAX_NTHREADS
    ensures forall k: nat :: k < p ==> lengths[k] == if k == p - 1 then range + left else range
  {
    lengths := new nat[MAX_NTHREADS](_ => 0);
    var k := 0;
    while k < p - 1
      invariant 0 <= k <= p - 1
      invariant forall j: nat :: j < k ==> lengths[j] == range
    {
      lengths[k] := range;
      k := k + 1;
    }
    lengths[p - 1] := range + left;
  }

  method Offsets(n: nat, p: nat, lengths: array<nat>) returns (offsets: array<nat>)
    requires 0 < p <= MAX_NTHREADS && lengths.Length == MAX_NTHREADS
    requires forall k: nat :: k < p ==> lengths[k] == RunLength(n, p, k)
    ensures fresh(offsets) && AreSlices(n, p, lengths[..], offsets[..])
  {
    hide Cut;
    hide RunLength;
    offsets := new nat[MAX_NTHREADS](_ => 0);
    offsets[0] := 0;
    NextCut(n, p, 0);
    var k := 1;
    while k < p
      invariant 1 <= k <= p
      invariant forall j: nat :: j < k ==> IsSlice(n, p, lengths[..], offsets[..], j)
    {
      assert IsSlice(n, p, lengths[..], offsets[..], k - 1);
      NextCut(n, p, k);
      ghost var before := offsets[..];
      offsets[k] := offsets[k - 1] + lengths[k - 1];
      assert offsets[..] == before[k := before[k - 1] + lengths[k - 1]];
      assert IsSlice(n, p, lengths[..], offsets[..], k);
      forall j: nat | j < k ensures IsSlice(n, p, lengths[..], offsets[..], j) {
        assert IsSlice(n, p, lengths[..], before, j);
      }
      k := k + 1;
    }
  }

  lemma NextCut(n: nat, p: nat, k: nat)
    requires k < p
    ensures Cut(n, p, k + 1) == Cut(n, p, k) + RunLength(n, p, k)
    ensures Cut(n, p, 0) == 0
  {
    DivMod(n, p);
    MulDist(n / p, k, 1);
  }

  /** The node for the start of run k. */
  ghost predicate IsFirst<T>(a: seq<T>, cuts: seq<nat>, h: seq<HeapNode<T>>, k: nat) {
    RunNotEmpty(|a|, cuts, k) && k < |h| && h[k] == HeapNode(a[cuts[k]], k)
  }

  /** At the start every run has a front, in run order. */
  lemma {:induction false} FirstFronts<T>(a: seq<T>, cuts: seq<nat>, h: seq<HeapNode<T>>, k: nat)
    requires |cuts| > 0 && Positions(|a|, cuts, cuts[..|cuts| - 1]) && k <= |h| && |h| == |cuts| - 1
    requires forall r: nat :: r < |h| ==> IsFirst(a, cuts, h, r)
    ensures multiset(h[..k]) == Fronts(a, cuts, cuts[..|cuts| - 1], k)
  {
    hide Fronts;
    hide Positions;
    var at := cuts[..|cuts| - 1];
    if k > 0 {
      FirstFronts(a, cuts, h, k - 1);
      LastFront(a, cuts, at, k);
      assert IsFirst(a, cuts, h, k - 1);
      assert h[..k] == h[..k - 1] + [h[k - 1]];
    } else {
      NoFronts(a, cuts, at);
    }
  }

  /** The first part of the merge: a node for every run, put in heap order from the last parent up. */
  method BuildHeap<T(!new)>(a: array<T>, p: nat, offsets: array<nat>, compare: (T, T) -> int, ghost cuts: seq<nat>)
    returns (heap: array<HeapNode<T>>)
    requires TotalPreorder(compare) && 1 < p <= MAX_NTHREADS && offsets.Length == MAX_NTHREADS
    requires |cuts| == p + 1 && Positions(a.Length, cuts, cuts[..p])
    requires forall k: nat :: k < p ==> RunNotEmpty(a.Length, cuts, k) && offsets[k] == cuts[k]
    ensures fresh(heap) && heap.Length == MAX_NTHREADS && Ordered(compare, heap[..p], 0)
    ensures HoldsFronts(a[..], cuts, cuts[..p], heap[..p])
  {
    hide TotalPreorder;
    hide Positions;
    heap := FirstNodes(a, p, offsets, cuts);
    FirstFronts(a[..], cuts, heap[..p], p);
    assert heap[..p][..p] == heap[..p];
    var k := p / 2 - 1;
    hide Fronts;
    while k >= 0
      invariant -1 <= k < p && Ordered(compare, heap[..p], k + 1)
      invariant multiset(heap[..p]) == Fronts(a[..], cuts, cuts[..p], p)
    {
      Heapify(heap, p, k, compare);
      k := k - 1;
    }
  }

  method FirstNodes<T>(a: array<T>, p: nat, offsets: array<nat>, ghost cuts: seq<nat>) returns (heap: array<HeapNode<T>>)
    requires 1 < p <= MAX_NTHREADS && offsets.Length == MAX_NTHREADS
    requires forall k: nat :: k < p ==> RunNotEmpty(a.Length, cuts, k) && offsets[k] == cuts[k]
    ensures fresh(heap) && heap.Length == MAX_NTHREADS
    ensures forall r: nat :: r < p ==> IsFirst(a[..], cuts, heap[..p], r)
  {
    assert RunNotEmpty(a.Length, cuts, 0);
    var first := HeapNode(a[offsets[0]], 0);
    heap := new HeapNode<T>[MAX_NTHREADS](_ => first);
    var k := 1;
    while k < p
      invariant 1 <= k <= p
      invariant forall r: nat :: r < k ==> RunNotEmpty(a.Length, cuts, r) && heap[r] == HeapNode(a[cuts[r]], r)
    {
      assert RunNotEmpty(a.Length, cuts, k);
      heap[k] := HeapNode(a[offsets[k]], k);
      k := k + 1;
    }
  }

  /** One round of the merge: the root goes to the output, and the heap gets the next node of its run. */
  method Round<T(!new)>(a: array<T>, heap: array<HeapNode<T>>, length: nat, indices: array<nat>, lengths: array<nat>,
                        offsets: array<nat>, p: nat, compare: (T, T) -> int, ghost cuts: seq<nat>, ghost at: seq<nat>)
    returns (length': nat)
    requires TotalPreorder(compare) && heap.Length == indices.Length == lengths.Length == offsets.Length == MAX_NTHREADS
    requires a as object !in {heap as object, indices as object} && indices !in {lengths, offsets} && 1 < p <= MAX_NTHREADS && 0 < length <= p
    requires At(cuts, at, indices[..], lengths[..], offsets[..], p) && Positions(a.Length, cuts, at)
    requires Ordered(compare, heap[..length], 0) && HoldsFronts(a[..], cuts, at, heap[..length])
    requires heap[0].run < p && Tail(a[..], cuts, at, heap[0].run) != []
    requires heap[0].value == Tail(a[..], cuts, at, heap[0].run)[0]
    modifies heap, indices
    ensures Positions(a.Length, cuts, Advanced(at, old(heap[0].run))) && length' <= length
    ensures At(cuts, Advanced(at, old(heap[0].run)), indices[..], lengths[..], offsets[..], p)
    ensures Ordered(compare, heap[..length'], 0)
    ensures HoldsFronts(a[..], cuts, Advanced(at, old(heap[0].run)), heap[..length'])
  {
    hide TotalPreorder;
    hide Positions;
    hide Ordered;
    hide HoldsFronts;
    hide At;
    hide Tail;
    length' := length;
    var k := heap[0].run;
    ghost var h := heap[..length];
    ghost var before := indices[..];
    AtAdvances(cuts, at, before, lengths[..], offsets[..], p, k);
    ghost var at' := Advanced(at, k);
    AdvancedTail(a[..], cuts, at, k);
    ghost var tail := Tail(a[..], cuts, at', k);
    RefilledFronts(a[..], cuts, at, h);
    RefilledOrdered(compare, h, tail);
    indices[k] := indices[k] + 1;
    assert indices[..] == before[k := before[k] + 1];
    TailAt(a[..], cuts, at', k);
    if indices[k] < lengths[k] {
      heap[0] := HeapNode(a[offsets[k] + indices[k]], k);
      assert heap[..length'] == h[0 := HeapNode(tail[0], k)];
    } else {
      length' := length' - 1;
      if length' > 0 {
        heap[0] := heap[length'];
        assert heap[..length'] == h[..length'][0 := h[length']];
      }
    }
    assert heap[..length'] == Refilled(h, tail);
    if length' > 0 {
      Heapify(heap, length', 0, compare);
    }
    SameNodes(compare, a[..], cuts, at', Refilled(h, tail), heap[..length']);
  }

  lemma SameNodes<T>(compare: (T, T) -> int, a: seq<T>, cuts: seq<nat>, at: seq<nat>, h: seq<HeapNode<T>>, h': seq<HeapNode<T>>)
    requires HoldsFronts(a, cuts, at, h) && multiset(h') == multiset(h)
    ensures HoldsFronts(a, cuts, at, h')
    ensures h' == [] ==> Ordered(compare, h', 0)
  {
  }

  /** Run k has been consumed up to offsets[k] + indices[k]. */
  ghost predicate At(cuts: seq<nat>, at: seq<nat>, indices: seq<nat>, lengths: seq<nat>, offsets: seq<nat>, p: nat) {
    && |cuts| == p + 1 && |at| == p && p <= |indices| && p <= |lengths| && p <= |offsets|
    && forall k: nat :: k < p ==> at[k] == offsets[k] + indices[k] && offsets[k] + lengths[k] == cuts[k + 1]
  }

  lemma AtAdvances(cuts: seq<nat>, at: seq<nat>, indices: seq<nat>, lengths: seq<nat>, offsets: seq<nat>, p: nat, k: nat)
    requires At(cuts, at, indices, lengths, offsets, p) && k < p
    ensures |at| == p && |cuts| == p + 1 && p <= |indices| && p <= |lengths| && p <= |offsets|
    ensures At(cuts, Advanced(at, k), indices[k := indices[k] + 1], lengths, offsets, p)
    ensures at[k] == offsets[k] + indices[k] && cuts[k + 1] == offsets[k] + lengths[k]
  {
  }

  lemma TailAt<T>(a: seq<T>, cuts: seq<nat>, at: seq<nat>, k: nat)
    requires Positions(|a|, cuts, at) && k < |at|
    ensures at[k] < cuts[k + 1] ==> at[k] < |a| && Tail(a, cuts, at, k) != [] && Tail(a, cuts, at, k)[0] == a[at[k]]
    ensures at[k] >= cuts[k + 1] ==> Tail(a, cuts, at, k) == []
  {
    assert InRun(|a|, cuts, at, k);
  }

  /** sort_merge_subsorted */
  method MergeSubsorted<T(!new)>(a: array<T>, p: nat, compare: (T, T) -> int)
    requires TotalPreorder(compare) && 0 < p <= MAX_NTHREADS
    requires a.Length <= 1 || p == 1 || p <= a.Length
    requires RunsSorted(compare, a[..], Cuts(a.Length, p))
    modifies a
    ensures Sorted(compare, a[..]) && multiset(a[..]) == multiset(old(a[..]))
  {
    var n := a.Length;
    if n <= 1 || p == 1 {
      OneRun(compare, a[..], p);
      return;
    }
    var output := MergeRuns(a, p, compare);
    var i := 0;
    ghost var s := output[..];
    while i < n
      invariant i <= n && output[..] == s && a[..i] == s[..i]
    {
      a[i] := output[i];
      i := i + 1;
    }
    assert a[..] == s;
  }

  lemma OneRun<T>(compare: (T, T) -> int, a: seq<T>, p: nat)
    requires p > 0 && (|a| <= 1 || p == 1) && RunsSorted(compare, a, Cuts(|a|, p))
    ensures Sorted(compare, a)
  {
    if p == 1 {
      CutsInOrder(|a|, 1);
      assert RunSorted(compare, a, Cuts(|a|, 1), 0);
      assert a[0..|a|] == a;
    }
  }

  /** The main loop, which empties the heap exactly when the output is full. */
  method MergeRuns<T(!new)>(a: array<T>, p: nat, compare: (T, T) -> int) returns (output: array<T>)
    requires TotalPreorder(compare) && 1 < p <= a.Length && p <= MAX_NTHREADS
    requires RunsSorted(compare, a[..], Cuts(a.Length, p))
    ensures fresh(output) && output.Length == a.Length
    ensures Sorted(compare, output[..]) && multiset(output[..]) == multiset(a[..])
  {
    hide TotalPreorder;
    hide Positions;
    hide RunsSorted;
    hide Ordered;
    hide HoldsFronts;
    hide Merged;
    ghost var s, cuts := a[..], Cuts(a.Length, p);
    ghost var at := cuts[..p];
    var lengths, offsets, indices := Arrays(a.Length, p);
    CutsInOrder(a.Length, p);
    var heap := BuildHeap(a, p, offsets, compare, cuts);
    var length: nat := p;
    var first := a[0];
    output := new T[a.Length](_ => first);
    MergedNothing(compare, s, cuts);
    assert output[..0] == [];
    var i := 0;
    while i < a.Length
      invariant i <= a.Length && length <= p && Merged(compare, s, cuts, at, output[..i]) && a[..] == s
      invariant At(cuts, at, indices[..], lengths[..], offsets[..], p) && Positions(a.Length, cuts, at)
      invariant Ordered(compare, heap[..length], 0) && HoldsFronts(s, cuts, at, heap[..length])
    {
      EmptyWhenDone(compare, s, cuts, at, output[..i], heap[..length]);
      RootIsFront(compare, s, cuts, at, heap[..length]);
      OutputStep(compare, s, cuts, at, output[..i], heap[0].run);
      ghost var k := heap[0].run;
      output[i] := heap[0].value;
      assert output[..i + 1] == output[..i] + [heap[0].value];
      length := Round(a, heap, length, indices, lengths, offsets, p, compare, cuts, at);
      at := Advanced(at, k);
      i := i + 1;
    }
    EmptyWhenDone(compare, s, cuts, at, output[..i], heap[..length]);
    assert length == 0;
    assert output[..i] == output[..];
    MergedIsSorted(compare, s, cuts, at, output[..]);
  }

  method Arrays(n: nat, p: nat) returns (lengths: array<nat>, offsets: array<nat>, indices: array<nat>)
    requires 0 < p <= MAX_NTHREADS
    ensures fresh(lengths) && fresh(offsets) && fresh(indices) && indices !in {lengths, offsets}
    ensures lengths.Length == offsets.Length == indices.Length == MAX_NTHREADS
    ensures forall k: nat :: k < p ==> offsets[k] == Cuts(n, p)[k]
    ensures At(Cuts(n, p), Cuts(n, p)[..p], indices[..], lengths[..], offsets[..], p)
  {
    hide Cut;
    lengths := Lengths(p, n / p, n % p);
    offsets := Offsets(n, p, lengths);
    indices := new nat[MAX_NTHREADS](_ => 0);
    forall k: nat | k < p
      ensures offsets[k] == Cuts(n, p)[k] && offsets[k] + lengths[k] == Cuts(n, p)[k + 1]
    {
      assert IsSlice(n, p, lengths[..], offsets[..], k);
    }
  }

  lemma MergedNothing<T(!new)>(compare: (T, T) -> int, a: seq<T>, cuts: seq<nat>)
    requires |cuts| > 1 && cuts[0] == 0 && cuts[|cuts| - 1] == |a| && Positions(|a|, cuts, cuts[..|cuts| - 1])
    ensures Merged(compare, a, cuts, cuts[..|cuts| - 1], [])
  {
    hide Rest;
    hide Positions;
    RestIsAll(a, cuts, |cuts| - 1);
    assert a[..|a|] == a;
  }

  lemma MergedIsSorted<T(!new)>(compare: (T, T) -> int, a: seq<T>, cuts: seq<nat>, at: seq<nat>, output: seq<T>)
    requires Merged(compare, a, cuts, at, output)
    ensures Sorted(compare, output)
  {
  }
}
