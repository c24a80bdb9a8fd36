/** The binary heap of cbase/sort.c: sifting one node down restores the heap order and loses nothing. */
module Heaps {

  /** The next element of a run, and the run it comes from. */
  datatype HeapNode<T> = HeapNode(value: T, run: nat)

  /** The code only ever asks whether one element compares as less than another. */
  predicate Le<T>(compare: (T, T) -> int, x: T, y: T) {
    !(compare(y, x) < 0)
  }

  /** No two elements are each less than the other, and "not greater" is transitive. */
  ghost predicate TotalPreorder<T(!new)>(compare: (T, T) -> int) {
    && (forall x: T, y: T :: compare(x, y) < 0 ==> Le(compare, x, y))
    && (forall x: T, y: T, z: T :: Le(compare, x, y) && Le(compare, y, z) ==> Le(compare, x, z))
  }

  lemma LessIsLe<T(!new)>(compare: (T, T) -> int, x: T, y: T)
    requires TotalPreorder(compare)
    ensures compare(x, y) < 0 ==> Le(compare, x, y)
    ensures Le(compare, x, x)
  {
  }

  lemma LeTransitive<T(!new)>(compare: (T, T) -> int, x: T, y: T, z: T)
    requires TotalPreorder(compare) && Le(compare, x, y) && Le(compare, y, z)
    ensures Le(compare, x, z)
  {
  }

  // ---- heap order -----------------------------------------------------------------------

  function Parent(c: nat): nat
    requires c > 0
  {
    (c - 1) / 2
  }

  ghost predicate EdgeOk<T>(compare: (T, T) -> int, h: seq<HeapNode<T>>, c: nat)
    requires 0 < c < |h|
  {
    Le(compare, h[Parent(c)].value, h[c].value)
  }

  /** Every node below index lo or deeper is no greater than its children. */
  ghost predicate Ordered<T>(compare: (T, T) -> int, h: seq<HeapNode<T>>, lo: nat) {
    forall c: nat :: 0 < c < |h| && Parent(c) >= lo ==> EdgeOk(compare, h, c)
  }

  /** Only the node at `hole` may be greater than its children, and they are not less than its parent. */
  ghost predicate Sifting<T>(compare: (T, T) -> int, h: seq<HeapNode<T>>, lo: nat, hole: nat) {
    && lo <= hole < |h|
    && (forall c: nat :: 0 < c < |h| && Parent(c) >= lo && Parent(c) != hole ==> EdgeOk(compare, h, c))
    && (hole > lo ==> forall c: nat :: 0 < c < |h| && Parent(c) == hole && Parent(hole) >= lo ==> Skips(compare, h, c))
  }

  ghost predicate Skips<T>(compare: (T, T) -> int, h: seq<HeapNode<T>>, c: nat)
    requires 0 < c < |h|
  {
    Parent(c) > 0 ==> Le(compare, h[Parent(Parent(c))].value, h[c].value)
  }

  function Swapped<T>(h: seq<HeapNode<T>>, i: nat, j: nat): seq<HeapNode<T>>
    requires i < |h| && j < |h|
  {
    h[i := h[j]][j := h[i]]
  }

  /** Child c holds the least of the node at the hole and its children. */
  ghost predicate LeastChild<T>(compare: (T, T) -> int, h: seq<HeapNode<T>>, hole: nat, c: nat) {
    && 0 < c < |h| && Parent(c) == hole
    && Le(compare, h[c].value, h[hole].value)
    && forall d: nat :: 0 < d < |h| && Parent(d) == hole ==> Le(compare, h[c].value, h[d].value)
  }

  lemma SiftStep<T(!new)>(compare: (T, T) -> int, h: seq<HeapNode<T>>, lo: nat, hole: nat, c: nat)
    requires TotalPreorder(compare) && Sifting(compare, h, lo, hole) && LeastChild(compare, h, hole, c)
    ensures Sifting(compare, Swapped(h, hole, c), lo, c)
  {
    hide TotalPreorder;
    var h' := Swapped(h, hole, c);
    forall d: nat | 0 < d < |h| && Parent(d) >= lo && Parent(d) != c ensures EdgeOk(compare, h', d) {
      EdgeAfterSwap(compare, h, lo, hole, c, d);
    }
    forall d: nat | 0 < d < |h| && Parent(d) == c ensures Skips(compare, h', d) {
      assert EdgeOk(compare, h, d);
    }
  }

  lemma EdgeAfterSwap<T(!new)>(compare: (T, T) -> int, h: seq<HeapNode<T>>, lo: nat, hole: nat, c: nat, d: nat)
    requires TotalPreorder(compare) && Sifting(compare, h, lo, hole) && LeastChild(compare, h, hole, c)
    requires 0 < d < |h| && Parent(d) >= lo && Parent(d) != c
    ensures EdgeOk(compare, Swapped(h, hole, c), d)
  {
    hide TotalPreorder;
    if d == hole {
      assert Skips(compare, h, c);
    } else if Parent(d) != hole {
      assert EdgeOk(compare, h, d);
    }
  }

  lemma SiftDone<T>(compare: (T, T) -> int, h: seq<HeapNode<T>>, lo: nat, hole: nat)
    requires Sifting(compare, h, lo, hole)
    requires forall d: nat :: 0 < d < |h| && Parent(d) == hole ==> Le(compare, h[hole].value, h[d].value)
    ensures Ordered(compare, h, lo)
  {
    forall c: nat | 0 < c < |h| && Parent(c) >= lo ensures EdgeOk(compare, h, c) {
      if Parent(c) == hole { assert Le(compare, h[hole].value, h[c].value); }
    }
  }

  /** The root of a heap is no greater than any other node. */
  lemma {:induction false} RootIsLeast<T(!new)>(compare: (T, T) -> int, h: seq<HeapNode<T>>, c: nat)
    requires TotalPreorder(compare) && Ordered(compare, h, 0) && c < |h|
    ensures Le(compare, h[0].value, h[c].value)
  {
    if c == 0 {
      LessIsLe(compare, h[0].value, h[0].value);
    } else {
      RootIsLeast(compare, h, Parent(c));
      assert EdgeOk(compare, h, c);
      LeTransitive(compare, h[0].value, h[Parent(c)].value, h[c].value);
    }
  }

  lemma SwapKeeps<T>(h: seq<HeapNode<T>>, i: nat, j: nat)
    requires i < |h| && j < |h|
    ensures multiset(Swapped(h, i, j)) == multiset(h)
  {
  }

  /** The least of the node at i and its children, the way the code picks it. */
  method Smallest<T(!new)>(heap: array<HeapNode<T>>, p: nat, i: nat, compare: (T, T) -> int) returns (smallest: nat)
    requires TotalPreorder(compare) && p <= heap.Length && 2 * i + 1 < p
    ensures smallest == i || LeastChild(compare, heap[..p], i, smallest)
    ensures smallest == i ==>
      forall d: nat :: 0 < d < p && Parent(d) == i ==> Le(compare, heap[..p][i].value, heap[..p][d].value)
  {
    hide TotalPreorder;
    smallest := i;
    var left, right := 2 * i + 1, 2 * i + 2;
    ghost var h := heap[..p];
    if compare(heap[left].value, heap[smallest].value) < 0 {
      smallest := left;
    }
    if right < p && compare(heap[right].value, heap[smallest].value) < 0 {
      smallest := right;
    }
    LeastOfThree(compare, h, i, smallest);
  }

  lemma LeastOfThree<T(!new)>(compare: (T, T) -> int, h: seq<HeapNode<T>>, i: nat, smallest: nat)
    requires TotalPreorder(compare) && 2 * i + 1 < |h|
    requires var left, right := 2 * i + 1, 2 * i + 2;
             var first := if compare(h[left].value, h[i].value) < 0 then left else i;
             smallest == if right < |h| && compare(h[right].value, h[first].value) < 0 then right else first
    ensures smallest == i || LeastChild(compare, h, i, smallest)
    ensures smallest == i ==> forall d: nat :: 0 < d < |h| && Parent(d) == i ==> Le(compare, h[i].value, h[d].value)
  {
    var left, right := 2 * i + 1, 2 * i + 2;
    forall d: nat | 0 < d < |h| && Parent(d) == i ensures d == left || d == right { }
    LessIsLe(compare, h[left].value, h[i].value);
    LessIsLe(compare, h[i].value, h[i].value);
    if right < |h| {
      LessIsLe(compare, h[right].value, h[right].value);
      LessIsLe(compare, h[right].value, h[i].value);
      LessIsLe(compare, h[right].value, h[left].value);
      if smallest == right && compare(h[left].value, h[i].value) < 0 {
        LeTransitive(compare, h[right].value, h[left].value, h[i].value);
      } else if smallest == right {
        LeTransitive(compare, h[right].value, h[i].value, h[left].value);
      }
    }
  }

  /** sort_heapify: puts the node at idx where it belongs in the first p nodes. */
  method Heapify<T(!new)>(heap: array<HeapNode<T>>, p: nat, idx: nat, compare: (T, T) -> int)
    requires TotalPreorder(compare) && idx < p <= heap.Length && Ordered(compare, heap[..p], idx + 1)
    modifies heap
    ensures Ordered(compare, heap[..p], idx)
    ensures multiset(heap[..p]) == multiset(old(heap[..p])) && heap[p..] == old(heap[p..])
  {
    hide TotalPreorder;
    var i := idx;
    while true
      invariant i < p && Sifting(compare, heap[..p], idx, i)
      invariant multiset(heap[..p]) == multiset(old(heap[..p])) && heap[p..] == old(heap[p..])
      decreases p - i
    {
      if 2 * i + 1 >= p {
        SiftDone(compare, heap[..p], idx, i);
        return;
      }
      var smallest := Smallest(heap, p, i, compare);
      if smallest == i {
        SiftDone(compare, heap[..p], idx, i);
        return;
      }
      ghost var h := heap[..p];
      SiftStep(compare, h, idx, i, smallest);
      SwapKeeps(h, i, smallest);
      heap[i], heap[smallest] := heap[smallest], heap[i];
      assert heap[..p] == Swapped(h, i, smallest);
      i := smallest;
    }
  }
}
