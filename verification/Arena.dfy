/**
 The arena (cbase/arena.c): a chain of memory nodes with one position each. Live objects never overlap, and a
 node's memory is used again only when none of its objects is live. The address a new node gets from the
 system is a parameter.
 */
module Arena {
  import opened Powers
  import opened Results

  /** What the processor asks for: 32 bytes with AVX, 16 with SSE, 8 otherwise. */
  type Alignment = n: nat | n == 8 || n == 16 || n == 32 witness 16

  const ALIGNMENT: Alignment

  /** ALIGN: up to the next multiple. */
  function Align(size: nat): (n: nat)
    ensures size <= n < size + ALIGNMENT && n % ALIGNMENT == 0
  {
    var m := size + (ALIGNMENT - 1);
    m - m % ALIGNMENT
  }

  class ArenaNode {
    const begin: nat
    const dataSize: nat
    const data: array<char>         // the memory from `begin` on
    var pos: nat
    var npushed: int
    var next: ArenaNode?
    ghost var objects: map<nat, nat> // the live objects: address and size

    /** arena_create, at the address the system mapped. */
    constructor (mapped: nat, dataSize: nat)
      requires mapped % ALIGNMENT == 0
      ensures begin == mapped == pos && this.dataSize == dataSize && next == null && objects == map[] && fresh(data)
      ensures NodeOk(this)
    {
      begin := mapped;
      this.dataSize := dataSize;
      data := new char[dataSize](_ => '\0');
      pos := mapped;
      npushed := 0;
      next := null;
      objects := map[];
    }
  }

  // ---- one node ------------------------------------------------------------------------------

  ghost predicate Apart(a: nat, m: nat, b: nat, n: nat) { a + m <= b || b + n <= a }

  /** The live objects lie between `begin` and `pos`, none touches another, and all are aligned. */
  ghost predicate ObjectsOk(objects: map<nat, nat>, begin: nat, pos: nat) {
    && (forall a :: a in objects ==> Inside(a, objects[a], begin, pos))
    && (forall a, b :: a in objects && b in objects && a != b ==> Apart(a, objects[a], b, objects[b]))
  }

  ghost predicate Inside(a: nat, size: nat, begin: nat, pos: nat) {
    begin <= a && size > 0 && a + size <= pos && a % ALIGNMENT == 0
  }

  ghost predicate NodeOk(node: ArenaNode)
    reads node`pos, node`npushed, node`objects
  {
    && node.data.Length == node.dataSize && node.begin % ALIGNMENT == 0 && node.pos % ALIGNMENT == 0
    && node.begin <= node.pos <= node.begin + node.dataSize
    && ObjectsOk(node.objects, node.begin, node.pos)
    && node.npushed == |node.objects| && (node.npushed == 0 ==> node.pos == node.begin)
  }

  function With(m: map<nat, nat>, address: nat, size: nat): map<nat, nat> { m[address := size] }

  function Without(m: map<nat, nat>, address: nat): map<nat, nat> { m - {address} }

  lemma PushOk(objects: map<nat, nat>, begin: nat, pos: nat, size: nat)
    requires ObjectsOk(objects, begin, pos) && begin <= pos && pos % ALIGNMENT == 0 && size > 0
    ensures pos !in objects && |With(objects, pos, size)| == |objects| + 1
    ensures ObjectsOk(With(objects, pos, size), begin, pos + size)
  {
  }

  lemma DropOk(objects: map<nat, nat>, begin: nat, pos: nat, address: nat)
    requires ObjectsOk(objects, begin, pos) && address in objects
    ensures |Without(objects, address)| == |objects| - 1
    ensures ObjectsOk(Without(objects, address), begin, pos)
    ensures |Without(objects, address)| == 0 ==>
      Without(objects, address) == map[] && ObjectsOk(Without(objects, address), begin, begin)
  {
    var rest := objects - {address};
    assert objects == rest[address := objects[address]];
    if |rest| == 0 { assert rest == map[]; }
  }

  /** Only the last object reaches up to `pos`, so it can give back its end. */
  lemma ShrinkOk(objects: map<nat, nat>, begin: nat, pos: nat, address: nat, size: nat)
    requires ObjectsOk(objects, begin, pos) && address in objects && address + objects[address] == pos && size < objects[address]
    ensures ObjectsOk(With(objects, address, objects[address] - size), begin, pos - size)
    ensures |With(objects, address, objects[address] - size)| == |objects|
  {
    var left := objects[address] - size;
    var after := objects[address := left];
    SameKeys(objects, address, left);
    forall a | a in after ensures Inside(a, after[a], begin, pos - size) { ShrinkInside(objects, begin, pos, address, size, a); }
    forall a, b | a in after && b in after && a != b ensures Apart(a, after[a], b, after[b]) {
      ShrinkApart(objects, address, left, a, b);
    }
  }

  lemma ShrinkInside(objects: map<nat, nat>, begin: nat, pos: nat, address: nat, size: nat, a: nat)
    requires ObjectsOk(objects, begin, pos) && address in objects && address + objects[address] == pos && size < objects[address]
    requires a in objects
    ensures Inside(a, objects[address := objects[address] - size][a], begin, pos - size)
  {
    assert Inside(a, objects[a], begin, pos);
    if a != address { assert Apart(a, objects[a], address, objects[address]); }
  }

  lemma ShrinkApart(objects: map<nat, nat>, address: nat, left: nat, a: nat, b: nat)
    requires a in objects && b in objects && address in objects && left <= objects[address]
    requires Apart(a, objects[a], b, objects[b])
    ensures var after := objects[address := left]; Apart(a, after[a], b, after[b])
  {
  }

  lemma SameKeys(objects: map<nat, nat>, address: nat, size: nat)
    requires address in objects
    ensures objects[address := size].Keys == objects.Keys && |objects[address := size]| == |objects|
  {
    assert objects[address := size].Keys == objects.Keys;
  }

  // ---- the chain ---------------------------------------------------------------------------------

  /** The memory of two nodes does not overlap. */
  ghost predicate NodesApart(m: ArenaNode, n: ArenaNode) {
    m != n && m.data != n.data && Apart(m.begin, m.dataSize, n.begin, n.dataSize)
  }

  ghost predicate LinkedTo(chain: seq<ArenaNode>, i: nat)
    requires i < |chain|
    reads chain`next
  {
    chain[i].next == if i + 1 < |chain| then chain[i + 1] else null
  }

  ghost predicate Links(chain: seq<ArenaNode>)
    reads chain`next
  {
    chain != [] && forall i: nat :: i < |chain| ==> LinkedTo(chain, i)
  }

  ghost predicate AllOk(chain: seq<ArenaNode>)
    reads chain`pos, chain`npushed, chain`objects
  {
    forall i: nat :: i < |chain| ==> NodeOk(chain[i])
  }

  /** The nodes are as large as the first and overlap nowhere. */
  ghost predicate AllApart(chain: seq<ArenaNode>) {
    && (forall i: nat :: i < |chain| ==> chain[i].dataSize == chain[0].dataSize)
    && (forall i: nat, j: nat :: i < j < |chain| ==> NodesApart(chain[i], chain[j]))
  }

  /** The nodes of an arena in order. */
  ghost predicate IsChain(chain: seq<ArenaNode>)
    reads chain
  {
    Links(chain) && AllOk(chain) && AllApart(chain)
  }

  /** A mapping from the system overlaps no node. */
  ghost predicate Unmapped(chain: seq<ArenaNode>, mapped: nat, size: nat) {
    mapped % ALIGNMENT == 0 && forall i: nat :: i < |chain| ==> Apart(chain[i].begin, chain[i].dataSize, mapped, size)
  }

  ghost predicate HasRoom(node: ArenaNode, size: nat)
    reads node`pos
  {
    node.pos + size <= node.begin + node.dataSize
  }

  /** Two live objects of an arena, in one node or in two, have no byte in common. */
  lemma LiveObjectsApart(chain: seq<ArenaNode>, i: nat, a: nat, j: nat, b: nat)
    requires IsChain(chain) && i < |chain| && j < |chain| && a in chain[i].objects && b in chain[j].objects
    requires i != j || a != b
    ensures Apart(a, chain[i].objects[a], b, chain[j].objects[b])
    ensures a != b
  {
    assert NodeOk(chain[i]) && NodeOk(chain[j]);
    if i < j { assert NodesApart(chain[i], chain[j]); } else if j < i { assert NodesApart(chain[j], chain[i]); }
  }

  lemma AllApartGrows(chain: seq<ArenaNode>, node: ArenaNode)
    requires AllApart(chain) && chain != [] && node.dataSize == chain[0].dataSize
    requires forall i: nat :: i < |chain| ==> NodesApart(chain[i], node)
    ensures AllApart(chain + [node])
  {
    hide NodesApart;
  }

  lemma AllOkGrows(chain: seq<ArenaNode>, node: ArenaNode)
    requires AllOk(chain) && NodeOk(node)
    ensures AllOk(chain + [node])
  {
    hide NodeOk;
  }

  /** The last node now links to the new one. */
  lemma LinksGrow(chain: seq<ArenaNode>, node: ArenaNode)
    requires chain != [] && node.next == null && chain[|chain| - 1].next == node
    requires forall i: nat :: i + 1 < |chain| ==> LinkedTo(chain, i)
    ensures Links(chain + [node])
  {
    var longer := chain + [node];
    forall i: nat | i < |longer| ensures LinkedTo(longer, i) {
      if i + 1 < |chain| { assert LinkedTo(chain, i); }
    }
  }

  /** The step of arena_with_space that adds a node behind the last one. */
  method Extend(last: ArenaNode, mapped: nat, ghost chain: seq<ArenaNode>) returns (node: ArenaNode)
    requires IsChain(chain) && last == chain[|chain| - 1] && Unmapped(chain, mapped, last.dataSize)
    modifies last`next
    ensures IsChain(chain + [node]) && fresh(node) && fresh(node.data) && node.objects == map[]
    ensures node.pos == node.begin == mapped && node.dataSize == last.dataSize
  {
    hide NodeOk;
    node := new ArenaNode(mapped, last.dataSize);
    forall i: nat | i < |chain| ensures NodesApart(chain[i], node) { }
    AllApartGrows(chain, node);
    AllOkGrows(chain, node);
    forall i: nat | i + 1 < |chain| ensures LinkedTo(chain, i) && chain[i] != last {
      assert NodesApart(chain[i], chain[|chain| - 1]);
    }
    last.next := node;
    LinksGrow(chain, node);
  }

  // ---- all live objects of an arena ----------------------------------------------------------

  ghost function ObjectMaps(chain: seq<ArenaNode>): (maps: seq<map<nat, nat>>)
    ensures |maps| == |chain| && forall i: nat :: i < |chain| ==> maps[i] == chain[i].objects
    reads chain`objects
  {
    if chain == [] then [] else ObjectMaps(chain[..|chain| - 1]) + [chain[|chain| - 1].objects]
  }

  ghost function Union(maps: seq<map<nat, nat>>): map<nat, nat> {
    if maps == [] then map[] else Union(maps[..|maps| - 1]) + maps[|maps| - 1]
  }

  /** The live objects of the whole arena: address and size. */
  ghost function Objects(chain: seq<ArenaNode>): map<nat, nat>
    reads chain`objects
  {
    Union(ObjectMaps(chain))
  }

  ghost predicate OnlyIn(maps: seq<map<nat, nat>>, i: nat, address: nat) {
    forall j: nat :: j < |maps| && j != i ==> address !in maps[j]
  }

  lemma {:induction false} UnionSet(maps: seq<map<nat, nat>>, i: nat, address: nat, size: nat)
    requires i < |maps| && OnlyIn(maps, i, address)
    ensures Union(maps[i := With(maps[i], address, size)]) == With(Union(maps), address, size)
  {
    var n := |maps| - 1;
    var after := maps[i := With(maps[i], address, size)];
    if i < n {
      UnionSet(maps[..n], i, address, size);
      assert after[..n] == maps[..n][i := maps[i][address := size]];
      assert address !in maps[n];
    } else {
      assert after[..n] == maps[..n];
    }
  }

  lemma {:induction false} UnionDrop(maps: seq<map<nat, nat>>, i: nat, address: nat)
    requires i < |maps| && OnlyIn(maps, i, address)
    ensures Union(maps[i := Without(maps[i], address)]) == Without(Union(maps), address)
  {
    hide Without;
    var n := |maps| - 1;
    var after := maps[i := Without(maps[i], address)];
    if i < n {
      UnionDrop(maps[..n], i, address);
      assert after[..n] == maps[..n][i := Without(maps[i], address)];
      WithoutInFirst(Union(maps[..n]), maps[n], address);
    } else {
      NotInUnion(maps[..n], address);
      assert after[..n] == maps[..n];
      WithoutInSecond(Union(maps[..n]), maps[n], address);
    }
  }

  lemma WithoutInFirst(m: map<nat, nat>, n: map<nat, nat>, address: nat)
    requires address !in n
    ensures Without(m, address) + n == Without(m + n, address)
  {
  }

  lemma WithoutInSecond(m: map<nat, nat>, n: map<nat, nat>, address: nat)
    requires address !in m
    ensures m + Without(n, address) == Without(m + n, address)
  {
  }

  lemma {:induction false} NotInUnion(maps: seq<map<nat, nat>>, address: nat)
    ensures address in Union(maps) <==> exists j: nat :: j < |maps| && address in maps[j]
  {
    if maps != [] { NotInUnion(maps[..|maps| - 1], address); }
  }

  lemma {:induction false} UnionAt(maps: seq<map<nat, nat>>, i: nat, address: nat)
    requires i < |maps| && address in maps[i] && OnlyIn(maps, i, address)
    ensures address in Union(maps) && Union(maps)[address] == maps[i][address]
  {
    var n := |maps| - 1;
    if i < n {
      UnionAt(maps[..n], i, address);
      assert address !in maps[n];
    }
  }

  lemma {:induction false} UnionOfNone(maps: seq<map<nat, nat>>)
    requires forall i: nat :: i < |maps| ==> maps[i] == map[]
    ensures Union(maps) == map[]
  {
    if maps != [] { UnionOfNone(maps[..|maps| - 1]); }
  }

  lemma ObjectsOfOne(node: ArenaNode)
    ensures Objects([node]) == node.objects
  {
    var maps := ObjectMaps([node]);
    assert maps == [node.objects] && maps[..0] == [];
    assert Union(maps[..0]) == map[];
    assert map[] + node.objects == node.objects;
  }

  lemma ChainOfOne(node: ArenaNode)
    requires NodeOk(node) && node.next == null
    ensures IsChain([node])
  {
  }

  /** A node without objects adds nothing. */
  lemma EmptyAdds(chain: seq<ArenaNode>, node: ArenaNode)
    requires node.objects == map[]
    ensures Objects(chain + [node]) == Objects(chain)
  {
    assert (chain + [node])[..|chain|] == chain;
    assert ObjectMaps(chain + [node]) == ObjectMaps(chain) + [map[]];
    assert (ObjectMaps(chain) + [map[]])[..|chain|] == ObjectMaps(chain);
  }

  /** The walk of arena_with_space: the first node with room, or the last node if none has. */
  method Walk(arena: ArenaNode, size: nat, ghost chain: seq<ArenaNode>) returns (found: bool, node: ArenaNode)
    requires IsChain(chain) && arena == chain[0]
    ensures found ==> node in chain && HasRoom(node, size)
    ensures !found ==> node == chain[|chain| - 1] && forall i: nat :: i < |chain| ==> !HasRoom(chain[i], size)
  {
    hide NodeOk;
    hide AllApart;
    node := arena;
    ghost var k: nat := 0;
    while node.pos + size > node.begin + node.dataSize
      invariant k < |chain| && node == chain[k]
      invariant forall i: nat :: i < k ==> !HasRoom(chain[i], size)
      decreases |chain| - k
    {
      assert LinkedTo(chain, k);
      if node.next == null { return false, node; }
      node := node.next;
      k := k + 1;
    }
    return true, node;
  }

  /**
   arena_with_space: the first node if it is empty, else the first one with room, else one new node at the
   end of the chain.
   */
  method WithSpace(arena: ArenaNode, size: nat, mapped: nat, ghost chain: seq<ArenaNode>)
    returns (node: ArenaNode?, ghost chain': seq<ArenaNode>)
    requires IsChain(chain) && arena == chain[0] && Unmapped(chain, mapped, arena.dataSize)
    modifies chain`next
    ensures node == null <==> size > arena.dataSize
    ensures IsChain(chain') && chain <= chain' && |chain'| <= |chain| + 1
    ensures Objects(chain') == old(Objects(chain))
    ensures node != null ==> node in chain' && HasRoom(node, size)
    ensures |chain'| > |chain| ==>
      && fresh(chain'[|chain|]) && fresh(chain'[|chain|].data) && node == chain'[|chain|] && node.objects == map[]
      && node.begin == mapped && node.dataSize == arena.dataSize
      && forall i: nat :: i < |chain| ==> !HasRoom(chain[i], size)
  {
    hide NodeOk;
    hide AllApart;
    chain' := chain;
    if size > arena.dataSize { return null, chain; }
    EmptyHasRoom(chain, 0, size);
    if arena.npushed == 0 { return arena, chain; }
    var found;
    found, node := Walk(arena, size, chain);
    if !found {
      EmptyHasRoom(chain, |chain| - 1, size);
      var added := Extend(node, mapped, chain);
      EmptyAdds(chain, added);
      node := added;
      chain' := chain + [added];
    }
  }

  /** A node with nothing pushed has all its memory free. */
  lemma EmptyHasRoom(chain: seq<ArenaNode>, i: nat, size: nat)
    requires IsChain(chain) && i < |chain| && size <= chain[0].dataSize
    ensures chain[i].npushed == 0 ==> HasRoom(chain[i], size)
    ensures chain[i].dataSize == chain[0].dataSize
  {
    assert NodeOk(chain[i]);
  }

  ghost predicate Within(node: ArenaNode, address: nat) {
    node.begin <= address < node.begin + node.dataSize
  }

  /** An address in one node's memory is no object of another. */
  lemma OnlyInOwner(chain: seq<ArenaNode>, i: nat, address: nat)
    requires IsChain(chain) && i < |chain| && Within(chain[i], address)
    ensures OnlyIn(ObjectMaps(chain), i, address)
  {
    forall j: nat | j < |chain| && j != i ensures address !in chain[j].objects {
      ObjectInside(chain, j, address);
      if i < j { assert NodesApart(chain[i], chain[j]); } else { assert NodesApart(chain[j], chain[i]); }
    }
  }

  lemma ObjectInside(chain: seq<ArenaNode>, j: nat, address: nat)
    requires IsChain(chain) && j < |chain|
    ensures address in chain[j].objects ==>
      Within(chain[j], address) && address + chain[j].objects[address] <= chain[j].begin + chain[j].dataSize
      && chain[j].objects[address] > 0
  {
    assert NodeOk(chain[j]);
    if address in chain[j].objects { assert Inside(address, chain[j].objects[address], chain[j].begin, chain[j].pos); }
  }

  // ---- pushing, giving back, releasing ------------------------------------------------------------

  /** The place behind the last object of a node is free, in the node and in the whole arena. */
  lemma FreeInNode(node: ArenaNode, size: nat)
    requires NodeOk(node) && HasRoom(node, size) && size > 0 && size % ALIGNMENT == 0
    ensures Within(node, node.pos) && node.pos !in node.objects && (node.pos + size) % ALIGNMENT == 0
    ensures node.npushed + 1 == |With(node.objects, node.pos, size)|
    ensures ObjectsOk(With(node.objects, node.pos, size), node.begin, node.pos + size)
  {
    PushOk(node.objects, node.begin, node.pos, size);
    SumAligned(node.pos, size);
  }

  lemma FreeInArena(chain: seq<ArenaNode>, i: nat, size: nat)
    requires IsChain(chain) && i < |chain| && Within(chain[i], chain[i].pos) && chain[i].pos !in chain[i].objects
    ensures chain[i].pos !in Objects(chain)
    ensures Union(ObjectMaps(chain)[i := With(chain[i].objects, chain[i].pos, size)]) == With(Objects(chain), chain[i].pos, size)
  {
    hide Union;
    hide IsChain;
    var maps, pos := ObjectMaps(chain), chain[i].pos;
    OnlyInOwner(chain, i, pos);
    NotInUnion(maps, pos);
    UnionSet(maps, i, pos, size);
  }

  /** The effect of a push on its node. */
  method Take(node: ArenaNode, size: nat, ghost chain: seq<ArenaNode>, ghost i: nat) returns (before: nat)
    requires IsChain(chain) && i < |chain| && node == chain[i] && HasRoom(node, size) && size > 0 && size % ALIGNMENT == 0
    modifies node`pos, node`npushed, node`objects
    ensures IsChain(chain) && before == old(node.pos) && node.pos == before + size
    ensures node.objects == With(old(node.objects), before, size) && Within(node, before)
    ensures before !in old(Objects(chain)) && Objects(chain) == With(old(Objects(chain)), before, size)
  {
    hide ObjectsOk;
    hide With;
    hide Links;
    hide AllApart;
    hide OnlyIn;
    hide Union;
    AllDistinct(chain, i);
    assert NodeOk(node);
    FreeInNode(node, size);
    FreeInArena(chain, i, size);
    ghost var maps := ObjectMaps(chain);
    assert NodeOk(node);
    before := node.pos;
    node.pos := node.pos + size;
    node.npushed := node.npushed + 1;
    node.objects := With(node.objects, before, size);
    assert ObjectMaps(chain) == maps[i := With(maps[i], before, size)];
  }

  lemma AllDistinct(chain: seq<ArenaNode>, i: nat)
    requires IsChain(chain) && i < |chain|
    ensures forall j: nat :: j < |chain| && j != i ==> chain[j] != chain[i] && chain[j].data != chain[i].data && NodeOk(chain[j])
  {
    forall j: nat | j < |chain| && j != i ensures chain[j] != chain[i] && chain[j].data != chain[i].data && NodeOk(chain[j]) {
      if i < j { assert NodesApart(chain[i], chain[j]); } else { assert NodesApart(chain[j], chain[i]); }
    }
  }

  lemma SumAligned(m: nat, n: nat)
    requires m % ALIGNMENT == 0 && n % ALIGNMENT == 0
    ensures (m + n) % ALIGNMENT == 0
  {
  }

  lemma InObjects(chain: seq<ArenaNode>)
    ensures forall j: nat, a: nat :: j < |chain| && a in chain[j].objects ==> a in Objects(chain)
  {
    forall j: nat, a: nat | j < |chain| && a in chain[j].objects ensures a in Objects(chain) {
      assert a in ObjectMaps(chain)[j];
      NotInUnion(ObjectMaps(chain), a);
    }
  }

  /** Every object of the first map is one of the second. */
  ghost predicate Grown(before: map<nat, nat>, after: map<nat, nat>) {
    forall a :: a in before ==> a in after && after[a] == before[a]
  }

  /** arena_push: nothing when the object can never fit, and at most one new node. */
  method Push(arena: ArenaNode, size: nat, mapped: nat, ghost chain: seq<ArenaNode>)
    returns (address: Option<nat>, node: ArenaNode?, ghost chain': seq<ArenaNode>, ghost i: nat)
    requires IsChain(chain) && arena == chain[0] && Unmapped(chain, mapped, arena.dataSize) && size > 0
    modifies chain
    ensures address.None? <==> Align(size) > arena.dataSize
    ensures IsChain(chain') && chain <= chain' && |chain'| <= |chain| + 1
    ensures |chain'| > |chain| ==>
      fresh(chain'[|chain|]) && fresh(chain'[|chain|].data) && chain'[|chain|].begin == mapped && chain'[|chain|].dataSize == arena.dataSize
    ensures address.None? ==> chain' == chain && Objects(chain') == old(Objects(chain))
    ensures forall j: nat :: j < |chain| ==> Grown(old(chain[j].objects), chain[j].objects)
    ensures address.Some? ==>
      && i < |chain'| && node == chain'[i] && Within(node, address.value) && address.value + Align(size) == node.pos
      && address.value !in old(Objects(chain))
      && Objects(chain') == With(old(Objects(chain)), address.value, Align(size))
      && address.value in node.objects && node.objects[address.value] == Align(size)
  {
    hide IsChain;
    hide Objects;
    var aligned := Align(size);
    InObjects(chain);
    node, chain' := WithSpace(arena, aligned, mapped, chain);
    assert forall j: nat :: j < |chain| ==> chain[j].objects == old(chain[j].objects);
    i := 0;
    if node == null { return None, null, chain', 0; }
    i :| i < |chain'| && chain'[i] == node;
    var before := Take(node, aligned, chain', i);
    return Some(before), node, chain', i;
  }

  /** arena_of: the node whose memory the address lies in. */
  method ArenaOf(arena: ArenaNode, p: nat, ghost chain: seq<ArenaNode>) returns (node: ArenaNode?, ghost k: nat)
    requires IsChain(chain) && arena == chain[0]
    ensures node != null ==> k < |chain| && node == chain[k] && Within(node, p)
    ensures node == null ==> forall i: nat :: i < |chain| ==> !Within(chain[i], p)
  {
    hide NodeOk;
    hide AllApart;
    var current := arena;
    k := 0;
    while true
      invariant k < |chain| && current == chain[k]
      invariant forall i: nat :: i < k ==> !Within(chain[i], p)
      decreases |chain| - k
    {
      if current.begin <= p && p < current.begin + current.dataSize { return current, k; }
      assert LinkedTo(chain, k);
      if current.next == null { return null, k; }
      current := current.next;
      k := k + 1;
    }
  }

  /** A live object lies in the node that lists it. */
  lemma LiveWithin(chain: seq<ArenaNode>, p: nat) returns (j: nat)
    requires IsChain(chain) && p in Objects(chain)
    ensures j < |chain| && p in chain[j].objects && Within(chain[j], p) && chain[j].objects[p] == Objects(chain)[p]
  {
    NotInUnion(ObjectMaps(chain), p);
    j :| j < |chain| && p in ObjectMaps(chain)[j];
    ObjectInside(chain, j, p);
    OnlyInOwner(chain, j, p);
    UnionAt(ObjectMaps(chain), j, p);
  }

  /** No address is in two nodes. */
  lemma OneOwner(chain: seq<ArenaNode>, i: nat, j: nat, p: nat)
    requires IsChain(chain) && i < |chain| && j < |chain| && Within(chain[i], p) && Within(chain[j], p)
    ensures i == j
  {
    NodesDisjoint(chain, i, j);
  }

  lemma NodesDisjoint(chain: seq<ArenaNode>, i: nat, j: nat)
    requires IsChain(chain) && i < |chain| && j < |chain|
    ensures i != j ==> Apart(chain[i].begin, chain[i].dataSize, chain[j].begin, chain[j].dataSize)
  {
    if i < j { assert NodesApart(chain[i], chain[j]); } else if j < i { assert NodesApart(chain[j], chain[i]); }
  }

  /** A node without the object is in order, and from its beginning if that was the last one. */
  lemma ReleasedOk(node: ArenaNode, p: nat)
    requires NodeOk(node) && p in node.objects
    ensures node.npushed - 1 == |Without(node.objects, p)| && (node.npushed <= 1 <==> Without(node.objects, p) == map[])
    ensures ObjectsOk(Without(node.objects, p), node.begin, if node.npushed <= 1 then node.begin else node.pos)
  {
    DropOk(node.objects, node.begin, node.pos, p);
  }

  /** One node of a chain in order has changed, but is in order too. */
  lemma StillChain(chain: seq<ArenaNode>, i: nat)
    requires i < |chain| && Links(chain) && AllApart(chain) && NodeOk(chain[i])
    requires forall j: nat :: j < |chain| && j != i ==> NodeOk(chain[j])
    ensures IsChain(chain)
  {
    hide NodeOk;
    hide Links;
    hide AllApart;
  }

  /** The effect of arena_decr on the node of an address. Only for a live object is the node in order afterwards. */
  method CountDown(node: ArenaNode, p: nat, ghost chain: seq<ArenaNode>, ghost i: nat)
    requires IsChain(chain) && i < |chain| && node == chain[i] && Within(node, p)
    modifies node`pos, node`npushed, node`objects
    ensures node.npushed == old(node.npushed) - 1
    ensures node.pos == if old(node.npushed) <= 1 then node.begin else old(node.pos)
    ensures node.objects == Without(old(node.objects), p) && Objects(chain) == Without(old(Objects(chain)), p)
    ensures IsChain(chain) <==> p in old(node.objects)
  {
    hide ObjectsOk;
    hide Without;
    hide Links;
    hide AllApart;
    hide OnlyIn;
    hide Union;
    hide Within;
    AllDistinct(chain, i);
    assert NodeOk(node);
    OnlyInOwner(chain, i, p);
    ghost var maps, live := ObjectMaps(chain), p in node.objects;
    UnionDrop(maps, i, p);
    if live { ReleasedOk(node, p); } else { NothingToDrop(node.objects, p); }
    node.npushed := node.npushed - 1;
    if node.npushed <= 0 {
      node.pos := node.begin;
    }
    node.objects := Without(node.objects, p);
    SameMaps(ObjectMaps(chain), maps[i := Without(maps[i], p)]);
    if live {
      StillChain(chain, i);
    } else {
      assert !NodeOk(chain[i]);
    }
  }

  lemma SameMaps(m: seq<map<nat, nat>>, n: seq<map<nat, nat>>)
    requires |m| == |n| && forall i: nat :: i < |m| ==> m[i] == n[i]
    ensures m == n
  {
  }

  lemma NothingToDrop(objects: map<nat, nat>, p: nat)
    requires p !in objects
    ensures Without(objects, p) == objects
  {
  }

  /** The address is in the memory of one of the nodes. */
  ghost predicate InArena(chain: seq<ArenaNode>, p: nat) {
    exists i: nat :: i < |chain| && Within(chain[i], p)
  }

  /**
   arena_decr: counts down for any address in a node's memory. The live objects are what they were, without
   this one, and the arena is in order afterwards exactly if the address was one or lies in no node.
   */
  method Decr(arena: ArenaNode, p: nat, ghost chain: seq<ArenaNode>) returns (found: bool)
    requires IsChain(chain) && arena == chain[0]
    modifies chain`pos, chain`npushed, chain`objects
    ensures found <==> InArena(chain, p)
    ensures IsChain(chain) <==> !found || p in old(Objects(chain))
    ensures Objects(chain) == Without(old(Objects(chain)), p)
    ensures forall i: nat :: i < |chain| ==> chain[i].objects == Without(old(chain[i].objects), p)
    ensures forall i: nat :: i < |chain| && Within(chain[i], p) ==>
      && chain[i].npushed == old(chain[i].npushed) - 1
      && chain[i].pos == if old(chain[i].npushed) <= 1 then chain[i].begin else old(chain[i].pos)
    ensures forall i: nat :: i < |chain| && !Within(chain[i], p) ==> unchanged(chain[i])
  {
    hide IsChain;
    hide Objects;
    hide Within;
    hide Without;
    NotElsewhere(chain, p);
    var node, k := ArenaOf(arena, p, chain);
    if node == null {
      NothingToDrop(Objects(chain), p);
      return false;
    }
    forall i: nat | i < |chain| && i != k ensures chain[i] != node && !Within(chain[i], p) { OneNode(chain, i, k, p); }
    CountDown(node, p, chain, k);
    return true;
  }

  /** Where an address is no live object. */
  lemma NotElsewhere(chain: seq<ArenaNode>, p: nat)
    requires IsChain(chain)
    ensures p in Objects(chain) <==> exists j: nat :: j < |chain| && p in chain[j].objects
    ensures forall j: nat :: j < |chain| && !Within(chain[j], p) ==> p !in chain[j].objects && Without(chain[j].objects, p) == chain[j].objects
    ensures forall j: nat :: j < |chain| && p in chain[j].objects ==> p in Objects(chain)
    ensures p in Objects(chain) ==> InArena(chain, p)
    ensures forall j: nat :: j < |chain| && Within(chain[j], p) && p in Objects(chain) ==> p in chain[j].objects
  {
    hide IsChain;
    hide Within;
    InObjects(chain);
    forall j: nat | j < |chain| && !Within(chain[j], p) ensures p !in chain[j].objects && Without(chain[j].objects, p) == chain[j].objects {
      ObjectInside(chain, j, p);
      NothingToDrop(chain[j].objects, p);
    }
    if p in Objects(chain) {
      var i := LiveWithin(chain, p);
      forall j: nat | j < |chain| && Within(chain[j], p) ensures j == i { OneOwner(chain, i, j, p); }
    }
  }

  lemma OneNode(chain: seq<ArenaNode>, i: nat, j: nat, p: nat)
    requires IsChain(chain) && i < |chain| && j < |chain| && i != j && Within(chain[j], p)
    ensures chain[i] != chain[j] && !Within(chain[i], p)
  {
    NodesDisjoint(chain, i, j);
    AllDistinct(chain, j);
  }

  /** The object that ends where the next one would begin, when it is larger than what is given back. */
  ghost predicate Shrinks(objects: map<nat, nat>, pos: nat, size: nat, p: nat) {
    p in objects && p + objects[p] == pos && size < objects[p]
  }

  /** The last `size` bytes below `pos` belong to no live object. */
  ghost predicate Unused(objects: map<nat, nat>, pos: nat, size: nat) {
    forall a :: a in objects ==> a + objects[a] + size <= pos
  }

  /** What the live objects of a node become when its end moves back. */
  ghost function Shrunk(objects: map<nat, nat>, pos: nat, size: nat): map<nat, nat> {
    if p :| Shrinks(objects, pos, size, p) then With(objects, p, objects[p] - size) else objects
  }

  lemma ShrunkOk(objects: map<nat, nat>, begin: nat, pos: nat, size: nat)
    requires ObjectsOk(objects, begin, pos) && size <= pos - begin
    ensures |Shrunk(objects, pos, size)| == |objects|
    ensures ObjectsOk(Shrunk(objects, pos, size), begin, pos - size)
            <==> Unused(objects, pos, size) || exists p :: Shrinks(objects, pos, size, p)
  {
    hide ObjectsOk;
    hide With;
    UnusedOk(objects, begin, pos, size);
    if exists p :: Shrinks(objects, pos, size, p) {
      var p :| Shrinks(objects, pos, size, p) && Shrunk(objects, pos, size) == With(objects, p, objects[p] - size);
      ShrinkOk(objects, begin, pos, p, size);
    }
  }

  lemma UnusedOk(objects: map<nat, nat>, begin: nat, pos: nat, size: nat)
    requires ObjectsOk(objects, begin, pos) && size <= pos - begin
    ensures ObjectsOk(objects, begin, pos - size) <==> Unused(objects, pos, size)
  {
    if ObjectsOk(objects, begin, pos - size) {
      forall a | a in objects ensures a + objects[a] + size <= pos { assert Inside(a, objects[a], begin, pos - size); }
    }
    if Unused(objects, pos, size) {
      forall a | a in objects ensures Inside(a, objects[a], begin, pos - size) { assert Inside(a, objects[a], begin, pos); }
    }
  }

  /**
   arena_back: moves the end back by any aligned size up to the bytes used. The object that ends there loses its
   last bytes; the arena is in order afterwards exactly if no live object loses more than its end.
   */
  method Back(node: ArenaNode, size: nat, ghost chain: seq<ArenaNode>, ghost i: nat)
    requires IsChain(chain) && i < |chain| && node == chain[i]
    requires size <= node.pos - node.begin && size % ALIGNMENT == 0
    modifies node`pos, node`objects
    ensures node.pos == old(node.pos) - size && node.objects == Shrunk(old(node.objects), old(node.pos), size)
    ensures IsChain(chain) <==>
      Unused(old(node.objects), old(node.pos), size) || exists p :: Shrinks(old(node.objects), old(node.pos), size, p)
    ensures forall p :: Shrinks(old(node.objects), old(node.pos), size, p) ==>
      Objects(chain) == With(old(Objects(chain)), p, old(node.objects[p]) - size)
    ensures (forall p :: !Shrinks(old(node.objects), old(node.pos), size, p)) ==> Objects(chain) == old(Objects(chain))
  {
    hide ObjectsOk;
    hide With;
    hide Links;
    hide AllApart;
    hide OnlyIn;
    hide Union;
    hide Shrunk;
    hide Shrinks;
    hide Unused;
    AllDistinct(chain, i);
    assert NodeOk(node);
    ghost var maps, objects, pos := ObjectMaps(chain), node.objects, node.pos;
    ShrunkOk(objects, node.begin, pos, size);
    DifferenceAligned(pos, size);
    ShrunkInArena(chain, i, size);
    node.pos := node.pos - size;
    node.objects := Shrunk(objects, pos, size);
    assert ObjectMaps(chain) == maps[i := Shrunk(objects, pos, size)];
    EmptyShrinks(objects, node.begin, pos, size);
    assert NodeOk(node) <==> ObjectsOk(node.objects, node.begin, node.pos);
    if NodeOk(node) { StillChain(chain, i); }
  }

  /** A node without objects has nothing to give back. */
  lemma EmptyShrinks(objects: map<nat, nat>, begin: nat, pos: nat, size: nat)
    requires size <= pos - begin && (|objects| == 0 ==> pos == begin)
    ensures |objects| == 0 ==> pos - size == begin
  {
  }

  lemma ShrunkInArena(chain: seq<ArenaNode>, i: nat, size: nat)
    requires IsChain(chain) && i < |chain|
    ensures var node, maps := chain[i], ObjectMaps(chain);
            var after := Union(maps[i := Shrunk(node.objects, node.pos, size)]);
            && (forall p :: Shrinks(node.objects, node.pos, size, p) ==> after == With(Objects(chain), p, node.objects[p] - size))
            && ((forall p :: !Shrinks(node.objects, node.pos, size, p)) ==> after == Objects(chain))
  {
    hide IsChain;
    hide Union;
    hide With;
    var node, maps := chain[i], ObjectMaps(chain);
    forall p | Shrinks(node.objects, node.pos, size, p)
      ensures Union(maps[i := Shrunk(node.objects, node.pos, size)]) == With(Objects(chain), p, node.objects[p] - size)
    {
      var q :| Shrinks(node.objects, node.pos, size, q) && Shrunk(node.objects, node.pos, size) == With(node.objects, q, node.objects[q] - size);
      OneShrinks(chain, i, size, p, q);
      ObjectInside(chain, i, p);
      OnlyInOwner(chain, i, p);
      UnionSet(maps, i, p, node.objects[p] - size);
    }
    if forall p :: !Shrinks(node.objects, node.pos, size, p) { assert maps[i := node.objects] == maps; }
  }

  /** No two objects end in the same place. */
  lemma OneShrinks(chain: seq<ArenaNode>, i: nat, size: nat, p: nat, q: nat)
    requires IsChain(chain) && i < |chain|
    requires Shrinks(chain[i].objects, chain[i].pos, size, p) && Shrinks(chain[i].objects, chain[i].pos, size, q)
    ensures p == q
  {
    assert NodeOk(chain[i]);
    assert Inside(p, chain[i].objects[p], chain[i].begin, chain[i].pos) && Inside(q, chain[i].objects[q], chain[i].begin, chain[i].pos);
  }

  lemma DifferenceAligned(m: nat, n: nat)
    requires m % ALIGNMENT == 0 && n % ALIGNMENT == 0 && n <= m
    ensures (m - n) % ALIGNMENT == 0
  {
  }

  lemma AlignMono(m: nat, n: nat)
    requires m <= n
    ensures Align(m) <= Align(n)
  {
    var a := m + (ALIGNMENT - 1);
    RoundDownMono(a, n + (ALIGNMENT - 1), ALIGNMENT);
  }

  lemma RoundDownMono(a: nat, b: nat, d: nat)
    requires d > 0 && a <= b
    ensures a - a % d <= b - b % d
  {
    DivMod(a, d);
    DivMod(b, d);
    if b / d < a / d { MulMono(b / d + 1, a / d, d); MulDist(d, b / d, 1); }
    MulMono(a / d, b / d, d);
  }

  /**
   What cmd_printf does with the argument it has just pushed with room for the estimate: it gives back what
   the text did not need. The argument keeps its bytes and its terminator, and no other object changes.
   */
  method GiveBack(arena: ArenaNode, argument: nat, estimate: nat, len: nat, ghost chain: seq<ArenaNode>)
    requires IsChain(chain) && arena == chain[0] && len <= estimate
    requires argument in Objects(chain) && Objects(chain)[argument] == Align(estimate + 1)
    requires forall i: nat :: i < |chain| && argument in chain[i].objects ==> argument + Align(estimate + 1) == chain[i].pos
    modifies chain`pos, chain`objects
    ensures IsChain(chain) && Objects(chain) == With(old(Objects(chain)), argument, Align(len + 1))
    ensures len + 1 <= Objects(chain)[argument]
  {
    hide IsChain;
    hide Objects;
    var node, k := ArenaOf(arena, argument, chain);
    ghost var j := LiveWithin(chain, argument);
    OneOwner(chain, j, k, argument);
    AlignMono(len + 1, estimate + 1);
    var waste := Align(estimate + 1) - Align(len + 1);
    DifferenceAligned(Align(estimate + 1), Align(len + 1));
    ObjectInside(chain, k, argument);
    assert Shrinks(node.objects, node.pos, waste, argument);
    Back(node, waste, chain, k);
  }

  /** arena_reset: every node becomes empty. */
  method Reset(arena: ArenaNode, ghost chain: seq<ArenaNode>)
    requires IsChain(chain) && arena == chain[0]
    modifies chain`pos, chain`npushed, chain`objects
    ensures IsChain(chain) && Objects(chain) == map[]
  {
    hide NodesApart;
    var current: ArenaNode? := arena;
    ghost var k: nat := 0;
    while current != null
      invariant k <= |chain| && (if k == |chain| then current == null else current == chain[k])
      invariant IsChain(chain) && forall i: nat :: i < k ==> chain[i].objects == map[]
      decreases |chain| - k
    {
      Empty(current, chain, k);
      assert LinkedTo(chain, k);
      current := current.next;
      k := k + 1;
    }
    UnionOfNone(ObjectMaps(chain));
  }

  method Empty(node: ArenaNode, ghost chain: seq<ArenaNode>, ghost k: nat)
    requires IsChain(chain) && k < |chain| && node == chain[k]
    modifies node`pos, node`npushed, node`objects
    ensures IsChain(chain) && node.objects == map[]
    ensures forall i: nat :: i < |chain| && i != k ==> chain[i].objects == old(chain[i].objects)
  {
    hide NodesApart;
    AllDistinct(chain, k);
    assert NodeOk(node) && Links(chain) && AllApart(chain);
    node.pos := node.begin;
    node.npushed := 0;
    node.objects := map[];
  }
}
