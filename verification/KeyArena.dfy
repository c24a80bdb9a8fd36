/**
 A hash map that duplicates its keys into an arena of its own (HASH_DUPLICATE_KEYS in cbase/hash.c). Every key of
 the map has a live object of the arena to itself, with its bytes and a terminator in it, after any sequence of
 operations. The table's bucket holds the address; the key in it is what the bytes at the address are.
 */
module KeyArena {
  import opened Powers
  import opened Results
  import opened Arena

  // ---- bytes in the arena ---------------------------------------------------------------------

  /** What a node of the arena looks like: the live objects, and the memory from `begin` on. */
  datatype NodeImage = NodeImage(begin: nat, objects: map<nat, nat>, bytes: seq<char>)

  ghost function ImageOf(node: ArenaNode): NodeImage
    reads node`objects, node.data
  {
    NodeImage(node.begin, node.objects, node.data[..])
  }

  ghost function Image(chain: seq<ArenaNode>): (s: seq<NodeImage>)
    reads chain, set n | n in chain :: n.data
    ensures |s| == |chain| && forall i: nat :: i < |chain| ==> s[i] == ImageOf(chain[i])
  {
    if chain == [] then [] else Image(chain[..|chain| - 1]) + [ImageOf(chain[|chain| - 1])]
  }

  /** The object is still there, with its size and all its bytes. */
  ghost predicate ObjectKept(before: NodeImage, after: NodeImage, a: nat)
    requires a in before.objects
  {
    && a in after.objects && after.objects[a] == before.objects[a] && after.begin == before.begin
    && |after.bytes| == |before.bytes|
    && forall k :: 0 <= k < |before.bytes| && a <= before.begin + k < a + before.objects[a] ==> after.bytes[k] == before.bytes[k]
  }

  /** All objects but one are still there, with all their bytes. */
  ghost predicate Kept(before: seq<NodeImage>, after: seq<NodeImage>, except: nat) {
    && |before| <= |after|
    && forall i: nat, a: nat :: i < |before| && a in before[i].objects && a != except ==> ObjectKept(before[i], after[i], a)
  }

  /** Every object is still there. */
  ghost predicate AllKept(before: seq<NodeImage>, after: seq<NodeImage>) {
    && |before| <= |after|
    && forall i: nat, a: nat :: i < |before| && a in before[i].objects ==> ObjectKept(before[i], after[i], a)
  }

  /** A live object is what was pushed for the key, and begins with its bytes and a terminator. */
  ghost predicate HoldsKey(node: NodeImage, address: nat, key: string) {
    && address in node.objects && node.objects[address] == Align(|key| + 1)
    && node.begin <= address && address + |key| + 1 <= node.begin + |node.bytes|
    && BytesAt(node, address, |key| + 1) == key + ['\0']
  }

  ghost function BytesAt(node: NodeImage, address: nat, size: nat): seq<char>
    requires node.begin <= address && address + size <= node.begin + |node.bytes|
  {
    node.bytes[address - node.begin..address - node.begin + size]
  }

  ghost predicate KeyAt(image: seq<NodeImage>, address: nat, key: string) {
    exists i: nat :: i < |image| && HoldsKey(image[i], address, key)
  }

  /** So the probe, which compares lengths and bytes, compares keys. */
  lemma BytesCompare(node: NodeImage, address: nat, key: string, other: string)
    requires HoldsKey(node, address, key)
    ensures |key| == |other| && BytesAt(node, address, |other|) == other <==> key == other
  {
    if |key| == |other| {
      assert BytesAt(node, address, |other|) == BytesAt(node, address, |key| + 1)[..|other|];
      assert (key + ['\0'])[..|key|] == key;
    }
  }

  lemma HeldStays(before: NodeImage, after: NodeImage, address: nat, key: string)
    requires HoldsKey(before, address, key) && ObjectKept(before, after, address)
    ensures HoldsKey(after, address, key)
  {
    var from := address - before.begin;
    var now, was := BytesAt(after, address, |key| + 1), BytesAt(before, address, |key| + 1);
    forall k | 0 <= k < |key| + 1 ensures now[k] == was[k] {
      assert after.bytes[from + k] == before.bytes[from + k];
    }
  }

  /** A key whose object is kept is still there. */
  lemma KeyStays(before: seq<NodeImage>, after: seq<NodeImage>, except: nat, address: nat, key: string)
    requires KeyAt(before, address, key) && Kept(before, after, except) && address != except
    ensures KeyAt(after, address, key)
  {
    var i: nat :| i < |before| && HoldsKey(before[i], address, key);
    HeldStays(before[i], after[i], address, key);
  }

  /** Writing bytes changes no others. */
  method WriteBytes(node: ArenaNode, address: nat, bytes: seq<char>)
    requires node.begin <= address && address + |bytes| <= node.begin + node.data.Length
    modifies node.data
    ensures node.data[address - node.begin..address - node.begin + |bytes|] == bytes
    ensures forall k: nat :: k < node.data.Length && Elsewhere(address, |bytes|, node.begin + k) ==> node.data[k] == old(node.data[k])
  {
    var at := address - node.begin;
    for n := 0 to |bytes|
      invariant node.data[at..at + n] == bytes[..n]
      invariant forall k: nat :: k < node.data.Length && Elsewhere(address, |bytes|, node.begin + k) ==>
        node.data[k] == old(node.data[k])
    {
      node.data[at + n] := bytes[n];
    }
  }

  predicate Elsewhere(address: nat, size: nat, k: nat) { k < address || address + size <= k }

  /** Writing the bytes of one object keeps those of every other object of the arena. */
  method CopyInto(node: ArenaNode, address: nat, key: string, ghost chain: seq<ArenaNode>, ghost i: nat)
    requires IsChain(chain) && i < |chain| && node == chain[i]
    requires address in node.objects && node.objects[address] == Align(|key| + 1)
    modifies node.data
    ensures KeyAt(Image(chain), address, key) && Kept(old(Image(chain)), Image(chain), address)
  {
    hide IsChain;
    ghost var before := Image(chain);
    ObjectInside(chain, i, address);
    InMemory(chain, i);
    WriteBytes(node, address, key + ['\0']);
    assert HoldsKey(ImageOf(node), address, key);
    assert HoldsKey(Image(chain)[i], address, key);
    AllDistinct(chain, i);
    forall j: nat, a: nat | j < |chain| && a in chain[j].objects && a != address ensures ObjectKept(before[j], Image(chain)[j], a) {
      if j == i {
        LiveObjectsApart(chain, j, a, i, address);
        KeptApart(before[j], Image(chain)[j], a, address, |key| + 1);
      }
    }
  }

  lemma InMemory(chain: seq<ArenaNode>, i: nat)
    requires IsChain(chain) && i < |chain|
    ensures chain[i].data.Length == chain[i].dataSize
  {
    assert NodeOk(chain[i]);
  }

  lemma KeptApart(before: NodeImage, after: NodeImage, a: nat, address: nat, size: nat)
    requires a in before.objects && after.objects == before.objects && after.begin == before.begin && |after.bytes| == |before.bytes|
    requires address in before.objects && size <= before.objects[address] && Apart(a, before.objects[a], address, before.objects[address])
    requires forall k: nat :: k < |before.bytes| && Elsewhere(address, size, before.begin + k) ==> after.bytes[k] == before.bytes[k]
    ensures ObjectKept(before, after, a)
  {
  }

  // ---- all keys -----------------------------------------------------------------------------------

  /** What a bucket holds besides the hash: where the bytes of the key are, and the value. */
  datatype Entry<V> = Entry(address: nat, value: V)

  /** The live objects are those of the keys, one for each. */
  ghost predicate OneEach<V>(contents: map<string, Entry<V>>, live: map<nat, nat>) {
    && (forall k :: k in contents ==> contents[k].address in live)
    && (forall k, l :: k in contents && l in contents && k != l ==> contents[k].address != contents[l].address)
    && (forall a :: a in live ==> exists k :: k in contents && contents[k].address == a)
  }

  ghost predicate KeysStored<V>(contents: map<string, Entry<V>>, image: seq<NodeImage>) {
    forall k :: k in contents ==> KeyAt(image, contents[k].address, k)
  }

  lemma OneEachAdds<V>(contents: map<string, Entry<V>>, live: map<nat, nat>, key: string, entry: Entry<V>, size: nat)
    requires OneEach(contents, live) && key !in contents && entry.address !in live
    ensures OneEach(contents[key := entry], With(live, entry.address, size))
  {
    var after := contents[key := entry];
    forall a | a in With(live, entry.address, size) ensures exists k :: k in after && after[k].address == a {
      if a == entry.address {
        assert after[key].address == a;
      } else {
        var k :| k in contents && contents[k].address == a;
        assert after[k].address == a;
      }
    }
  }

  lemma OneEachDrops<V>(contents: map<string, Entry<V>>, live: map<nat, nat>, key: string)
    requires OneEach(contents, live) && key in contents
    ensures OneEach(contents - {key}, Without(live, contents[key].address))
  {
    var after := contents - {key};
    forall a | a in Without(live, contents[key].address) ensures exists k :: k in after && after[k].address == a {
      var k :| k in contents && contents[k].address == a;
      assert after[k].address == a;
    }
  }

  lemma OneEachChanges<V>(contents: map<string, Entry<V>>, live: map<nat, nat>, key: string, value: V)
    requires OneEach(contents, live) && key in contents
    ensures OneEach(contents[key := Entry(contents[key].address, value)], live)
  {
    var after := contents[key := Entry(contents[key].address, value)];
    forall a | a in live ensures exists k :: k in after && after[k].address == a {
      var k :| k in contents && contents[k].address == a;
      assert after[k].address == a;
    }
  }

  lemma StoredAdds<V>(contents: map<string, Entry<V>>, before: seq<NodeImage>, after: seq<NodeImage>, key: string, entry: Entry<V>)
    requires KeysStored(contents, before) && AllKept(before, after) && KeyAt(after, entry.address, key)
    ensures KeysStored(contents[key := entry], after)
  {
    StoredStays(contents, before, after);
  }

  lemma StoredDrops<V>(contents: map<string, Entry<V>>, before: seq<NodeImage>, after: seq<NodeImage>, live: map<nat, nat>, key: string)
    requires KeysStored(contents, before) && OneEach(contents, live) && key in contents
    requires Kept(before, after, contents[key].address)
    ensures KeysStored(contents - {key}, after)
  {
    hide KeyAt;
    hide Kept;
    forall k | k in contents && k != key ensures KeyAt(after, contents[k].address, k) {
      KeyStays(before, after, contents[key].address, contents[k].address, k);
    }
  }

  lemma StoredStays<V>(contents: map<string, Entry<V>>, before: seq<NodeImage>, after: seq<NodeImage>)
    requires KeysStored(contents, before) && AllKept(before, after)
    ensures KeysStored(contents, after)
  {
    hide KeyAt;
    forall k | k in contents ensures KeyAt(after, contents[k].address, k) {
      KeyStays(before, after, contents[k].address + 1, contents[k].address, k);
    }
  }

  lemma StoredChanges<V>(contents: map<string, Entry<V>>, image: seq<NodeImage>, key: string, value: V)
    requires KeysStored(contents, image) && key in contents
    ensures KeysStored(contents[key := Entry(contents[key].address, value)], image)
  {
  }

  /** There are as many live objects as keys. */
  lemma {:induction false} AsManyObjects<V>(contents: map<string, Entry<V>>, live: map<nat, nat>)
    requires OneEach(contents, live)
    ensures |live| == |contents|
    decreases |contents|
  {
    if contents == map[] {
      assert live == map[];
    } else {
      var key :| key in contents;
      var a := contents[key].address;
      OneEachDrops(contents, live, key);
      hide OneEach;
      OneFewer(contents, key);
      OneFewer(live, a);
      AsManyObjects(contents - {key}, Without(live, a));
    }
  }

  lemma OneFewer<K, V>(m: map<K, V>, k: K)
    requires k in m
    ensures |m - {k}| + 1 == |m|
  {
    assert m == (m - {k})[k := m[k]];
  }

  /** The keys and their values. */
  ghost function ValuesOf<V>(contents: map<string, Entry<V>>): map<string, V> {
    map k | k in contents :: contents[k].value
  }

  lemma ValueAdded<V>(contents: map<string, Entry<V>>, key: string, entry: Entry<V>)
    ensures ValuesOf(contents[key := entry]) == ValuesOf(contents)[key := entry.value]
  {
  }

  lemma ValueDropped<V>(contents: map<string, Entry<V>>, key: string)
    ensures ValuesOf(contents - {key}) == ValuesOf(contents) - {key}
    ensures key !in contents ==> ValuesOf(contents) - {key} == ValuesOf(contents)
  {
  }

  /** Where one object has gone and no memory has changed. */
  lemma WithoutKeeps(before: seq<NodeImage>, after: seq<NodeImage>, address: nat)
    requires |before| == |after|
    requires forall i: nat :: i < |before| ==> after[i] == before[i].(objects := Without(before[i].objects, address))
    ensures Kept(before, after, address)
  {
  }

  lemma NothingStored<V>(image: seq<NodeImage>)
    ensures OneEach<V>(map[], map[]) && KeysStored<V>(map[], image) && ValuesOf<V>(map[]) == map[]
  {
  }

  // ---- duplicating a key --------------------------------------------------------------------------

  /** The chain is what it was, or has one more node at the address mapped for it. */
  ghost predicate ChainGrew(chain: seq<ArenaNode>, chain': seq<ArenaNode>, mapped: nat) {
    && chain <= chain'
    && (chain' == chain
        || (chain != [] && |chain'| == |chain| + 1 && chain'[|chain|].begin == mapped && chain'[|chain|].dataSize == chain[0].dataSize))
  }

  /**
   What the hash map does with a key it duplicates: a push and a copy with a terminator. Every other live
   object keeps its bytes, also in a node whose memory is used again.
   */
  method DuplicateKey(arena: ArenaNode, key: string, mapped: nat, ghost chain: seq<ArenaNode>)
    returns (address: Option<nat>, ghost chain': seq<ArenaNode>)
    requires IsChain(chain) && arena == chain[0] && Unmapped(chain, mapped, arena.dataSize)
    modifies chain, set n | n in chain :: n.data
    ensures address.None? <==> Align(|key| + 1) > arena.dataSize
    ensures IsChain(chain') && ChainGrew(chain, chain', mapped)
    ensures |chain'| > |chain| ==> fresh(chain'[|chain|]) && fresh(chain'[|chain|].data)
    ensures address.None? ==> chain' == chain && Objects(chain') == old(Objects(chain))
    ensures address.Some? ==>
      && address.value !in old(Objects(chain))
      && Objects(chain') == With(old(Objects(chain)), address.value, Align(|key| + 1))
      && KeyAt(Image(chain'), address.value, key)
    ensures AllKept(old(Image(chain)), Image(chain'))
  {
    hide IsChain;
    hide Objects;
    hide Unmapped;
    hide Kept;
    hide KeyAt;
    hide Image;
    hide AllKept;
    hide NotIn;
    hide ChainGrew;
    ghost var before := Image(chain);
    ghost var i;
    var owner;
    NotAmong(chain);
    address, owner, chain', i := PushObject(arena, |key| + 1, mapped, chain);
    ghost var pushed := Image(chain');
    if address.Some? {
      CopyInto(owner, address.value, key, chain', i);
      KeptBoth(before, pushed, Image(chain'), address.value);
    }
  }

  lemma FirstNode(chain: seq<ArenaNode>)
    requires IsChain(chain)
    ensures chain != []
  {
  }

  lemma NotAmong(chain: seq<ArenaNode>)
    ensures forall a: nat :: a !in Objects(chain) ==> NotIn(Image(chain), a)
  {
    InObjects(chain);
  }

  ghost predicate NotIn(image: seq<NodeImage>, a: nat) {
    forall i: nat :: i < |image| ==> a !in image[i].objects
  }

  /** A push changes no object. */
  method PushObject(arena: ArenaNode, size: nat, mapped: nat, ghost chain: seq<ArenaNode>)
    returns (address: Option<nat>, node: ArenaNode?, ghost chain': seq<ArenaNode>, ghost i: nat)
    requires IsChain(chain) && arena == chain[0] && Unmapped(chain, mapped, arena.dataSize) && size > 0
    modifies chain
    ensures address.None? <==> Align(size) > arena.dataSize
    ensures IsChain(chain') && ChainGrew(chain, chain', mapped)
    ensures |chain'| > |chain| ==> fresh(chain'[|chain|]) && fresh(chain'[|chain|].data)
    ensures address.None? ==> chain' == chain && Objects(chain') == old(Objects(chain))
    ensures address.Some? ==>
      && i < |chain'| && node == chain'[i] && (node in chain || fresh(node.data)) && address.value !in old(Objects(chain))
      && Objects(chain') == With(old(Objects(chain)), address.value, Align(size))
      && address.value in node.objects && node.objects[address.value] == Align(size)
    ensures AllKept(old(Image(chain)), Image(chain'))
  {
    hide IsChain;
    hide Objects;
    hide ObjectKept;
    hide Unmapped;
    hide Within;
    FirstNode(chain);
    ghost var before := Image(chain);
    address, node, chain', i := Push(arena, size, mapped, chain);
    forall j: nat, b: nat | j < |chain| && b in before[j].objects ensures ObjectKept(before[j], Image(chain')[j], b) {
      assert Grown(old(chain[j].objects), chain[j].objects);
      assert chain'[j] == chain[j];
      SameMemory(before[j], Image(chain')[j], b);
    }
  }

  lemma SameMemory(before: NodeImage, after: NodeImage, a: nat)
    requires a in before.objects && a in after.objects && after.objects[a] == before.objects[a]
    requires after.begin == before.begin && after.bytes == before.bytes
    ensures ObjectKept(before, after, a)
  {
  }

  lemma KeptTwice(before: NodeImage, between: NodeImage, after: NodeImage, a: nat)
    requires a in before.objects && ObjectKept(before, between, a) && ObjectKept(between, after, a)
    ensures ObjectKept(before, after, a)
  {
  }

  /** Everything is kept by a push and by a write to the new object. */
  lemma KeptBoth(before: seq<NodeImage>, between: seq<NodeImage>, after: seq<NodeImage>, address: nat)
    requires AllKept(before, between) && Kept(between, after, address) && NotIn(before, address)
    ensures AllKept(before, after)
  {
    hide ObjectKept;
    forall i: nat, a: nat | i < |before| && a in before[i].objects ensures ObjectKept(before[i], after[i], a) {
      KeptIn(before[i], between[i], a);
      KeptTwice(before[i], between[i], after[i], a);
    }
  }

  lemma KeptIn(before: NodeImage, after: NodeImage, a: nat)
    requires a in before.objects && ObjectKept(before, after, a)
    ensures a in after.objects
  {
  }

}
