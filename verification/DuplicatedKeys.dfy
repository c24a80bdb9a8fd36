/**
 The hash map with duplicated keys (HASH_DUPLICATE_KEYS in cbase/hash.c): the table and the arena its keys are
 in, operation by operation and over whole runs.
 */
module DuplicatedKeys {
  import opened Powers
  import opened Results
  import opened Bits
  import opened Tables
  import HashTable
  import opened Arena
  import opened KeyArena

  /** TableFull and KeyTooLong stand for the fatal errors of hash_resize_ and xarena_push. */
  datatype InsertResult = TableFull | KeyTooLong | Present | Inserted

  class KeyMap<V(0)> {
    const table: HashTable.HashMap<string, Entry<V>>
    const arena: ArenaNode
    ghost var chain: seq<ArenaNode>

    /** hash_init_: an empty table, and an arena at the address the system mapped. */
    constructor (wanted: nat, hashOf: string -> nat, mapped: nat, dataSize: nat)
      requires wanted <= HashTable.MAX_UINT32 && mapped % ALIGNMENT == 0
      ensures Valid() && Values() == map[] && fresh(table) && fresh(table.buckets) && fresh(table.states) && fresh(arena) && fresh(arena.data)
      ensures chain == [arena] && arena.begin == mapped && arena.dataSize == dataSize
    {
      hide HashTable.Sound;
      hide IsChain;
      hide Objects;
      hide Image;
      hide NodeOk;
      hide ObjectsOk;
      table := new HashTable.HashMap<string, Entry<V>>(wanted, hashOf);
      arena := new ArenaNode(mapped, dataSize);
      chain := [arena];
      new;
      ObjectsOfOne(arena);
      NothingStored<V>(Image(chain));
      ChainOfOne(arena);
    }

    ghost predicate Valid()
      reads this, table, table.buckets, table.states, chain, set n | n in chain :: n.data
    {
      && table.Valid() && IsChain(chain) && chain != [] && arena == chain[0] && Separate()
      && OneEach(table.contents, Objects(chain)) && KeysStored(table.contents, Image(chain))
    }

    /** No node's memory is one of the table's arrays. */
    ghost predicate Separate()
      reads this, table
    {
      forall n :: n in chain ==> n.data as object != table.buckets && n.data as object != table.states
    }

    /** The keys and their values. */
    ghost function Values(): map<string, V>
      reads this, table
    {
      ValuesOf(table.contents)
    }

    /** The arena's part: the key gets an object of its own, the table is as it was. */
    method StoreKey(key: string, mapped: nat) returns (address: Option<nat>)
      requires Valid() && Unmapped(chain, mapped, arena.dataSize)
      modifies this`chain, chain, set n | n in chain :: n.data
      ensures table.Valid() && IsChain(chain) && chain != [] && arena == chain[0] && Separate()
      ensures ChainGrew(old(chain), chain, mapped)
      ensures |chain| > |old(chain)| ==> fresh(chain[|old(chain)|]) && fresh(chain[|old(chain)|].data)
      ensures address.Some? <==> Align(|key| + 1) <= arena.dataSize
      ensures address.None? ==> Objects(chain) == old(Objects(chain))
      ensures address.Some? ==> address.value !in old(Objects(chain)) && KeyAt(Image(chain), address.value, key)
      ensures address.Some? ==> Objects(chain) == With(old(Objects(chain)), address.value, Align(|key| + 1))
      ensures AllKept(old(Image(chain)), Image(chain))
    {
      hide IsChain;
      hide Objects;
      hide OneEach;
      hide KeysStored;
      hide Unmapped;
      hide Image;
      hide AllKept;
      hide KeyAt;
      hide With;
      hide HashTable.Sound;
      ghost var longer;
      address, longer := DuplicateKey(arena, key, mapped, chain);
      chain := longer;
    }

    /** The table's part: the arena is as it was. */
    method FillSlot(slot: nat, entry: Bucket<string, Entry<V>>)
      requires table.Valid() && IsChain(chain) && Separate()
      requires entry.key !in table.contents && entry.hash == table.hashOf(entry.key)
      requires HashTable.Available(table.states[..], table.power, entry.hash, slot)
      modifies table`length, table`occupied, table`contents, table.buckets, table.states
      ensures table.Valid() && table.contents == old(table.contents)[entry.key := entry.value] && Separate()
      ensures IsChain(chain) && Objects(chain) == old(Objects(chain)) && Image(chain) == old(Image(chain))
    {
      hide IsChain;
      hide Objects;
      hide Image;
      hide HashTable.Sound;
      hide HashTable.Available;
      table.Fill(slot, entry);
    }

    /** The common end of both writers: the key is duplicated, and the slot takes the entry. */
    method AddEntry(key: string, hash: nat, slot: nat, value: V, mapped: nat) returns (ok: bool)
      requires Valid() && Unmapped(chain, mapped, arena.dataSize)
      requires key !in table.contents && hash == table.hashOf(key) && HashTable.Available(table.states[..], table.power, hash, slot)
      modifies this`chain, table`length, table`occupied, table`contents, table.buckets, table.states, chain, set n | n in chain :: n.data
      ensures Valid() && ChainGrew(old(chain), chain, mapped)
      ensures |chain| > |old(chain)| ==> fresh(chain[|old(chain)|]) && fresh(chain[|old(chain)|].data)
      ensures ok <==> Align(|key| + 1) <= arena.dataSize
      ensures Values() == if ok then old(Values())[key := value] else old(Values())
    {
      hide IsChain;
      hide Objects;
      hide OneEach;
      hide KeysStored;
      hide Unmapped;
      hide Image;
      hide AllKept;
      hide KeyAt;
      hide With;
      hide HashTable.Sound;
      hide HashTable.Available;
      hide ValuesOf;
      ghost var contents, live, image := table.contents, Objects(chain), Image(chain);
      var address := StoreKey(key, mapped);
      if address.None? {
        StoredStays(contents, image, Image(chain));
        return false;
      }
      var entry := Entry(address.value, value);
      FillSlot(slot, Bucket(hash, key, entry));
      OneEachAdds(contents, live, key, entry, Align(|key| + 1));
      StoredAdds(contents, image, Image(chain), key, entry);
      ValueAdded(contents, key, entry);
      return true;
    }

    lemma CapacityBound()
      requires table.Valid()
      ensures table.capacity <= HashTable.MAX_CAPACITY
    {
      HashTable.SoundRoom(table.buckets[..], table.states[..], table.power, table.hashOf, table.contents, table.length, table.occupied);
    }

    /** The check both writers start with. */
    method MakeRoom() returns (ok: bool)
      requires Valid()
      modifies table
      ensures Valid() && table.contents == old(table.contents)
      ensures !ok <==> old(table.capacity) == HashTable.MAX_CAPACITY && old(table.occupied) * 4 >= old(table.capacity) * 3
      ensures ok ==> table.occupied < table.capacity
      ensures table.buckets == old(table.buckets) || fresh(table.buckets)
      ensures table.states == old(table.states) || fresh(table.states)
      ensures !ok ==> table.capacity == old(table.capacity) && table.occupied == old(table.occupied)
    {
      hide IsChain;
      hide Objects;
      hide Image;
      hide OneEach;
      hide KeysStored;
      hide HashTable.Sound;
      CapacityBound();
      ok := table.MakeRoom();
    }

    /** hash_insert_ */
    method Insert(key: string, value: V, mapped: nat) returns (r: InsertResult)
      requires Valid() && Unmapped(chain, mapped, arena.dataSize)
      modifies this`chain, table, table.buckets, table.states, chain, set n | n in chain :: n.data
      ensures Valid() && ChainGrew(old(chain), chain, mapped)
      ensures |chain| > |old(chain)| ==> fresh(chain[|old(chain)|]) && fresh(chain[|old(chain)|].data)
      ensures table.buckets == old(table.buckets) || fresh(table.buckets)
      ensures table.states == old(table.states) || fresh(table.states)
      ensures r == TableFull <==> old(table.capacity) == HashTable.MAX_CAPACITY && old(table.occupied) * 4 >= old(table.capacity) * 3
      ensures r == TableFull ==> table.capacity == old(table.capacity) && table.occupied == old(table.occupied)
      ensures r != TableFull ==> (r == Present <==> key in old(Values()))
      ensures r != TableFull && key !in old(Values()) ==> (r == KeyTooLong <==> Align(|key| + 1) > arena.dataSize)
      ensures Values() == if r == Inserted then old(Values())[key := value] else old(Values())
    {
      hide IsChain;
      hide Objects;
      hide Image;
      hide OneEach;
      hide KeysStored;
      hide Unmapped;
      hide HashTable.Sound;
      hide HashTable.Available;
      var hash := table.hashOf(key);
      var ok := MakeRoom();
      if !ok { return TableFull; }
      var found, slot := table.Probe(key, hash, And(hash, table.bitmask));
      if found { return Present; }
      var stored := AddEntry(key, hash, slot.index, value, mapped);
      return if stored then Inserted else KeyTooLong;
    }

    /** The key is there: only its value changes. */
    method ReplaceValue(slot: nat, key: string, value: V)
      requires Valid() && slot < table.capacity && HasKey(table.buckets[..], table.states[..], slot, key)
      modifies table`contents, table.buckets
      ensures Valid() && key in old(Values()) && Values() == old(Values())[key := value]
    {
      hide IsChain;
      hide Objects;
      hide Image;
      hide OneEach;
      hide KeysStored;
      hide HashTable.Sound;
      hide Tables.HasKey;
      ghost var contents := table.contents;
      SlotOfKey(slot, key);
      OneEachChanges(contents, Objects(chain), key, value);
      StoredChanges(contents, Image(chain), key, value);
      ValueAdded(contents, key, Entry(contents[key].address, value));
      table.Replace(slot, Entry(table.buckets[slot].value.address, value));
    }

    /** hash_overwrite_ */
    method Overwrite(key: string, value: V, mapped: nat) returns (r: InsertResult)
      requires Valid() && Unmapped(chain, mapped, arena.dataSize)
      modifies this`chain, table, table.buckets, table.states, chain, set n | n in chain :: n.data
      ensures Valid() && ChainGrew(old(chain), chain, mapped)
      ensures |chain| > |old(chain)| ==> fresh(chain[|old(chain)|]) && fresh(chain[|old(chain)|].data)
      ensures table.buckets == old(table.buckets) || fresh(table.buckets)
      ensures table.states == old(table.states) || fresh(table.states)
      ensures r == TableFull <==> old(table.capacity) == HashTable.MAX_CAPACITY && old(table.occupied) * 4 >= old(table.capacity) * 3
      ensures r == TableFull ==> table.capacity == old(table.capacity) && table.occupied == old(table.occupied)
      ensures r != TableFull ==> (r == Present <==> key in old(Values()))
      ensures r != TableFull && key !in old(Values()) ==> (r == KeyTooLong <==> Align(|key| + 1) > arena.dataSize)
      ensures Values() == if r == Inserted || r == Present then old(Values())[key := value] else old(Values())
    {
      hide IsChain;
      hide Objects;
      hide Image;
      hide OneEach;
      hide KeysStored;
      hide Unmapped;
      hide HashTable.Sound;
      hide HashTable.Available;
      hide HasKey;
      var hash := table.hashOf(key);
      var ok := MakeRoom();
      if !ok { return TableFull; }
      var found, slot := table.Probe(key, hash, And(hash, table.bitmask));
      if found {
        ReplaceValue(slot.index, key, value);
        return Present;
      }
      var stored := AddEntry(key, hash, slot.index, value, mapped);
      return if stored then Inserted else KeyTooLong;
    }

    /** hash_lookup_ */
    method Lookup(key: string) returns (r: Option<V>)
      requires Valid()
      ensures r == if key in Values() then Some(Values()[key]) else None
    {
      var found := table.Lookup(key);
      return match found case Some(entry) => Some(entry.value) case None => None;
    }

    /** The arena's part of a removal: the object of the key is released, and all others are as they were. */
    method ReleaseKey(address: nat, ghost key: string)
      requires Valid() && key in table.contents && address == table.contents[key].address
      modifies chain
      ensures table.Valid() && IsChain(chain) && Separate()
      ensures Objects(chain) == Without(old(Objects(chain)), address) && Kept(old(Image(chain)), Image(chain), address)
    {
      hide IsChain;
      hide Objects;
      hide KeysStored;
      hide Without;
      hide Kept;
      hide HashTable.Sound;
      ghost var before := Image(chain);
      var found := Decr(arena, address, chain);
      WithoutKeeps(before, Image(chain), address);
    }

    /** hash_remove_ */
    method Remove(key: string) returns (found: bool)
      requires Valid()
      modifies table`length, table`contents, table.states, chain
      ensures Valid() && (found <==> key in old(Values())) && Values() == old(Values()) - {key}
    {
      hide IsChain;
      hide Objects;
      hide Image;
      hide OneEach;
      hide KeysStored;
      hide Kept;
      hide HashTable.Sound;
      ghost var contents, live, image := table.contents, Objects(chain), Image(chain);
      var hash := table.hashOf(key);
      var slot;
      found, slot := table.Probe(key, hash, And(hash, table.bitmask));
      ValueDropped(contents, key);
      if found {
        SlotOfKey(slot.index, key);
        ReleaseKey(table.buckets[slot.index].value.address, key);
        BurySlot(slot.index, key);
        OneEachDrops(contents, live, key);
        StoredDrops(contents, image, Image(chain), live, key);
      }
    }

    lemma SlotOfKey(slot: nat, key: string)
      requires Valid() && slot < table.capacity && HasKey(table.buckets[..], table.states[..], slot, key)
      ensures table.states[slot] == Used && table.buckets[slot].key == key
      ensures key in table.contents && table.contents[key] == table.buckets[slot].value
    {
      hide IsChain;
      UsedKey(table.buckets[..], table.states[..], table.power, table.hashOf, table.contents, slot);
    }

    /** The table's part of a removal: the arena is as it was. */
    method BurySlot(slot: nat, ghost key: string)
      requires table.Valid() && IsChain(chain) && Separate()
      requires slot < table.capacity && table.states[slot] == Used && table.buckets[slot].key == key
      modifies table`length, table`contents, table.states
      ensures table.Valid() && table.contents == old(table.contents) - {key} && Separate()
      ensures IsChain(chain) && Objects(chain) == old(Objects(chain)) && Image(chain) == old(Image(chain))
    {
      hide IsChain;
      hide Objects;
      hide Image;
      hide HashTable.Sound;
      table.Bury(slot);
    }

    /** hash_zero_ */
    method Zero()
      requires Valid()
      modifies table`length, table`occupied, table`contents, table.buckets, table.states, chain
      ensures Valid() && Values() == map[]
    {
      hide IsChain;
      hide Objects;
      hide Image;
      hide HashTable.Sound;
      table.Zero();
      Reset(arena, chain);
      NothingStored<V>(Image(chain));
    }

    /** hash_resize_: the keys stay where they are. */
    method Resize() returns (ok: bool)
      requires Valid()
      modifies table
      ensures Valid() && table.contents == old(table.contents) && (!ok <==> old(table.capacity) == HashTable.MAX_CAPACITY)
      ensures table.buckets == old(table.buckets) || fresh(table.buckets)
      ensures table.states == old(table.states) || fresh(table.states)
      ensures !ok ==> table.capacity == old(table.capacity) && table.occupied == old(table.occupied)
    {
      hide IsChain;
      hide Objects;
      hide Image;
      hide OneEach;
      hide KeysStored;
      hide HashTable.Sound;
      CapacityBound();
      ok := table.Resize();
    }
  }
}
