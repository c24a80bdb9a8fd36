/**
 The open-addressing hash map (cbase/hash.c): its methods do to the table what a finite map would have
 done to it. Hashes are an arbitrary function of the key.
 */
module HashTable {
  import opened Powers
  import opened Results
  import opened Bits
  import opened Probing
  import opened Tables
  import opened Words

  /** The index a probe leaves for its caller, if it leaves one. */
  datatype Target = NoSlot | At(index: nat)

  datatype InsertResult = TooBig | Present | Inserted

  const MAX_UINT32: nat := 0xFFFF_FFFF
  const MAX_CAPACITY: nat := 0x8000_0000

  lemma CapacityIsPower()
    ensures Pow(2, 31) == MAX_CAPACITY && Pow(2, 30) == MAX_CAPACITY / 2
  {
    PowAdd(2, 10, 10);
    PowAdd(2, 20, 11);
    PowAdd(2, 10, 1);
    assert Pow(2, 10) == 1024;
  }

  /** Doubling a capacity wraps around in 32 bits only from 2^31. */
  lemma Doubled(power: nat)
    requires 1 <= power <= 31
    ensures Pow(2, power) <= MAX_CAPACITY && (Pow(2, power) == MAX_CAPACITY <==> power == 31)
    ensures power < 31 ==> 2 * Pow(2, power) % BASE == Pow(2, power + 1)
    ensures power == 31 ==> 2 * Pow(2, power) % BASE == 0
  {
    CapacityIsPower();
    if power < 31 { PowMono(2, power, 30); }
  }

  /**
   The capacity hash_init_ starts with: the least power of two that is at least 2 and at least twice the number
   of entries asked for, which counts only up to a quarter of the 32-bit range.
   */
  method InitialCapacity(wanted: nat) returns (capacity: nat, ghost power: nat)
    requires wanted <= MAX_UINT32
    ensures 1 <= power <= 31 && capacity == Pow(2, power)
    ensures 2 * Min(wanted, MAX_UINT32 / 4) <= capacity
    ensures capacity > 2 ==> capacity / 4 < Min(wanted, MAX_UINT32 / 4)
  {
    var limit := if wanted > MAX_UINT32 / 4 then MAX_UINT32 / 4 else wanted;
    capacity, power := 1, 0;
    CapacityIsPower();
    while capacity < limit
      invariant power <= 30 && capacity == Pow(2, power)
      invariant capacity > 1 ==> capacity / 2 < limit
      decreases limit - capacity
    {
      capacity := capacity * 2;
      power := power + 1;
    }
    capacity := capacity * 2;
    power := power + 1;
  }

  // ---- what a probe has learned ----------------------------------------------------

  /** The first i steps of a probe for k met no free slot and not the key. */
  ghost predicate Passed<K, V>(buckets: seq<Bucket<K, V>>, states: seq<SlotState>, power: nat, hash: nat, k: K, i: nat)
    requires |buckets| == |states| == Pow(2, power)
  {
    forall j: nat :: j < i ==> states[Slot(hash, j, power)] != Free && !Matches(buckets, states, Slot(hash, j, power), hash, k)
  }

  /** `tombstone` is a reachable deleted slot, or the first i steps met used slots only. */
  ghost predicate Tombstone(states: seq<SlotState>, power: nat, hash: nat, i: nat, tombstone: Target)
    requires |states| == Pow(2, power)
  {
    match tombstone
    case At(t) => t < |states| && states[t] == Deleted && Reached(states, hash, t, power)
    case NoSlot => forall j: nat :: j < i ==> states[Slot(hash, j, power)] == Used
  }

  /** A slot that a new entry with this hash may take. */
  ghost predicate Available(states: seq<SlotState>, power: nat, hash: nat, slot: nat)
    requires |states| == Pow(2, power)
  {
    slot < |states| && states[slot] != Used && Reached(states, hash, slot, power)
  }

  lemma PassedOne<K, V>(buckets: seq<Bucket<K, V>>, states: seq<SlotState>, power: nat, hash: nat, k: K, i: nat)
    requires |buckets| == |states| == Pow(2, power) && Passed(buckets, states, power, hash, k, i)
    requires states[Slot(hash, i, power)] != Free && !Matches(buckets, states, Slot(hash, i, power), hash, k)
    ensures Passed(buckets, states, power, hash, k, i + 1)
  {
  }

  lemma PassedReaches<K, V>(buckets: seq<Bucket<K, V>>, states: seq<SlotState>, power: nat, hash: nat, k: K, i: nat)
    requires |buckets| == |states| == Pow(2, power) && i < |states| && Passed(buckets, states, power, hash, k, i)
    ensures Reached(states, hash, Slot(hash, i, power), power)
  {
    assert ReachedIn(states, hash, Slot(hash, i, power), i, power);
  }

  /** A table with a free slot has one that every probe reaches. */
  lemma PassedAll<K, V>(buckets: seq<Bucket<K, V>>, states: seq<SlotState>, power: nat, hash: nat, k: K)
    requires |buckets| == |states| == Pow(2, power) && Passed(buckets, states, power, hash, k, Pow(2, power))
    ensures OccupiedCount(states) == |states|
  {
    NoFreeSlot(states, hash, power);
  }

  // ---- rehashing ----------------------------------------------------------------------

  /** The entries in the first n slots. */
  ghost function EntriesBelow<K, V>(buckets: seq<Bucket<K, V>>, states: seq<SlotState>, n: nat): map<K, V>
    requires n <= |states| == |buckets|
  {
    if n == 0 then map[]
    else if states[n - 1] == Used then EntriesBelow(buckets, states, n - 1)[buckets[n - 1].key := buckets[n - 1].value]
    else EntriesBelow(buckets, states, n - 1)
  }

  lemma {:induction false} EntryBelow<K(!new), V>(buckets: seq<Bucket<K, V>>, states: seq<SlotState>, power: nat, hashOf: K -> nat,
                                           m: map<K, V>, n: nat, k: K)
    requires Represents(buckets, states, power, hashOf, m) && n <= |states|
    requires k in EntriesBelow(buckets, states, n)
    ensures k in m && m[k] == EntriesBelow(buckets, states, n)[k]
    ensures exists s: nat :: s < n && HasKey(buckets, states, s, k)
  {
    if states[n - 1] == Used && k == buckets[n - 1].key {
      UsedKey(buckets, states, power, hashOf, m, n - 1);
      assert HasKey(buckets, states, n - 1, k);
    } else {
      EntryBelow(buckets, states, power, hashOf, m, n - 1, k);
    }
  }

  lemma {:induction false} SlotBelow<K, V>(buckets: seq<Bucket<K, V>>, states: seq<SlotState>, n: nat, s: nat)
    requires s < n <= |states| == |buckets| && states[s] == Used
    ensures buckets[s].key in EntriesBelow(buckets, states, n)
  {
    if s < n - 1 { SlotBelow(buckets, states, n - 1, s); }
  }

  /** All slots together hold the whole map. */
  lemma EntriesOfAll<K(!new), V>(buckets: seq<Bucket<K, V>>, states: seq<SlotState>, power: nat, hashOf: K -> nat, m: map<K, V>)
    requires Represents(buckets, states, power, hashOf, m)
    ensures EntriesBelow(buckets, states, |states|) == m
  {
    var all := EntriesBelow(buckets, states, |states|);
    forall k | k in m ensures k in all {
      assert InSlot(buckets, states, k);
      var s: nat :| s < |states| && states[s] == Used && buckets[s].key == k;
      SlotBelow(buckets, states, |states|, s);
    }
    forall k | k in all ensures k in m && m[k] == all[k] {
      EntryBelow(buckets, states, power, hashOf, m, |states|, k);
    }
  }

  /** The key in the next used slot has not been seen, and there are never more entries than keys. */
  lemma NextIsNew<K(!new), V>(buckets: seq<Bucket<K, V>>, states: seq<SlotState>, power: nat, hashOf: K -> nat,
                        m: map<K, V>, n: nat)
    requires Represents(buckets, states, power, hashOf, m) && n < |states| && states[n] == Used
    ensures buckets[n].key !in EntriesBelow(buckets, states, n)
  {
    if buckets[n].key in EntriesBelow(buckets, states, n) {
      EntryBelow(buckets, states, power, hashOf, m, n, buckets[n].key);
    }
  }

  lemma NoMoreEntries<K(!new), V>(buckets: seq<Bucket<K, V>>, states: seq<SlotState>, power: nat, hashOf: K -> nat,
                            m: map<K, V>, n: nat)
    requires Represents(buckets, states, power, hashOf, m) && n <= |states|
    ensures |EntriesBelow(buckets, states, n)| <= |m|
  {
    var some := EntriesBelow(buckets, states, n);
    forall k | k in some ensures k in m { EntryBelow(buckets, states, power, hashOf, m, n, k); }
    SubsetSize(some.Keys, m.Keys);
  }

  lemma SubsetSize<T>(a: set<T>, b: set<T>)
    requires a <= b
    ensures |a| <= |b|
  {
    assert b == a + (b - a);
  }

  /** Walks the probe path of a hash in a table without tombstones to its first free slot. */
  method FreeSlotFor(states: array<SlotState>, ghost power: nat, hash: nat) returns (probe: nat)
    requires 1 <= power <= 31 && states.Length == Pow(2, power) && OccupiedCount(states[..]) < states.Length
    ensures probe < states.Length && states[probe] == Free && Reached(states[..], hash, probe, power)
  {
    var bitmask := states.Length - 1;
    var base := And(hash, bitmask);
    MaskedBase(hash, 0, power);
    probe := base;
    var step := 0;
    while step < states.Length && states[probe] != Free
      invariant step <= states.Length && probe == Slot(hash, step, power)
      invariant forall j: nat :: j < step ==> states[Slot(hash, j, power)] != Free
    {
      step := step + 1;
      probe := And((base + (step + step * step) / 2) % BASE, bitmask);
      ProbeIndexIsSlot(base, step, power);
      MaskedBase(hash, step, power);
    }
    if step == states.Length {
      NoFreeSlot(states[..], hash, power);
    }
    assert ReachedIn(states[..], hash, probe, step, power);
  }

  /** The table represents m and has no tombstones. */
  ghost predicate Packed<K(!new), V>(buckets: seq<Bucket<K, V>>, states: seq<SlotState>, power: nat, hashOf: K -> nat, m: map<K, V>) {
    Represents(buckets, states, power, hashOf, m) && UsedCount(states) == OccupiedCount(states) == |m|
  }

  lemma PackedPut<K(!new), V>(buckets: seq<Bucket<K, V>>, states: seq<SlotState>, power: nat, hashOf: K -> nat, m: map<K, V>,
                              t: nat, entry: Bucket<K, V>)
    requires Packed(buckets, states, power, hashOf, m) && entry.key !in m && entry.hash == hashOf(entry.key)
    requires t < |states| && states[t] == Free && Reached(states, entry.hash, t, power)
    ensures Packed(buckets[t := entry], states[t := Used], power, hashOf, m[entry.key := entry.value])
  {
    PutKeeps(buckets, states, power, hashOf, m, t, entry);
    CountUpdate(states, t, Used);
  }

  /** What the next used slot adds to the entries moved so far, and why there is room for it. */
  lemma NextEntry<K(!new), V>(buckets: seq<Bucket<K, V>>, states: seq<SlotState>, power: nat, hashOf: K -> nat, m: map<K, V>, n: nat)
    requires Represents(buckets, states, power, hashOf, m) && n < |states| && states[n] == Used
    ensures buckets[n].hash == hashOf(buckets[n].key) && buckets[n].key !in EntriesBelow(buckets, states, n)
    ensures EntriesBelow(buckets, states, n + 1) == EntriesBelow(buckets, states, n)[buckets[n].key := buckets[n].value]
    ensures |EntriesBelow(buckets, states, n)| <= |m|
  {
    NextIsNew(buckets, states, power, hashOf, m, n);
    UsedKey(buckets, states, power, hashOf, m, n);
    NoMoreEntries(buckets, states, power, hashOf, m, n);
  }

  /** One slot of the new arrays takes the entry of one old slot. */
  method PlaceEntry<K(!new), V>(buckets: array<Bucket<K, V>>, states: array<SlotState>, ghost power: nat, entry: Bucket<K, V>,
                          ghost hashOf: K -> nat, ghost m: map<K, V>)
    requires 1 <= power <= 31 && Packed(buckets[..], states[..], power, hashOf, m) && |m| < states.Length
    requires entry.key !in m && entry.hash == hashOf(entry.key)
    modifies buckets, states
    ensures Packed(buckets[..], states[..], power, hashOf, m[entry.key := entry.value])
  {
    var probe := FreeSlotFor(states, power, entry.hash);
    ghost var b, st := buckets[..], states[..];
    PackedPut(b, st, power, hashOf, m, probe, entry);
    buckets[probe] := entry;
    states[probe] := Used;
    assert buckets[..] == b[probe := entry];
    assert states[..] == st[probe := Used];
  }

  /** All entries of the old arrays go into the new ones, which are empty and have room. */
  method Rehash<K(!new), V>(buckets: array<Bucket<K, V>>, states: array<SlotState>,
                            newBuckets: array<Bucket<K, V>>, newStates: array<SlotState>,
                            ghost power: nat, ghost hashOf: K -> nat, ghost m: map<K, V>)
    requires Represents(buckets[..], states[..], power, hashOf, m) && |m| <= states.Length
    requires power < 31 && newBuckets.Length == newStates.Length == 2 * states.Length
    requires Packed(newBuckets[..], newStates[..], power + 1, hashOf, map[])
    requires buckets != newBuckets && states != newStates
    modifies newBuckets, newStates
    ensures Packed(newBuckets[..], newStates[..], power + 1, hashOf, m)
  {
    ghost var b, st := buckets[..], states[..];
    var j := 0;
    while j < states.Length
      invariant j <= states.Length && buckets[..] == b && states[..] == st
      invariant Packed(newBuckets[..], newStates[..], power + 1, hashOf, EntriesBelow(b, st, j))
    {
      if states[j] == Used {
        NextEntry(b, st, power, hashOf, m, j);
        PlaceEntry(newBuckets, newStates, power + 1, buckets[j], hashOf, EntriesBelow(b, st, j));
      }
      j := j + 1;
    }
    EntriesOfAll(b, st, power, hashOf, m);
  }

  /** What holds of the table's arrays and counters between calls. */
  ghost predicate Sound<K(!new), V>(buckets: seq<Bucket<K, V>>, states: seq<SlotState>, power: nat, hashOf: K -> nat,
                                    contents: map<K, V>, length: nat, occupied: nat)
  {
    && 1 <= power <= 31 && Represents(buckets, states, power, hashOf, contents)
    && length == |contents| == UsedCount(states)
    && occupied == OccupiedCount(states)
  }

  lemma SoundRoom<K(!new), V>(buckets: seq<Bucket<K, V>>, states: seq<SlotState>, power: nat, hashOf: K -> nat,
                              contents: map<K, V>, length: nat, occupied: nat)
    requires Sound(buckets, states, power, hashOf, contents, length, occupied)
    ensures |contents| == length <= occupied <= |states|
    ensures |buckets| == |states| == Pow(2, power) <= MAX_CAPACITY
  {
    Doubled(power);
    CountBounds(states);
  }

  lemma PackedSound<K(!new), V>(buckets: seq<Bucket<K, V>>, states: seq<SlotState>, power: nat, hashOf: K -> nat, contents: map<K, V>)
    requires 1 <= power <= 31 && Packed(buckets, states, power, hashOf, contents)
    ensures Sound(buckets, states, power, hashOf, contents, |contents|, |contents|)
  {
  }

  /** New arrays of twice the capacity with the same entries. */
  method Grown<K(0,!new), V(0)>(buckets: array<Bucket<K, V>>, states: array<SlotState>,
                                ghost power: nat, ghost hashOf: K -> nat, ghost m: map<K, V>, ghost occupied: nat)
    returns (newBuckets: array<Bucket<K, V>>, newStates: array<SlotState>)
    requires Sound(buckets[..], states[..], power, hashOf, m, |m|, occupied) && power < 31
    ensures fresh(newBuckets) && fresh(newStates) && newBuckets.Length == newStates.Length == 2 * states.Length
    ensures Sound(newBuckets[..], newStates[..], power + 1, hashOf, m, |m|, |m|)
  {
    hide Represents;
    SoundRoom(buckets[..], states[..], power, hashOf, m, |m|, occupied);
    newBuckets := new Bucket<K, V>[2 * states.Length];
    newStates := new SlotState[2 * states.Length](_ => Free);
    EmptyRepresents(newBuckets[..], newStates[..], power + 1, hashOf);
    Rehash(buckets, states, newBuckets, newStates, power, hashOf, m);
    PackedSound(newBuckets[..], newStates[..], power + 1, hashOf, m);
  }

  /** The loop of hash_probe_. It stops in step i, at the key, at a free slot, or after looking at every slot. */
  method Walk<K(==), V>(buckets: array<Bucket<K, V>>, states: array<SlotState>, ghost power: nat, key: K, hash: nat, base: nat)
    returns (found: bool, slot: Target, ghost i: nat)
    requires 1 <= power <= 31 && buckets.Length == states.Length == Pow(2, power)
    requires base == And(hash, states.Length - 1)
    ensures i <= states.Length && Passed(buckets[..], states[..], power, hash, key, i)
    ensures found ==> slot.At? && slot.index < states.Length && Matches(buckets[..], states[..], slot.index, hash, key)
    ensures !found && i < states.Length ==> states[Slot(hash, i, power)] == Free
    ensures !found && slot.At? ==> Available(states[..], power, hash, slot.index)
    ensures !found && slot.NoSlot? ==> OccupiedCount(states[..]) == states.Length
  {
    var bitmask := states.Length - 1;
    var step := 0;
    var probe := base;
    var tombstone := NoSlot;
    ghost var b, st := buckets[..], states[..];
    MaskedBase(hash, 0, power);
    while step < states.Length
      invariant step <= states.Length && probe == Slot(hash, step, power)
      invariant Passed(b, st, power, hash, key, step) && Tombstone(st, power, hash, step, tombstone)
    {
      PassedReaches(b, st, power, hash, key, step);
      if states[probe] == Free {
        return false, if tombstone.At? then tombstone else At(probe), step;
      } else if states[probe] == Deleted {
        if tombstone.NoSlot? { tombstone := At(probe); }
      } else if buckets[probe].hash == hash && buckets[probe].key == key {
        return true, At(probe), step;
      }
      PassedOne(b, st, power, hash, key, step);
      step := step + 1;
      probe := And((base + (step + step * step) / 2) % BASE, bitmask);
      ProbeIndexIsSlot(base, step, power);
      MaskedBase(hash, step, power);
    }
    PassedAll(b, st, power, hash, key);
    return false, tombstone, step;
  }

  class HashMap<K(==,0,!new), V(0)> {
    const hashOf: K -> nat

    var buckets: array<Bucket<K, V>>
    var states: array<SlotState>
    var capacity: nat
    var bitmask: nat
    var length: nat
    var occupied: nat

    ghost var power: nat
    ghost var contents: map<K, V>

    ghost predicate Valid()
      reads this, buckets, states
    {
      && buckets.Length == states.Length == capacity && bitmask == capacity - 1
      && Sound(buckets[..], states[..], power, hashOf, contents, length, occupied)
    }

    /** hash_init_: room for `wanted` entries, doubled. */
    constructor (wanted: nat, hashOf: K -> nat)
      requires wanted <= MAX_UINT32
      ensures Valid() && fresh(buckets) && fresh(states)
      ensures contents == map[] && this.hashOf == hashOf
      ensures 2 * Min(wanted, MAX_UINT32 / 4) <= capacity
      ensures capacity > 2 ==> capacity / 4 < Min(wanted, MAX_UINT32 / 4)
    {
      var size;
      ghost var exponent;
      size, exponent := InitialCapacity(wanted);
      this.hashOf := hashOf;
      buckets := new Bucket<K, V>[size];
      states := new SlotState[size](_ => Free);
      capacity := size;
      bitmask := size - 1;
      length := 0;
      occupied := 0;
      power := exponent;
      contents := map[];
      new;
      EmptyRepresents(buckets[..], states[..], power, hashOf);
    }

    /** hash_zero_: every slot becomes free. */
    method Zero()
      requires Valid()
      modifies this`length, this`occupied, this`contents, buckets, states
      ensures Valid() && contents == map[] && length == 0 && occupied == 0
    {
      hide Represents;
      SoundRoom(buckets[..], states[..], power, hashOf, contents, length, occupied);
      length := 0;
      occupied := 0;
      var i := 0;
      while i < capacity
        invariant i <= capacity && length == 0 && occupied == 0
        invariant forall j :: 0 <= j < i ==> states[j] == Free
        modifies buckets, states
      {
        buckets[i] := Bucket(0, buckets[i].key, buckets[i].value);
        states[i] := Free;
        i := i + 1;
      }
      contents := map[];
      EmptyRepresents(buckets[..], states[..], power, hashOf);
    }

    /** hash_probe_: the slot of the key, or else the best slot to put it in. */
    method Probe(key: K, hash: nat, base: nat) returns (found: bool, slot: Target)
      requires Valid() && hash == hashOf(key) && base == And(hash, bitmask)
      ensures found <==> key in contents
      ensures found ==> slot.At? && slot.index < capacity && HasKey(buckets[..], states[..], slot.index, key)
      ensures !found && slot.At? ==> Available(states[..], power, hash, slot.index)
      ensures !found && occupied < capacity ==> slot.At?
    {
      ghost var i;
      found, slot, i := Walk(buckets, states, power, key, hash, base);
      if found {
        UsedKey(buckets[..], states[..], power, hashOf, contents, slot.index);
      } else {
        NotFound(buckets[..], states[..], power, hashOf, contents, key, i);
      }
    }

    /** The end of hash_resize_: the new arrays replace the old ones. */
    method Adopt(newBuckets: array<Bucket<K, V>>, newStates: array<SlotState>, newCapacity: nat)
      requires newCapacity > 0 && newBuckets.Length == newStates.Length == newCapacity
      requires Sound(newBuckets[..], newStates[..], power + 1, hashOf, contents, length, length)
      modifies this`buckets, this`states, this`capacity, this`bitmask, this`occupied, this`power
      ensures Valid() && power == old(power) + 1 && occupied == length && capacity == newCapacity
      ensures buckets == newBuckets && states == newStates
    {
      hide Represents;
      ghost var b, st := newBuckets[..], newStates[..];
      buckets := newBuckets;
      states := newStates;
      capacity := newCapacity;
      bitmask := newCapacity - 1;
      occupied := length;
      power := power + 1;
      assert buckets[..] == b && states[..] == st;
    }

    /** hash_resize_: twice the capacity and no tombstones, unless the capacity cannot double in 32 bits. */
    method Resize() returns (ok: bool)
      requires Valid()
      modifies this`buckets, this`states, this`capacity, this`bitmask, this`occupied, this`power
      ensures Valid() && ok == (old(capacity) < MAX_CAPACITY)
      ensures ok ==> capacity == 2 * old(capacity) && occupied == length && fresh(buckets) && fresh(states)
      ensures !ok ==> unchanged(this) && capacity == MAX_CAPACITY
    {
      hide Represents;
      SoundRoom(buckets[..], states[..], power, hashOf, contents, length, occupied);
      Doubled(power);
      var newCapacity := capacity * 2 % BASE;
      if newCapacity < capacity { return false; }
      var newBuckets, newStates := Grown(buckets, states, power, hashOf, contents, occupied);
      Adopt(newBuckets, newStates, newCapacity);
      return true;
    }

    /** The slot takes an entry whose key the table lacks: the common end of insert and overwrite. */
    method Fill(slot: nat, entry: Bucket<K, V>)
      requires Valid() && entry.key !in contents && entry.hash == hashOf(entry.key)
      requires Available(states[..], power, entry.hash, slot)
      modifies this`length, this`occupied, this`contents, buckets, states
      ensures Valid() && contents == old(contents)[entry.key := entry.value]
    {
      ghost var b, st := buckets[..], states[..];
      PutKeeps(b, st, power, hashOf, contents, slot, entry);
      CountUpdate(st, slot, Used);
      if states[slot] == Free { occupied := occupied + 1; }
      buckets[slot] := entry;
      states[slot] := Used;
      length := length + 1;
      contents := contents[entry.key := entry.value];
      assert buckets[..] == b[slot := entry] && states[..] == st[slot := Used];
    }

    /** The check both writers start with. It leaves room for one more entry, unless the table cannot grow. */
    method MakeRoom() returns (ok: bool)
      requires Valid()
      modifies this`buckets, this`states, this`capacity, this`bitmask, this`occupied, this`power
      ensures Valid() && ok == (old(capacity) < MAX_CAPACITY || old(occupied) * 4 < old(capacity) * 3)
      ensures ok ==> occupied < capacity
      ensures ok ==> buckets == old(buckets) || fresh(buckets)
      ensures ok ==> states == old(states) || fresh(states)
      ensures !ok ==> unchanged(this)
    {
      hide Represents;
      if occupied * 100 >= capacity * 75 {
        SoundRoom(buckets[..], states[..], power, hashOf, contents, length, occupied);
        ok := Resize();
      } else {
        ok := true;
      }
    }

    /** hash_insert_: refuses a key that is present; TooBig stands for the fatal error. */
    method Insert(key: K, value: V) returns (r: InsertResult)
      requires Valid()
      modifies this, buckets, states
      ensures r == TooBig <==> old(capacity) == MAX_CAPACITY && old(occupied) * 4 >= old(capacity) * 3
      ensures r == Present ==> key in old(contents)
      ensures r == Inserted ==> key !in old(contents)
      ensures Valid() && contents == if r == Inserted then old(contents)[key := value] else old(contents)
      ensures buckets == old(buckets) || fresh(buckets)
      ensures states == old(states) || fresh(states)
      ensures r == TooBig ==> capacity == old(capacity) && occupied == old(occupied)
    {
      hide Represents;
      SoundRoom(buckets[..], states[..], power, hashOf, contents, length, occupied);
      var hash := hashOf(key);
      var ok := MakeRoom();
      if !ok { return TooBig; }
      var found, slot := Probe(key, hash, And(hash, bitmask));
      if found { return Present; }
      Fill(slot.index, Bucket(hash, key, value));
      return Inserted;
    }

    /** hash_overwrite_: gives the key this value whether or not it was present. */
    method Overwrite(key: K, value: V) returns (ok: bool)
      requires Valid()
      modifies this, buckets, states
      ensures !ok <==> old(capacity) == MAX_CAPACITY && old(occupied) * 4 >= old(capacity) * 3
      ensures Valid() && contents == if ok then old(contents)[key := value] else old(contents)
      ensures buckets == old(buckets) || fresh(buckets)
      ensures states == old(states) || fresh(states)
      ensures !ok ==> capacity == old(capacity) && occupied == old(occupied)
    {
      hide Represents;
      SoundRoom(buckets[..], states[..], power, hashOf, contents, length, occupied);
      var hash := hashOf(key);
      ok := MakeRoom();
      if !ok { return; }
      var found, slot := Probe(key, hash, And(hash, bitmask));
      if found {
        Replace(slot.index, value);
      } else {
        Fill(slot.index, Bucket(hash, key, value));
      }
    }

    method Replace(slot: nat, value: V)
      requires Valid() && slot < capacity && states[slot] == Used
      modifies this`contents, buckets
      ensures Valid() && contents == old(contents)[old(buckets[slot].key) := value]
    {
      hide Represents;
      ghost var b, st := buckets[..], states[..];
      var entry := buckets[slot].(value := value);
      OverwriteKeeps(b, st, power, hashOf, contents, slot, entry);
      buckets[slot] := entry;
      contents := contents[entry.key := value];
      assert buckets[..] == b[slot := entry] && states[..] == st;
    }

    /** hash_lookup_ */
    method Lookup(key: K) returns (r: Option<V>)
      requires Valid()
      ensures r == if key in contents then Some(contents[key]) else None
    {
      hide Represents;
      var hash := hashOf(key);
      var found, slot := Probe(key, hash, And(hash, bitmask));
      if found {
        UsedKey(buckets[..], states[..], power, hashOf, contents, slot.index);
        return Some(buckets[slot.index].value);
      } else {
        return None;
      }
    }

    /** hash_remove_: leaves a tombstone. */
    method Remove(key: K) returns (found: bool)
      requires Valid()
      modifies this`length, this`contents, states
      ensures found <==> key in old(contents)
      ensures Valid() && contents == old(contents) - {key} && occupied == old(occupied)
    {
      hide Represents;
      var hash := hashOf(key);
      var slot;
      found, slot := Probe(key, hash, And(hash, bitmask));
      if found {
        Bury(slot.index);
      } else {
        assert contents - {key} == contents;
      }
    }

    method Bury(slot: nat)
      requires Valid() && slot < capacity && states[slot] == Used
      modifies this`length, this`contents, states
      ensures Valid() && contents == old(contents) - {buckets[slot].key}
    {
      hide Represents;
      ghost var b, st := buckets[..], states[..];
      RemoveKeeps(b, st, power, hashOf, contents, slot);
      CountUpdate(st, slot, Deleted);
      states[slot] := Deleted;
      length := length - 1;
      contents := contents - {buckets[slot].key};
      assert buckets[..] == b && states[..] == st[slot := Deleted];
    }
  }
}
