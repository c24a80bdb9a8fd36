/**
 The contents of an open-addressing table as sequences: which finite map they represent, and why
 putting, overwriting and removing an entry keeps every key reachable on its probe path.
 */
module Tables {
  import opened Powers
  import opened Probing

  datatype SlotState = Free | Used | Deleted

  datatype Bucket<K, V> = Bucket(hash: nat, key: K, value: V)

  /** Probing from `base` gets to slot s in step i without meeting a free slot before. */
  ghost predicate ReachedIn(states: seq<SlotState>, base: nat, s: nat, i: nat, power: nat)
    requires |states| == Pow(2, power)
  {
    && i < Pow(2, power) && Slot(base, i, power) == s
    && forall j: nat :: j < i ==> states[Slot(base, j, power)] != Free
  }

  ghost predicate Reached(states: seq<SlotState>, base: nat, s: nat, power: nat)
    requires |states| == Pow(2, power)
  {
    exists i: nat :: ReachedIn(states, base, s, i, power)
  }

  /** Slot s holds key k of the map m, its value and its hash, and can be reached. */
  ghost predicate Holds<K, V>(buckets: seq<Bucket<K, V>>, states: seq<SlotState>, power: nat, hashOf: K -> nat,
                              m: map<K, V>, s: nat)
    requires |buckets| == |states| == Pow(2, power) && s < |states|
  {
    var b := buckets[s];
    b.hash == hashOf(b.key) && b.key in m && m[b.key] == b.value && Reached(states, b.hash, s, power)
  }

  /** The table represents m: each used slot holds an entry of m, and each key of m is in exactly one slot. */
  ghost predicate Represents<K(!new), V>(buckets: seq<Bucket<K, V>>, states: seq<SlotState>, power: nat, hashOf: K -> nat,
                                         m: map<K, V>)
  {
    && |buckets| == |states| == Pow(2, power)
    && AllHold(buckets, states, power, hashOf, m)
    && UniqueKeys(buckets, states)
    && AllPresent(buckets, states, m.Keys)
  }

  ghost predicate AllHold<K, V>(buckets: seq<Bucket<K, V>>, states: seq<SlotState>, power: nat, hashOf: K -> nat, m: map<K, V>)
    requires |buckets| == |states| == Pow(2, power)
  {
    forall s: nat :: s < |states| && states[s] == Used ==> Holds(buckets, states, power, hashOf, m, s)
  }

  ghost predicate AllPresent<K, V>(buckets: seq<Bucket<K, V>>, states: seq<SlotState>, keys: set<K>)
    requires |buckets| == |states|
  {
    forall k :: k in keys ==> InSlot(buckets, states, k)
  }

  ghost predicate UniqueKeys<K, V>(buckets: seq<Bucket<K, V>>, states: seq<SlotState>)
    requires |buckets| == |states|
  {
    forall s: nat, t: nat :: s < t < |states| && states[s] == Used && states[t] == Used ==> buckets[s].key != buckets[t].key
  }

  ghost predicate InSlot<K, V>(buckets: seq<Bucket<K, V>>, states: seq<SlotState>, k: K)
    requires |buckets| == |states|
  {
    exists s: nat :: s < |states| && states[s] == Used && buckets[s].key == k
  }

  /** How many slots are in use, and how many have ever been. */
  function UsedCount(states: seq<SlotState>): nat {
    if states == [] then 0
    else UsedCount(states[..|states| - 1]) + if states[|states| - 1] == Used then 1 else 0
  }

  function OccupiedCount(states: seq<SlotState>): nat {
    if states == [] then 0
    else OccupiedCount(states[..|states| - 1]) + if states[|states| - 1] != Free then 1 else 0
  }

  lemma {:induction false} CountUpdate(states: seq<SlotState>, s: nat, state: SlotState)
    requires s < |states|
    ensures UsedCount(states[s := state]) - UsedCount(states)
         == (if state == Used then 1 else 0) - (if states[s] == Used then 1 else 0)
    ensures OccupiedCount(states[s := state]) - OccupiedCount(states)
         == (if state != Free then 1 else 0) - (if states[s] != Free then 1 else 0)
  {
    var n := |states| - 1;
    var after := states[s := state];
    if s < n {
      CountUpdate(states[..n], s, state);
      assert after[..n] == states[..n][s := state];
    } else {
      assert after[..n] == states[..n];
    }
  }

  lemma {:induction false} AllFree(states: seq<SlotState>)
    requires forall s :: 0 <= s < |states| ==> states[s] == Free
    ensures UsedCount(states) == 0 && OccupiedCount(states) == 0
  {
    if states != [] { AllFree(states[..|states| - 1]); }
  }

  lemma {:induction false} CountBounds(states: seq<SlotState>)
    ensures UsedCount(states) <= OccupiedCount(states) <= |states|
    ensures (forall s :: 0 <= s < |states| ==> states[s] != Free) ==> OccupiedCount(states) == |states|
  {
    if states != [] {
      CountBounds(states[..|states| - 1]);
    }
  }

  // ---- what a probe that finds nothing has shown ------------------------------------

  ghost predicate HasKey<K, V>(buckets: seq<Bucket<K, V>>, states: seq<SlotState>, s: nat, k: K)
    requires |buckets| == |states| && s < |states|
  {
    states[s] == Used && buckets[s].key == k
  }

  /** The comparison the code makes: hash first, then key. */
  ghost predicate Matches<K, V>(buckets: seq<Bucket<K, V>>, states: seq<SlotState>, s: nat, hash: nat, k: K)
    requires |buckets| == |states| && s < |states|
  {
    HasKey(buckets, states, s, k) && buckets[s].hash == hash
  }

  /** A key of the map is met on its probe path before any free slot. */
  lemma KeyOnPath<K(!new), V>(buckets: seq<Bucket<K, V>>, states: seq<SlotState>, power: nat, hashOf: K -> nat, m: map<K, V>, k: K)
    returns (i: nat)
    requires Represents(buckets, states, power, hashOf, m) && k in m
    ensures i < Pow(2, power) && Matches(buckets, states, Slot(hashOf(k), i, power), hashOf(k), k)
    ensures forall j: nat :: j < i ==> states[Slot(hashOf(k), j, power)] != Free
  {
    assert InSlot(buckets, states, k);
    var s: nat :| s < |states| && states[s] == Used && buckets[s].key == k;
    assert Holds(buckets, states, power, hashOf, m, s);
    i :| ReachedIn(states, hashOf(k), s, i, power);
  }

  /** A probe that has met only other keys, and then a free slot or nothing more, has shown that k is not there. */
  lemma NotFound<K(!new), V>(buckets: seq<Bucket<K, V>>, states: seq<SlotState>, power: nat, hashOf: K -> nat, m: map<K, V>,
                             k: K, i: nat)
    requires Represents(buckets, states, power, hashOf, m)
    requires i < Pow(2, power) ==> states[Slot(hashOf(k), i, power)] == Free
    requires forall j: nat :: j < i ==> !Matches(buckets, states, Slot(hashOf(k), j, power), hashOf(k), k)
    ensures k !in m
  {
    if k in m {
      var found := KeyOnPath(buckets, states, power, hashOf, m, k);
    }
  }

  /** If every step below the capacity misses the free slots, there are none. */
  lemma NoFreeSlot(states: seq<SlotState>, base: nat, power: nat)
    requires |states| == Pow(2, power)
    requires forall j: nat :: j < Pow(2, power) ==> states[Slot(base, j, power)] != Free
    ensures OccupiedCount(states) == |states|
  {
    forall s | 0 <= s < |states| ensures states[s] != Free {
      var j := StepOf(base, s, power);
    }
    CountBounds(states);
  }

  // ---- changing one slot -----------------------------------------------------------------

  /** Filling a slot, or leaving a tombstone in it, makes nothing unreachable. */
  lemma StillReached(states: seq<SlotState>, state: SlotState, t: nat, base: nat, s: nat, power: nat)
    requires |states| == Pow(2, power) && t < |states| && state != Free
    requires Reached(states, base, s, power)
    ensures Reached(states[t := state], base, s, power)
  {
    var i: nat :| ReachedIn(states, base, s, i, power);
    assert ReachedIn(states[t := state], base, s, i, power);
  }

  lemma PutKeeps<K(!new), V>(buckets: seq<Bucket<K, V>>, states: seq<SlotState>, power: nat, hashOf: K -> nat, m: map<K, V>,
                       t: nat, b: Bucket<K, V>)
    requires Represents(buckets, states, power, hashOf, m) && t < |states| && states[t] != Used
    requires b.hash == hashOf(b.key) && b.key !in m && Reached(states, b.hash, t, power)
    ensures Represents(buckets[t := b], states[t := Used], power, hashOf, m[b.key := b.value])
    ensures |m[b.key := b.value]| == |m| + 1
  {
    var buckets', states', m' := buckets[t := b], states[t := Used], m[b.key := b.value];
    forall s: nat | s < |states'| && states'[s] == Used ensures Holds(buckets', states', power, hashOf, m', s) {
      if s != t { assert Holds(buckets, states, power, hashOf, m, s); }
      StillReached(states, Used, t, buckets'[s].hash, s, power);
    }
    forall k | k in m' ensures InSlot(buckets', states', k) {
      if k == b.key {
        assert states'[t] == Used && buckets'[t].key == k;
      } else {
        var s: nat :| s < |states| && states[s] == Used && buckets[s].key == k;
        assert states'[s] == Used && buckets'[s].key == k;
      }
    }
    UniqueAfterPut(buckets, states, power, hashOf, m, t, b);
  }

  lemma UniqueAfterPut<K(!new), V>(buckets: seq<Bucket<K, V>>, states: seq<SlotState>, power: nat, hashOf: K -> nat, m: map<K, V>,
                                   t: nat, b: Bucket<K, V>)
    requires Represents(buckets, states, power, hashOf, m) && t < |states| && b.key !in m
    ensures UniqueKeys(buckets[t := b], states[t := Used])
  {
    forall s: nat | s < |states| && states[s] == Used ensures buckets[s].key != b.key {
      assert Holds(buckets, states, power, hashOf, m, s);
    }
  }

  lemma OverwriteKeeps<K(!new), V>(buckets: seq<Bucket<K, V>>, states: seq<SlotState>, power: nat, hashOf: K -> nat, m: map<K, V>,
                                   t: nat, b: Bucket<K, V>)
    requires Represents(buckets, states, power, hashOf, m) && t < |states| && states[t] == Used
    requires b.key == buckets[t].key && b.hash == buckets[t].hash
    ensures b.key in m && |m[b.key := b.value]| == |m|
    ensures Represents(buckets[t := b], states, power, hashOf, m[b.key := b.value])
  {
    UsedKey(buckets, states, power, hashOf, m, t);
    OverwrittenMap(m, b.key, b.value);
    ValuesOnly(buckets, states, power, hashOf, m, t, b, buckets[t := b], m[b.key := b.value]);
  }

  lemma UsedKey<K(!new), V>(buckets: seq<Bucket<K, V>>, states: seq<SlotState>, power: nat, hashOf: K -> nat, m: map<K, V>, s: nat)
    requires Represents(buckets, states, power, hashOf, m) && s < |states| && states[s] == Used
    ensures buckets[s].key in m && m[buckets[s].key] == buckets[s].value && buckets[s].hash == hashOf(buckets[s].key)
  {
    assert Holds(buckets, states, power, hashOf, m, s);
  }

  /** When only a value changes, in its slot and in the map, the table still represents the map. */
  lemma ValuesOnly<K(!new), V>(buckets: seq<Bucket<K, V>>, states: seq<SlotState>, power: nat, hashOf: K -> nat, m: map<K, V>,
                               t: nat, b: Bucket<K, V>, buckets': seq<Bucket<K, V>>, m': map<K, V>)
    requires Represents(buckets, states, power, hashOf, m) && t < |states| && states[t] == Used
    requires b.key == buckets[t].key && b.hash == buckets[t].hash
    requires buckets' == buckets[t := b] && m' == m[b.key := b.value] && m'.Keys == m.Keys
    ensures Represents(buckets', states, power, hashOf, m')
  {
    AllHoldAfterOverwrite(buckets, states, power, hashOf, m, t, b, buckets', m');
    KeysUnchanged(buckets, t, b);
    SameKeys(buckets, buckets', states, power, hashOf, m);
  }

  lemma AllHoldAfterOverwrite<K(!new), V>(buckets: seq<Bucket<K, V>>, states: seq<SlotState>, power: nat, hashOf: K -> nat,
                                          m: map<K, V>, t: nat, b: Bucket<K, V>, buckets': seq<Bucket<K, V>>, m': map<K, V>)
    requires Represents(buckets, states, power, hashOf, m) && t < |states| && states[t] == Used
    requires b.key == buckets[t].key && b.hash == buckets[t].hash
    requires buckets' == buckets[t := b] && m' == m[b.key := b.value]
    ensures AllHold(buckets', states, power, hashOf, m')
  {
    forall s: nat | s < |states| && states[s] == Used ensures Holds(buckets', states, power, hashOf, m', s) {
      HoldsAfterOverwrite(buckets, states, power, hashOf, m, t, b, s);
    }
  }

  lemma OverwrittenMap<K, V>(m: map<K, V>, k: K, value: V)
    requires k in m
    ensures m[k := value].Keys == m.Keys && |m[k := value]| == |m|
  {
    assert m[k := value].Keys == m.Keys;
  }

  ghost predicate KeysAgree<K, V>(buckets: seq<Bucket<K, V>>, buckets': seq<Bucket<K, V>>) {
    |buckets| == |buckets'| && forall s: nat :: s < |buckets| ==> buckets'[s].key == buckets[s].key
  }

  lemma KeysUnchanged<K, V>(buckets: seq<Bucket<K, V>>, t: nat, b: Bucket<K, V>)
    requires t < |buckets| && b.key == buckets[t].key
    ensures KeysAgree(buckets, buckets[t := b])
  {
  }

  /** Tables with the same keys in the same slots agree on which keys are present. */
  lemma SameKeys<K(!new), V>(buckets: seq<Bucket<K, V>>, buckets': seq<Bucket<K, V>>, states: seq<SlotState>, power: nat,
                             hashOf: K -> nat, m: map<K, V>)
    requires Represents(buckets, states, power, hashOf, m) && |buckets'| == |buckets|
    requires KeysAgree(buckets, buckets')
    ensures UniqueKeys(buckets', states) && AllPresent(buckets', states, m.Keys)
  {
    forall k | k in m.Keys ensures InSlot(buckets', states, k) { SlotRemains(buckets, buckets', states, states, k); }
    StillUnique(buckets, buckets', states, states);
  }

  lemma HoldsAfterOverwrite<K(!new), V>(buckets: seq<Bucket<K, V>>, states: seq<SlotState>, power: nat, hashOf: K -> nat,
                                        m: map<K, V>, t: nat, b: Bucket<K, V>, s: nat)
    requires Represents(buckets, states, power, hashOf, m) && t < |states| && states[t] == Used
    requires b.key == buckets[t].key && b.hash == buckets[t].hash
    requires s < |states| && states[s] == Used
    ensures Holds(buckets[t := b], states, power, hashOf, m[b.key := b.value], s)
  {
    assert Holds(buckets, states, power, hashOf, m, s);
    if s != t { KeysDiffer(buckets, states, s, t); }
  }

  /** Keys stay unique when no slot comes into use and no key changes. */
  lemma StillUnique<K, V>(buckets: seq<Bucket<K, V>>, buckets': seq<Bucket<K, V>>, states: seq<SlotState>, states': seq<SlotState>)
    requires |buckets| == |buckets'| == |states| == |states'|
    requires UniqueKeys(buckets, states)
    requires forall s: nat :: s < |states'| && states'[s] == Used ==> HasKey(buckets, states, s, buckets'[s].key)
    ensures UniqueKeys(buckets', states')
  {
  }

  lemma KeysDiffer<K, V>(buckets: seq<Bucket<K, V>>, states: seq<SlotState>, s: nat, t: nat)
    requires |buckets| == |states| && UniqueKeys(buckets, states)
    requires s < |states| && t < |states| && s != t && states[s] == Used && states[t] == Used
    ensures buckets[s].key != buckets[t].key
  {
  }

  /** A slot that stays in use with its key still makes the key present. */
  lemma SlotRemains<K(!new), V>(buckets: seq<Bucket<K, V>>, buckets': seq<Bucket<K, V>>, states: seq<SlotState>,
                                states': seq<SlotState>, k: K)
    requires |buckets| == |buckets'| == |states| == |states'|
    requires InSlot(buckets, states, k)
    requires forall s: nat :: s < |states| && HasKey(buckets, states, s, k) ==> HasKey(buckets', states', s, k)
    ensures InSlot(buckets', states', k)
  {
    var s: nat :| s < |states| && states[s] == Used && buckets[s].key == k;
    assert HasKey(buckets, states, s, k);
  }

  lemma RemoveKeeps<K(!new), V>(buckets: seq<Bucket<K, V>>, states: seq<SlotState>, power: nat, hashOf: K -> nat, m: map<K, V>, t: nat)
    requires Represents(buckets, states, power, hashOf, m) && t < |states| && states[t] == Used
    ensures buckets[t].key in m && |m - {buckets[t].key}| == |m| - 1
    ensures Represents(buckets, states[t := Deleted], power, hashOf, m - {buckets[t].key})
  {
    var k := buckets[t].key;
    var states', m' := states[t := Deleted], m - {k};
    assert Holds(buckets, states, power, hashOf, m, t);
    assert m == m'[k := m[k]];
    forall s: nat | s < |states'| && states'[s] == Used ensures Holds(buckets, states', power, hashOf, m', s) {
      HoldsAfterRemove(buckets, states, power, hashOf, m, t, s);
    }
    forall x | x in m' ensures InSlot(buckets, states', x) { SlotRemains(buckets, buckets, states, states', x); }
    StillUnique(buckets, buckets, states, states');
  }

  lemma HoldsAfterRemove<K(!new), V>(buckets: seq<Bucket<K, V>>, states: seq<SlotState>, power: nat, hashOf: K -> nat,
                                     m: map<K, V>, t: nat, s: nat)
    requires Represents(buckets, states, power, hashOf, m) && t < |states| && states[t] == Used
    requires s < |states| && states[s] == Used && s != t
    ensures Holds(buckets, states[t := Deleted], power, hashOf, m - {buckets[t].key}, s)
  {
    assert Holds(buckets, states, power, hashOf, m, s);
    KeysDiffer(buckets, states, s, t);
    StillReached(states, Deleted, t, buckets[s].hash, s, power);
  }

  /** A table of free slots represents the empty map. */
  lemma EmptyRepresents<K(!new), V>(buckets: seq<Bucket<K, V>>, states: seq<SlotState>, power: nat, hashOf: K -> nat)
    requires |buckets| == |states| == Pow(2, power)
    requires forall s :: 0 <= s < |states| ==> states[s] == Free
    ensures Represents(buckets, states, power, hashOf, map[])
    ensures UsedCount(states) == 0 && OccupiedCount(states) == 0
  {
    AllFree(states);
  }
}
