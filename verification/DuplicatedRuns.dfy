/** Whole runs of the hash map with duplicated keys: every key of the map has its bytes in the arena all along. */
module DuplicatedRuns {
  import opened Powers
  import opened Results
  import HashTable
  import opened HashRuns
  import opened Arena
  import opened KeyArena
  import opened DuplicatedKeys

  /** A key that is not there yet and does not fit a node of the arena. */
  predicate TooLong<V>(operation: Operation<string, V>, keys: set<string>, dataSize: nat) {
    match operation
    case Insert(key, _) => key !in keys && Align(|key| + 1) > dataSize
    case Overwrite(key, _) => key !in keys && Align(|key| + 1) > dataSize
    case _ => false
  }

  /** One operation, and the address the system maps should the arena need a node. */
  method Perform<V(0)>(m: KeyMap<V>, operation: Operation<string, V>, mapped: nat) returns (answer: Option<Answer<V>>)
    requires m.Valid() && Unmapped(m.chain, mapped, m.arena.dataSize)
    modifies m`chain, m.table, m.table.buckets, m.table.states, m.chain, set n | n in m.chain :: n.data
    ensures m.Valid() && ChainGrew(old(m.chain), m.chain, mapped)
    ensures |m.chain| > |old(m.chain)| ==> fresh(m.chain[|old(m.chain)|]) && fresh(m.chain[|old(m.chain)|].data)
    ensures m.table.buckets == old(m.table.buckets) || fresh(m.table.buckets)
    ensures m.table.states == old(m.table.states) || fresh(m.table.states)
    ensures answer.None? <==> Refused(operation, old(m.table.capacity), old(m.table.occupied))
                              || TooLong(operation, old(m.Values()).Keys, m.arena.dataSize)
    ensures answer.Some? ==> (m.Values(), answer.value) == Effect(old(m.Values()), operation)
    ensures answer.None? ==> m.Values() == old(m.Values())
    ensures answer.None? ==>
      Refused(operation, m.table.capacity, m.table.occupied) || TooLong(operation, m.Values().Keys, m.arena.dataSize)
  {
    hide KeyMap.Valid;
    hide Unmapped;
    hide ChainGrew;
    match operation
    case Insert(key, value) =>
      var r := m.Insert(key, value, mapped);
      answer := if r == TableFull || r == KeyTooLong then None else Some(Done(r == Inserted));
    case Overwrite(key, value) =>
      var r := m.Overwrite(key, value, mapped);
      answer := if r == TableFull || r == KeyTooLong then None else Some(Done(true));
    case Lookup(key) =>
      var r := m.Lookup(key);
      SameChain(m.chain, mapped);
      answer := Some(Found(r));
    case Remove(key) =>
      var found := m.Remove(key);
      SameChain(m.chain, mapped);
      answer := Some(Done(found));
    case Zero =>
      m.Zero();
      SameChain(m.chain, mapped);
      answer := Some(Done(true));
    case Resize =>
      var ok := m.Resize();
      SameChain(m.chain, mapped);
      answer := if ok then Some(Done(true)) else None;
  }

  lemma SameChain(chain: seq<ArenaNode>, mapped: nat)
    ensures ChainGrew(chain, chain, mapped)
  {
  }

  /** The addresses the system will map overlap neither each other nor the nodes there are. */
  ghost predicate FreshMappings(chain: seq<ArenaNode>, mappings: seq<nat>, from: nat, size: nat) {
    && (forall i: nat :: from <= i < |mappings| ==> Unmapped(chain, mappings[i], size))
    && (forall i: nat, j: nat :: from <= i < j < |mappings| ==> Apart(mappings[i], size, mappings[j], size))
  }

  lemma MappingsLeft(chain: seq<ArenaNode>, chain': seq<ArenaNode>, mappings: seq<nat>, n: nat, size: nat)
    requires n < |mappings| && FreshMappings(chain, mappings, n, size) && ChainGrew(chain, chain', mappings[n])
    requires chain != [] ==> chain[0].dataSize == size
    ensures FreshMappings(chain', mappings, n + 1, size)
  {
    forall i: nat | n < i < |mappings| ensures Unmapped(chain', mappings[i], size) {
      forall j: nat | j < |chain'| ensures Apart(chain'[j].begin, chain'[j].dataSize, mappings[i], size) {
        assert Unmapped(chain, mappings[i], size);
        if j < |chain| { assert chain'[j] == chain[j]; } else { assert Apart(mappings[n], size, mappings[i], size); }
      }
    }
  }

  lemma NextMapping(chain: seq<ArenaNode>, mappings: seq<nat>, n: nat, size: nat)
    requires n < |mappings| && FreshMappings(chain, mappings, n, size)
    ensures Unmapped(chain, mappings[n], size)
  {
  }

  /**
   Any sequence of operations, up to the first that is refused: the map answers what a finite map would, and
   afterwards every key has a live object of the arena to itself that begins with its bytes and a terminator,
   whatever was pushed, released and used again in between; there are no other live objects.
   */
  method PerformAll<V(0)>(m: KeyMap<V>, operations: seq<Operation<string, V>>, mappings: seq<nat>) returns (answers: seq<Answer<V>>)
    requires m.Valid() && |mappings| == |operations| && FreshMappings(m.chain, mappings, 0, m.arena.dataSize)
    modifies m`chain, m.table, m.table.buckets, m.table.states, m.chain, set n | n in m.chain :: n.data
    ensures m.Valid() && |answers| <= |operations|
    ensures answers == Answers(old(m.Values()), operations[..|answers|])
    ensures m.Values() == MapAfter(old(m.Values()), operations[..|answers|])
    ensures |answers| < |operations| ==>
      Refused(operations[|answers|], m.table.capacity, m.table.occupied) || TooLong(operations[|answers|], m.Values().Keys, m.arena.dataSize)
    ensures forall key :: key in m.Values() ==> key in m.table.contents && KeyAt(Image(m.chain), m.table.contents[key].address, key)
    ensures OneEach(m.table.contents, Objects(m.chain)) && |Objects(m.chain)| == |m.Values()|
  {
    hide KeyMap.Valid;
    hide Effect;
    hide Answers;
    hide MapAfter;
    hide FreshMappings;
    hide Unmapped;
    hide ChainGrew;
    hide Refused;
    hide TooLong;
    NothingYet(m.Values(), operations);
    answers := [];
    var n := 0;
    while n < |operations|
      invariant n == |answers| <= |operations| && m.Valid() && FreshMappings(m.chain, mappings, n, m.arena.dataSize)
      invariant m.table.buckets == old(m.table.buckets) || fresh(m.table.buckets)
      invariant m.table.states == old(m.table.states) || fresh(m.table.states)
      invariant old(m.chain) <= m.chain
      invariant forall i: nat :: |old(m.chain)| <= i < |m.chain| ==> fresh(m.chain[i]) && fresh(m.chain[i].data)
      invariant answers == Answers(old(m.Values()), operations[..n])
      invariant m.Values() == MapAfter(old(m.Values()), operations[..n])
    {
      NextMapping(m.chain, mappings, n, m.arena.dataSize);
      ghost var chain := m.chain;
      FirstSize(m);
      var answer := Perform(m, operations[n], mappings[n]);
      NewNodes(chain, m.chain, mappings[n]);
      OneMore(old(m.Values()), operations, n);
      if answer.None? {
        KeysAreThere(m);
        return;
      }
      MappingsLeft(chain, m.chain, mappings, n, m.arena.dataSize);
      answers := answers + [answer.value];
      n := n + 1;
    }
    KeysAreThere(m);
  }

  lemma FirstSize<V(0)>(m: KeyMap<V>)
    requires m.Valid()
    ensures m.chain != [] && m.chain[0].dataSize == m.arena.dataSize
  {
  }

  lemma NewNodes(chain: seq<ArenaNode>, chain': seq<ArenaNode>, mapped: nat)
    requires ChainGrew(chain, chain', mapped)
    ensures chain <= chain' && |chain'| <= |chain| + 1
  {
  }

  lemma KeysAreThere<V(0)>(m: KeyMap<V>)
    requires m.Valid()
    ensures forall key :: key in m.Values() ==> key in m.table.contents && KeyAt(Image(m.chain), m.table.contents[key].address, key)
    ensures OneEach(m.table.contents, Objects(m.chain)) && |Objects(m.chain)| == |m.Values()|
  {
    hide IsChain;
    hide OneEach;
    hide HashTable.Sound;
    AsManyObjects(m.table.contents, Objects(m.chain));
    AsManyValues(m.table.contents);
  }

  lemma AsManyValues<V>(contents: map<string, Entry<V>>)
    ensures |ValuesOf(contents)| == |contents|
  {
    assert ValuesOf(contents).Keys == contents.Keys;
  }
}
