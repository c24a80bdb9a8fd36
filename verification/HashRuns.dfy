/** Whole runs of the hash map: every sequence of operations answers what a finite map would. */
module HashRuns {
  import opened Results
  import opened Tables
  import opened HashTable

  datatype Operation<K, V> =
    | Insert(key: K, value: V)
    | Overwrite(key: K, value: V)
    | Lookup(key: K)
    | Remove(key: K)
    | Zero
    | Resize

  datatype Answer<V> = Done(yes: bool) | Found(value: Option<V>)

  /** The operation on a finite map: what it leaves and what it answers. */
  function Effect<K, V>(m: map<K, V>, operation: Operation<K, V>): (map<K, V>, Answer<V>) {
    match operation
    case Insert(key, value) => if key in m then (m, Done(false)) else (m[key := value], Done(true))
    case Overwrite(key, value) => (m[key := value], Done(true))
    case Lookup(key) => (m, Found(if key in m then Some(m[key]) else None))
    case Remove(key) => (m - {key}, Done(key in m))
    case Zero => (map[], Done(true))
    case Resize => (m, Done(true))
  }

  /** The map behind a sequence of operations, and their answers. */
  function MapAfter<K, V>(m: map<K, V>, operations: seq<Operation<K, V>>): map<K, V> {
    if operations == [] then m else Effect(MapAfter(m, operations[..|operations| - 1]), operations[|operations| - 1]).0
  }

  function Answers<K, V>(m: map<K, V>, operations: seq<Operation<K, V>>): seq<Answer<V>> {
    if operations == [] then []
    else
      var n := |operations| - 1;
      Answers(m, operations[..n]) + [Effect(MapAfter(m, operations[..n]), operations[n]).1]
  }

  /** At the largest capacity a resize is refused, and so is a writer when three quarters of the slots are occupied. */
  predicate Refused<K, V>(operation: Operation<K, V>, capacity: nat, occupied: nat) {
    && capacity == MAX_CAPACITY
    && match operation
       case Resize => true
       case Insert(_, _) => occupied * 4 >= capacity * 3
       case Overwrite(_, _) => occupied * 4 >= capacity * 3
       case _ => false
  }

  /** One operation; nothing is answered exactly when the table would have to grow beyond its limit. */
  method Perform<K(==,0,!new), V(0)>(table: HashMap<K, V>, operation: Operation<K, V>) returns (answer: Option<Answer<V>>)
    requires table.Valid()
    modifies table, table.buckets, table.states
    ensures table.Valid()
    ensures table.buckets == old(table.buckets) || fresh(table.buckets)
    ensures table.states == old(table.states) || fresh(table.states)
    ensures answer.Some? ==> (table.contents, answer.value) == Effect(old(table.contents), operation)
    ensures answer.None? <==> Refused(operation, old(table.capacity), old(table.occupied))
    ensures answer.None? ==> table.contents == old(table.contents)
    ensures answer.None? ==> table.capacity == old(table.capacity) && table.occupied == old(table.occupied)
  {
    hide Sound;
    match operation
    case Insert(key, value) =>
      var r := table.Insert(key, value);
      answer := if r == TooBig then None else Some(Done(r == Inserted));
    case Overwrite(key, value) =>
      var ok := table.Overwrite(key, value);
      answer := if ok then Some(Done(true)) else None;
    case Lookup(key) =>
      var r := table.Lookup(key);
      answer := Some(Found(r));
    case Remove(key) =>
      var found := table.Remove(key);
      answer := Some(Done(found));
    case Zero =>
      table.Zero();
      answer := Some(Done(true));
    case Resize =>
      var ok := table.Resize();
      answer := if ok then Some(Done(true)) else None;
  }

  lemma OneMore<K, V>(m: map<K, V>, operations: seq<Operation<K, V>>, n: nat)
    requires n < |operations|
    ensures MapAfter(m, operations[..n + 1]) == Effect(MapAfter(m, operations[..n]), operations[n]).0
    ensures Answers(m, operations[..n + 1])
         == Answers(m, operations[..n]) + [Effect(MapAfter(m, operations[..n]), operations[n]).1]
  {
    assert operations[..n + 1][..n] == operations[..n];
  }

  lemma NothingYet<K, V>(m: map<K, V>, operations: seq<Operation<K, V>>)
    ensures MapAfter(m, operations[..0]) == m && Answers(m, operations[..0]) == []
  {
  }

  /**
   Any sequence of operations on a table answers, and leaves behind, what it would on a finite map, up to the first
   operation that is refused.
   */
  method PerformAll<K(==,0,!new), V(0)>(table: HashMap<K, V>, operations: seq<Operation<K, V>>) returns (answers: seq<Answer<V>>)
    requires table.Valid()
    modifies table, table.buckets, table.states
    ensures table.Valid() && |answers| <= |operations|
    ensures answers == Answers(old(table.contents), operations[..|answers|])
    ensures table.contents == MapAfter(old(table.contents), operations[..|answers|])
    ensures |answers| < |operations| ==> Refused(operations[|answers|], table.capacity, table.occupied)
  {
    hide Sound;
    hide Effect;
    hide Answers;
    hide MapAfter;
    NothingYet(table.contents, operations);
    answers := [];
    var n := 0;
    while n < |operations|
      invariant n == |answers| <= |operations| && table.Valid()
      invariant table.buckets == old(table.buckets) || fresh(table.buckets)
      invariant table.states == old(table.states) || fresh(table.states)
      invariant answers == Answers(old(table.contents), operations[..n])
      invariant table.contents == MapAfter(old(table.contents), operations[..n])
    {
      var answer := Perform(table, operations[n]);
      OneMore(old(table.contents), operations, n);
      if answer.None? { return; }
      answers := answers + [answer.value];
      n := n + 1;
    }
  }
}
