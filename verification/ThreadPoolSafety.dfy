/**
 What every step of the thread pool keeps, under every interleaving, and what follows for parallel_for:
 each index is run exactly once before it returns, and no pointer to a slice outlives the call.
 */
module ThreadPoolSafety {
  import opened Powers
  import opened Results
  import opened Slices
  import opened ThreadPool

  // ---- sums over the workers -----------------------------------------------------------

  predicate Busy(worker: Worker) { worker.Running? || worker.Reporting? }

  function BusyCount(workers: seq<Worker>): nat {
    if workers == [] then 0
    else BusyCount(workers[..|workers| - 1]) + if Busy(workers[|workers| - 1]) then 1 else 0
  }

  lemma {:induction false} BusyUpdate(workers: seq<Worker>, w: nat, worker: Worker)
    requires w < |workers|
    ensures BusyCount(workers[w := worker]) + (if Busy(workers[w]) then 1 else 0)
         == BusyCount(workers) + (if Busy(worker) then 1 else 0)
  {
    var n := |workers| - 1;
    if w < n {
      BusyUpdate(workers[..n], w, worker);
      assert workers[w := worker][..n] == workers[..n][w := worker];
    } else {
      assert workers[w := worker][..n] == workers[..n];
    }
  }

  lemma {:induction false} NoneBusy(workers: seq<Worker>)
    ensures BusyCount(workers) == 0 <==> forall w :: 0 <= w < |workers| ==> !Busy(workers[w])
  {
    if workers != [] { NoneBusy(workers[..|workers| - 1]); }
  }

  /** The indices that a worker has taken and not yet run. */
  ghost function Held(worker: Worker, slices: seq<Slice>): multiset<int> {
    if worker.Running? && worker.work.index < |slices| then
      Interval(slices[worker.work.index].start, slices[worker.work.index].end)
    else multiset{}
  }

  ghost function HeldByAll(workers: seq<Worker>, slices: seq<Slice>): multiset<int> {
    if workers == [] then multiset{}
    else HeldByAll(workers[..|workers| - 1], slices) + Held(workers[|workers| - 1], slices)
  }

  lemma {:induction false} HeldUpdate(workers: seq<Worker>, slices: seq<Slice>, w: nat, worker: Worker)
    requires w < |workers|
    ensures HeldByAll(workers[w := worker], slices) + Held(workers[w], slices)
         == HeldByAll(workers, slices) + Held(worker, slices)
  {
    var n := |workers| - 1;
    hide Held;
    if w < n {
      HeldUpdate(workers[..n], slices, w, worker);
      assert workers[w := worker][..n] == workers[..n][w := worker];
      Exchange(HeldByAll(workers[..n][w := worker], slices), Held(workers[w], slices), HeldByAll(workers[..n], slices),
               Held(worker, slices), Held(workers[n], slices));
    } else {
      assert workers[w := worker][..n] == workers[..n];
    }
  }

  lemma Exchange(a: multiset<int>, b: multiset<int>, c: multiset<int>, d: multiset<int>, e: multiset<int>)
    requires a + b == c + d
    ensures (a + e) + b == (c + e) + d
  {
    assert (a + e) + b == (a + b) + e;
    assert (c + e) + d == (c + d) + e;
  }

  lemma AddNothing(a: multiset<int>, b: multiset<int>)
    requires a + multiset{} == b + multiset{}
    ensures a == b
  {
    assert a + multiset{} == a;
    assert b + multiset{} == b;
  }

  /** What a worker stops holding has been touched. */
  lemma MoveOver(touched: multiset<int>, run: multiset<int>, held: multiset<int>, held': multiset<int>)
    requires held' + run == held + multiset{}
    ensures (touched + run) + held' == touched + held
  {
    assert held + multiset{} == held;
    assert (touched + run) + held' == touched + (held' + run);
  }

  /** What a worker takes up extends what is accounted for. */
  lemma TakeUp(touched: multiset<int>, held: multiset<int>, held': multiset<int>, before: multiset<int>, taken: multiset<int>)
    requires held' + multiset{} == held + taken && touched + held == before
    ensures touched + held' == before + taken
  {
    assert held' + multiset{} == held';
    assert touched + held' == (touched + held) + taken;
  }

  ghost predicate SameHold(worker: Worker, slices: seq<Slice>, worker': Worker, slices': seq<Slice>) {
    Held(worker', slices') == Held(worker, slices) && Busy(worker') == Busy(worker)
  }

  lemma {:induction false} HeldSame(workers: seq<Worker>, slices: seq<Slice>, workers': seq<Worker>, slices': seq<Slice>)
    requires |workers| == |workers'|
    requires forall w :: 0 <= w < |workers| ==> SameHold(workers[w], slices, workers'[w], slices')
    ensures HeldByAll(workers', slices') == HeldByAll(workers, slices) && BusyCount(workers') == BusyCount(workers)
  {
    if workers != [] {
      var n := |workers| - 1;
      HeldSame(workers[..n], slices, workers'[..n], slices');
      assert SameHold(workers[n], slices, workers'[n], slices');
    }
  }

  lemma {:induction false} NoneHeld(workers: seq<Worker>, slices: seq<Slice>)
    requires forall w :: 0 <= w < |workers| ==> !Busy(workers[w])
    ensures HeldByAll(workers, slices) == multiset{} && BusyCount(workers) == 0
  {
    if workers != [] {
      NoneHeld(workers[..|workers| - 1], slices);
    }
  }

  // ---- the invariant --------------------------------------------------------------------

  /** The next index to leave the queue: everything before it has been taken by a worker. */
  function Front(s: State): int { |s.slices| - s.ring.count }

  /** The queue is a window of the ring that holds consecutive slices of the current call, and nothing else is left in it. */
  ghost predicate RingHolds(r: Ring, call: nat, front: nat) {
    && |r.items| == CAPACITY && r.head < CAPACITY && r.count <= CAPACITY && r.tail == RingSlot(r.head, r.count)
    && (forall k: nat :: k < r.count ==> r.items[RingSlot(r.head, k)] == Some(Pointer(call, front + k)))
    && (forall k: nat :: r.count <= k < CAPACITY ==> r.items[RingSlot(r.head, k)] == None)
  }

  /** Workers hold only pointers to slices of the current call that have left the queue. */
  ghost predicate PointersLive(workers: seq<Worker>, call: nat, front: int) {
    forall w :: 0 <= w < |workers| && Busy(workers[w]) ==> workers[w].work.call == call && workers[w].work.index < front
  }

  ghost predicate SlicesCut(slices: seq<Slice>, length: nat, threads: nat) {
    |slices| <= threads && forall i :: 0 <= i < |slices| ==> slices[i] == SliceAt(length, threads, i)
  }

  /** What has been run, and what workers have taken, is together what has left the queue. */
  ghost predicate Accounted(s: State) {
    s.threads > 0 && Front(s) >= 0
    && s.touched + HeldByAll(s.workers, s.slices) == Interval(0, Cut(s.length, s.threads, Front(s)))
  }

  ghost predicate SomeoneAwake(workers: seq<Worker>) {
    exists w: nat :: w < |workers| && workers[w] != Waiting && workers[w] != Exited
  }

  ghost predicate NoneIn(workers: seq<Worker>, worker: Worker) {
    forall w :: 0 <= w < |workers| ==> workers[w] != worker
  }

  predicate InCall(s: State) { s.caller.Enqueuing? || s.caller == Sleeping || s.caller == Checking }

  /** The caller sleeps only while there is work pending, and the queue is never full. */
  predicate CallerInv(s: State) {
    match s.caller
    case Outside => s.pending == 0 && s.slices == [] && !s.stopping
    case Enqueuing(i) => !s.stopping && i == |s.slices| <= s.threads
    case Sleeping => !s.stopping && |s.slices| == s.threads && s.pending > 0
    case Checking => !s.stopping && |s.slices| == s.threads
    case Stopping => s.stopping && s.pending == 0 && s.slices == []
    case Fatal => false
  }

  /** pending counts the slices that are queued or taken. */
  ghost predicate Counters(s: State) {
    Front(s) >= 0 && s.pending == s.ring.count + BusyCount(s.workers)
  }

  ghost predicate CallInv(s: State) {
    InCall(s) ==> 2 <= s.threads <= |s.workers| && s.threads <= CAPACITY && SlicesCut(s.slices, s.length, s.threads) && Accounted(s)
  }

  /** While there is work in the queue some worker will look at it. */
  ghost predicate Wakeful(s: State) {
    && (s.ring.count > 0 ==> SomeoneAwake(s.workers))
    && NoneIn(s.workers, if s.stopping then Waiting else Exited)
  }

  ghost predicate Inv(s: State) {
    && CallerInv(s) && Counters(s) && RingHolds(s.ring, s.call, Front(s))
    && PointersLive(s.workers, s.call, Front(s)) && CallInv(s) && Wakeful(s)
  }

  lemma InvParts(s: State)
    ensures Inv(s) <==> (CallerInv(s) && Counters(s) && RingHolds(s.ring, s.call, Front(s))
                         && PointersLive(s.workers, s.call, Front(s)) && CallInv(s) && Wakeful(s))
  {
  }

  lemma InitialInv()
    ensures Inv(Initial())
  {
    hide Inv;
    NothingStarted(Initial());
  }

  lemma NothingStarted(s: State)
    requires s.caller == Outside && s.workers == [] && s.slices == [] && s.pending == 0 && !s.stopping
    requires |s.ring.items| == CAPACITY && s.ring.head == s.ring.tail == s.ring.count == 0
    requires forall k: nat :: k < CAPACITY ==> s.ring.items[k] == None
    ensures Inv(s)
  {
    hide RingHolds;
    NothingQueued(s.ring, s.call);
  }

  lemma NothingQueued(r: Ring, call: nat)
    requires |r.items| == CAPACITY && r.head == r.tail == r.count == 0
    requires forall k: nat :: k < CAPACITY ==> r.items[k] == None
    ensures RingHolds(r, call, 0)
  {
  }

  // ---- the ring ---------------------------------------------------------------------------

  lemma RingSlotsDiffer(head: nat, j: nat, k: nat)
    requires head < CAPACITY && j < CAPACITY && k < CAPACITY && j != k
    ensures RingSlot(head, j) != RingSlot(head, k)
  {
  }

  lemma NextSlot(head: nat, k: nat)
    ensures (RingSlot(head, k) + 1) % CAPACITY == RingSlot(head, k + 1)
    ensures RingSlot((head + 1) % CAPACITY, k) == RingSlot(head, k + 1)
    ensures head < CAPACITY ==> RingSlot(head, 0) == RingSlot(head, CAPACITY) == head
  {
    ModStep(head + k, 1, CAPACITY);
    ModStep(head, k, CAPACITY);
    ModStep(head, 1, CAPACITY);
    ModStep(head + 1, k, CAPACITY);
    ModStep(CAPACITY, head, CAPACITY);
  }

  lemma ModStep(a: nat, b: nat, c: nat)
    requires c > 0
    ensures (a % c + b) % c == (a + b) % c
  {
    DivMod(a, c);
    DivMod(a % c + b, c);
    MulDist(c, a / c, (a % c + b) / c);
    DivModUnique(a + b, c, a / c + (a % c + b) / c, (a % c + b) % c);
  }

  lemma PushHolds(r: Ring, call: nat, front: nat)
    requires RingHolds(r, call, front) && r.count < CAPACITY
    ensures RingHolds(Pushed(r, Pointer(call, front + r.count)), call, front)
  {
    hide RingSlot;
    NextSlot(r.head, r.count);
    var after := Pushed(r, Pointer(call, front + r.count));
    forall k: nat | k < CAPACITY && k != r.count ensures after.items[RingSlot(r.head, k)] == r.items[RingSlot(r.head, k)] {
      RingSlotsDiffer(r.head, k, r.count);
    }
  }

  lemma PopHolds(r: Ring, call: nat, front: nat)
    requires RingHolds(r, call, front) && r.count > 0
    ensures r.items[r.head] == Some(Pointer(call, front))
    ensures RingHolds(Popped(r), call, front + 1)
  {
    hide RingSlot;
    var after := Popped(r);
    NextSlot(r.head, 0);
    NextSlot(r.head, r.count - 1);
    assert r.items[RingSlot(r.head, 0)] == Some(Pointer(call, front + 0));
    forall k: nat | k < CAPACITY
      ensures after.items[RingSlot(after.head, k)] == if k < after.count then Some(Pointer(call, front + 1 + k)) else None
    {
      NextSlot(r.head, k);
      if k + 1 < CAPACITY {
        RingSlotsDiffer(r.head, k + 1, 0);
        if k < after.count { assert r.items[RingSlot(r.head, k + 1)] == Some(Pointer(call, front + (k + 1))); }
      }
    }
  }

  /** An empty ring stays empty when the caller clears it, and says nothing about which call it belonged to. */
  lemma EmptyHolds(r: Ring, call: nat, front: nat, call': nat, front': nat)
    requires RingHolds(r, call, front) && r.count == 0
    ensures Cleared(r) == r && RingHolds(r, call', front')
  {
    forall s: nat | s < CAPACITY ensures r.items[s] == None {
      var k := if s >= r.head then s - r.head else s + CAPACITY - r.head;
      assert RingSlot(r.head, k) == s;
    }
    assert Cleared(r).items == r.items;
  }

  // ---- one worker changes ---------------------------------------------------------------

  lemma LiveUpdate(workers: seq<Worker>, call: nat, front: int, w: nat, worker: Worker, front': int)
    requires PointersLive(workers, call, front) && w < |workers| && front <= front'
    requires Busy(worker) ==> worker.work.call == call && worker.work.index < front'
    ensures PointersLive(workers[w := worker], call, front')
  {
  }

  lemma LiveAt(workers: seq<Worker>, call: nat, front: int, w: nat)
    requires PointersLive(workers, call, front) && w < |workers| && Busy(workers[w])
    ensures workers[w].work.call == call && workers[w].work.index < front
  {
  }

  /** A worker that gets up or goes back to the queue keeps the others awake. */
  lemma AwakeUpdate(workers: seq<Worker>, w: nat, worker: Worker, absent: Worker)
    requires NoneIn(workers, absent) && w < |workers| && worker != absent && worker != Waiting && worker != Exited
    ensures SomeoneAwake(workers[w := worker]) && NoneIn(workers[w := worker], absent)
  {
    assert workers[w := worker][w] == worker;
  }

  lemma BusyMeansPending(s: State, w: nat)
    requires Inv(s) && w < |s.workers| && Busy(s.workers[w])
    ensures s.pending > 0 && InCall(s)
  {
    NoneBusy(s.workers);
  }

  /** Moving worker w between states that hold nothing. */
  lemma IdleUpdate(s: State, w: nat, worker: Worker)
    requires w < |s.workers| && !Busy(s.workers[w]) && !Busy(worker)
    ensures BusyCount(s.workers[w := worker]) == BusyCount(s.workers)
    ensures HeldByAll(s.workers[w := worker], s.slices) == HeldByAll(s.workers, s.slices)
  {
    BusyUpdate(s.workers, w, worker);
    HeldUpdate(s.workers, s.slices, w, worker);
    AddNothing(HeldByAll(s.workers[w := worker], s.slices), HeldByAll(s.workers, s.slices));
  }

  // ---- each step keeps the invariant -----------------------------------------------------------

  lemma CallKeeps(s: State, length: nat, threads: nat)
    requires Inv(s) && s.caller == Outside && threads <= CAPACITY
    ensures Inv(Called(s, length, threads))
  {
    hide Inv;
    hide RingHolds;
    hide PointersLive;
    hide SlicesCut;
    hide BusyCount;
    hide HeldByAll;
    hide Interval;
    hide SomeoneAwake;
    hide NoneIn;
    InvParts(s);
    var s' := Called(s, length, threads);
    EmptyHolds(s.ring, s.call, Front(s), s'.call, 0);
    NoneBusy(s.workers);
    NobodyWorks(s, s'.workers, s'.call);
    if threads > 1 { EmptyCut(s'); }
    InvParts(s');
  }

  /** Between calls no worker holds anything, and workers started now hold nothing either. */
  lemma NobodyWorks(s: State, workers: seq<Worker>, call: nat)
    requires Inv(s) && s.caller == Outside && |s.workers| <= |workers|
    requires s.workers <= workers && forall w :: |s.workers| <= w < |workers| ==> workers[w] == Ready
    ensures HeldByAll(workers, []) == multiset{} && BusyCount(workers) == 0
    ensures PointersLive(workers, call, 0) && NoneIn(workers, Exited)
  {
    hide RingHolds;
    NoneBusy(s.workers);
    NoneHeld(workers, []);
  }

  /** Nothing is accounted for when no slice has been cut. */
  lemma EmptyCut(s: State)
    requires s.slices == [] && s.ring.count == 0 && s.touched == multiset{} && HeldByAll(s.workers, []) == multiset{}
    ensures SlicesCut(s.slices, s.length, s.threads)
    ensures s.threads > 0 ==> Accounted(s)
  {
  }

  lemma EnqueueKeeps(s: State, woken: set<nat>)
    requires Inv(s) && Enabled(s, Enqueue(woken))
    ensures Inv(Enqueued(s, woken))
  {
    hide Inv;
    hide RingHolds;
    hide PointersLive;
    hide SlicesCut;
    hide BusyCount;
    hide HeldByAll;
    hide Interval;
    hide SomeoneAwake;
    hide NoneIn;
    InvParts(s);
    PushHolds(s.ring, s.call, Front(s));
    EnqueueHeld(s, woken);
    EnqueueWakes(s.workers, woken);
    OneMoreCut(s.slices, s.length, s.threads);
    InvParts(Enqueued(s, woken));
  }

  /** The queue is never full when the caller enqueues: it holds no more than the slices before this one. */
  lemma RingRoom(s: State)
    requires Inv(s) && s.caller.Enqueuing? && s.caller.next < s.threads
    ensures s.ring.count < CAPACITY
  {
  }

  lemma EnqueueHeld(s: State, woken: set<nat>)
    requires Inv(s) && Enabled(s, Enqueue(woken))
    ensures HeldByAll(Woken(s.workers, woken), s.slices + [SliceAt(s.length, s.threads, s.caller.next)])
         == HeldByAll(s.workers, s.slices)
    ensures BusyCount(Woken(s.workers, woken)) == BusyCount(s.workers)
    ensures PointersLive(Woken(s.workers, woken), s.call, Front(s))
  {
    hide Inv;
    hide RingHolds;
    hide SomeoneAwake;
    hide NoneIn;
    hide PointersLive;
    InvParts(s);
    var slices := s.slices + [SliceAt(s.length, s.threads, s.caller.next)];
    forall w | 0 <= w < |s.workers| ensures SameHold(s.workers[w], s.slices, Woken(s.workers, woken)[w], slices) {
      if Busy(s.workers[w]) { LiveAt(s.workers, s.call, Front(s), w); }
    }
    HeldSame(s.workers, s.slices, Woken(s.workers, woken), slices);
    LiveWoken(s.workers, woken, s.call, Front(s));
  }

  lemma LiveWoken(workers: seq<Worker>, woken: set<nat>, call: nat, front: int)
    requires PointersLive(workers, call, front)
    ensures PointersLive(Woken(workers, woken), call, front)
  {
  }

  lemma OneMoreCut(slices: seq<Slice>, length: nat, threads: nat)
    requires SlicesCut(slices, length, threads) && |slices| < threads
    ensures SlicesCut(slices + [SliceAt(length, threads, |slices|)], length, threads)
  {
  }

  /** After a signal some worker is awake. */
  lemma EnqueueWakes(workers: seq<Worker>, woken: set<nat>)
    requires |workers| > 0 && Signalled(workers, woken) && NoneIn(workers, Exited)
    ensures SomeoneAwake(Woken(workers, woken)) && NoneIn(Woken(workers, woken), Exited)
  {
    var after := Woken(workers, woken);
    if woken == {} {
      assert after[0] == workers[0];
    } else {
      var w :| w in woken;
      assert after[w] == Ready;
    }
  }

  lemma CheckKeeps(s: State)
    requires Inv(s) && Enabled(s, Check)
    ensures Inv(Checked(s))
  {
    if s.pending <= 0 {
      EmptyHolds(s.ring, s.call, Front(s), s.call, 0);
      NoneBusy(s.workers);
    }
    hide RingHolds;
  }

  lemma TakeKeeps(s: State, w: nat)
    requires Inv(s) && Enabled(s, Take(w))
    ensures Inv(Apply(s, Take(w)))
  {
    hide Inv;
    hide RingHolds;
    hide PointersLive;
    hide SlicesCut;
    hide BusyCount;
    hide HeldByAll;
    hide Interval;
    hide SomeoneAwake;
    hide NoneIn;
    InvParts(s);
    var p := Pointer(s.call, Front(s));
    PopHolds(s.ring, s.call, Front(s));
    LiveUpdate(s.workers, s.call, Front(s), w, Running(p), Front(s) + 1);
    AwakeUpdate(s.workers, w, Running(p), Exited);
    BusyUpdate(s.workers, w, Running(p));
    TakeAccounts(s, w);
    InvParts(Apply(s, Take(w)));
  }

  /** Taking the front slice moves the frontier by exactly what the worker now holds. */
  lemma TakeAccounts(s: State, w: nat)
    requires Inv(s) && InCall(s) && w < |s.workers| && s.workers[w] == Ready && s.ring.count > 0
    ensures s.touched + HeldByAll(s.workers[w := Running(Pointer(s.call, Front(s)))], s.slices)
         == Interval(0, Cut(s.length, s.threads, Front(s) + 1))
  {
    hide RingHolds;
    hide PointersLive;
    var front := Front(s);
    var p := Pointer(s.call, front);
    HeldUpdate(s.workers, s.slices, w, Running(p));
    assert s.slices[front] == SliceAt(s.length, s.threads, front);
    SliceIsCut(s.length, s.threads, front);
    var a, b := Cut(s.length, s.threads, front), Cut(s.length, s.threads, front + 1);
    hide *;
    IntervalsJoin(0, a, b);
    TakeUp(s.touched, HeldByAll(s.workers, s.slices), HeldByAll(s.workers[w := Running(p)], s.slices), Interval(0, a), Interval(a, b));
  }

  lemma RunKeeps(s: State, w: nat)
    requires Inv(s) && Enabled(s, Run(w))
    ensures Inv(Apply(s, Run(w)))
  {
    hide Inv;
    hide RingHolds;
    hide PointersLive;
    hide SlicesCut;
    hide BusyCount;
    hide HeldByAll;
    hide Interval;
    hide SomeoneAwake;
    hide NoneIn;
    InvParts(s);
    var p := s.workers[w].work;
    BusyMeansPending(s, w);
    LiveAt(s.workers, s.call, Front(s), w);
    LiveUpdate(s.workers, s.call, Front(s), w, Reporting(p), Front(s));
    AwakeUpdate(s.workers, w, Reporting(p), Exited);
    BusyUpdate(s.workers, w, Reporting(p));
    HeldUpdate(s.workers, s.slices, w, Reporting(p));
    MoveOver(s.touched, Held(Running(p), s.slices), HeldByAll(s.workers, s.slices),
             HeldByAll(s.workers[w := Reporting(p)], s.slices));
    InvParts(Apply(s, Run(w)));
  }

  /** The report of a worker signals the sleeping caller exactly when nothing is queued and nobody is busy any more. */
  lemma ReportWakes(s: State, w: nat)
    requires Inv(s) && Enabled(s, Report(w)) && s.caller == Sleeping
    ensures Reported(s, w).caller ==
      if s.ring.count == 0 && forall v :: 0 <= v < |s.workers| && v != w ==> !Busy(s.workers[v]) then Checking else Sleeping
  {
    hide Inv;
    InvParts(s);
    var after := s.workers[w := Ready];
    BusyUpdate(s.workers, w, Ready);
    NoneBusy(after);
    assert s.pending - 1 == s.ring.count + BusyCount(after);
    assert forall v :: 0 <= v < |s.workers| && v != w ==> after[v] == s.workers[v];
    assert (forall v :: 0 <= v < |after| ==> !Busy(after[v]))
      <==> (forall v :: 0 <= v < |s.workers| && v != w ==> !Busy(s.workers[v]));
  }

  lemma ReportKeeps(s: State, w: nat)
    requires Inv(s) && Enabled(s, Report(w))
    ensures Inv(Reported(s, w))
  {
    hide Inv;
    hide RingHolds;
    hide PointersLive;
    hide SlicesCut;
    hide BusyCount;
    hide HeldByAll;
    hide Interval;
    hide SomeoneAwake;
    hide NoneIn;
    InvParts(s);
    BusyMeansPending(s, w);
    LiveUpdate(s.workers, s.call, Front(s), w, Ready, Front(s));
    AwakeUpdate(s.workers, w, Ready, Exited);
    BusyUpdate(s.workers, w, Ready);
    HeldUpdate(s.workers, s.slices, w, Ready);
    AddNothing(HeldByAll(s.workers[w := Ready], s.slices), HeldByAll(s.workers, s.slices));
    InvParts(Reported(s, w));
  }

  lemma SleepKeeps(s: State, w: nat)
    requires Inv(s) && Enabled(s, Sleep(w))
    ensures Inv(Apply(s, Sleep(w)))
  {
    hide Inv;
    hide RingHolds;
    hide PointersLive;
    hide SlicesCut;
    hide BusyCount;
    hide HeldByAll;
    hide Interval;
    hide SomeoneAwake;
    InvParts(s);
    LiveUpdate(s.workers, s.call, Front(s), w, Waiting, Front(s));
    IdleUpdate(s, w, Waiting);
    InvParts(Apply(s, Sleep(w)));
  }

  lemma WakeWorkerKeeps(s: State, w: nat)
    requires Inv(s) && Enabled(s, WakeWorker(w))
    ensures Inv(Apply(s, WakeWorker(w)))
  {
    hide Inv;
    hide RingHolds;
    hide PointersLive;
    hide SlicesCut;
    hide BusyCount;
    hide HeldByAll;
    hide Interval;
    hide SomeoneAwake;
    hide NoneIn;
    InvParts(s);
    LiveUpdate(s.workers, s.call, Front(s), w, Ready, Front(s));
    AwakeUpdate(s.workers, w, Ready, if s.stopping then Waiting else Exited);
    IdleUpdate(s, w, Ready);
    InvParts(Apply(s, WakeWorker(w)));
  }

  lemma WakeCallerKeeps(s: State)
    requires Inv(s) && Enabled(s, WakeCaller)
    ensures Inv(Apply(s, WakeCaller))
  {
    hide Inv;
    hide RingHolds;
    hide PointersLive;
    hide SlicesCut;
    hide BusyCount;
    hide HeldByAll;
    hide Interval;
    hide SomeoneAwake;
    hide NoneIn;
    InvParts(s);
    InvParts(Apply(s, WakeCaller));
  }

  lemma ExitKeeps(s: State, w: nat)
    requires Inv(s) && Enabled(s, Exit(w))
    ensures Inv(Apply(s, Exit(w)))
  {
    hide Inv;
    hide RingHolds;
    hide PointersLive;
    hide SlicesCut;
    hide BusyCount;
    hide HeldByAll;
    hide Interval;
    hide SomeoneAwake;
    InvParts(s);
    LiveUpdate(s.workers, s.call, Front(s), w, Exited, Front(s));
    IdleUpdate(s, w, Exited);
    InvParts(Apply(s, Exit(w)));
  }

  lemma ShutdownKeeps(s: State)
    requires Inv(s) && Enabled(s, Shutdown)
    ensures Inv(Apply(s, Shutdown))
  {
    hide RingHolds;
    NoneBusy(s.workers);
    NoneBusy(Apply(s, Shutdown).workers);
  }

  /** Every step of the caller or of any worker keeps the invariant. */
  lemma StepKeeps(s: State, step: Step)
    requires Inv(s) && Enabled(s, step)
    ensures Inv(Apply(s, step))
  {
    hide Inv;
    match step
    case Call(length, maxThreads, minParallelItems, available) =>
      CallKeeps(s, length, ThreadCount(length, maxThreads, minParallelItems, available));
    case Enqueue(woken) => EnqueueKeeps(s, woken);
    case Check => CheckKeeps(s);
    case Take(w) => TakeKeeps(s, w);
    case Sleep(w) => SleepKeeps(s, w);
    case Run(w) => RunKeeps(s, w);
    case Report(w) => ReportKeeps(s, w);
    case WakeWorker(w) => WakeWorkerKeeps(s, w);
    case WakeCaller => WakeCallerKeeps(s);
    case Shutdown => ShutdownKeeps(s);
    case Exit(w) => ExitKeeps(s, w);
  }
}
