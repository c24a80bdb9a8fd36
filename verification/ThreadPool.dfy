/**
 The thread pool behind parallel_for (cbase/threads.c) as interleaved steps of one caller and any number of
 workers. A critical section of a worker is one step; the caller holds the lock from its first enqueue until
 it waits or returns, so no worker can enter a critical section in between. Condition variables may wake
 waiters without a signal.
 */
module ThreadPool {
  import opened Results
  import opened Slices

  /** A pointer to slices[index] in the stack frame of the given call. */
  datatype Pointer = Pointer(call: nat, index: nat)

  datatype Worker =
    | Ready                         // about to take the lock and look at the queue
    | Waiting                       // blocked on thread_pool_new_work
    | Running(work: Pointer)        // took a slice out of the queue, has not called the function on it yet
    | Reporting(work: Pointer)      // the function has returned, pending not yet decremented
    | Exited

  datatype Caller =
    | Outside
    | Enqueuing(next: nat)          // holds the lock
    | Sleeping                      // blocked on thread_pool_done_work
    | Checking                      // woken, about to take the lock and look at the counters
    | Stopping                      // in thread_pool_shutdown, joining the workers
    | Fatal                         // the work queue was full

  datatype Ring = Ring(items: seq<Option<Pointer>>, head: nat, tail: nat, count: nat)

  datatype State = State(
    caller: Caller,
    workers: seq<Worker>,
    ring: Ring,
    pending: int,
    stopping: bool,
    call: nat,
    length: nat,
    threads: nat,
    slices: seq<Slice>,             // the caller's stack frame, filled in so far
    touched: multiset<int>)         // the indices the function has been run on in this call

  datatype Step =
    | Call(length: nat, maxThreads: int, minParallelItems: int, available: int)
    | Enqueue(woken: set<nat>)
    | Check
    | Take(worker: nat)
    | Sleep(worker: nat)
    | Run(worker: nat)
    | Report(worker: nat)
    | WakeWorker(worker: nat)       // spurious
    | WakeCaller                    // spurious
    | Shutdown
    | Exit(worker: nat)

  const CAPACITY: nat := PARALLEL_FOR_MAX_THREADS

  // ---- the steps ------------------------------------------------------------------------

  function RingSlot(head: nat, k: nat): (s: nat)
    ensures s < CAPACITY
  {
    (head + k) % CAPACITY
  }

  function Pushed(r: Ring, p: Pointer): Ring
    requires r.tail < |r.items|
  {
    Ring(r.items[r.tail := Some(p)], r.head, (r.tail + 1) % CAPACITY, r.count + 1)
  }

  function Popped(r: Ring): Ring
    requires r.head < |r.items| && r.count > 0
  {
    Ring(r.items[r.head := None], (r.head + 1) % CAPACITY, r.tail, r.count - 1)
  }

  function Cleared(r: Ring): Ring {
    r.(items := seq(CAPACITY, _ => None))
  }

  /** A signal wakes at least one of the waiting workers, if there are any. */
  ghost predicate Signalled(workers: seq<Worker>, woken: set<nat>) {
    && (forall w :: w in woken ==> w < |workers| && workers[w] == Waiting)
    && (woken == {} ==> forall w :: 0 <= w < |workers| ==> workers[w] != Waiting)
  }

  function Woken(workers: seq<Worker>, woken: set<nat>): (after: seq<Worker>)
    ensures |after| == |workers|
    ensures forall w: nat :: w < |workers| ==> after[w] == if w in woken then Ready else workers[w]
  {
    seq(|workers|, w requires 0 <= w < |workers| => if w in woken then Ready else workers[w])
  }

  function Started(workers: seq<Worker>, threads: nat): (after: seq<Worker>)
    ensures |after| == if |workers| < threads then threads else |workers|
    ensures workers <= after
    ensures forall w :: |workers| <= w < |after| ==> after[w] == Ready
  {
    if |workers| < threads then workers + seq(threads - |workers|, _ => Ready) else workers
  }

  ghost predicate LockFree(s: State) { !s.caller.Enqueuing? }

  predicate Is(s: State, w: nat, worker: Worker) { w < |s.workers| && s.workers[w] == worker }

  ghost predicate Enabled(s: State, step: Step) {
    match step
    case Call(_, _, _, _) => s.caller == Outside
    case Enqueue(woken) =>
      s.caller.Enqueuing? && s.caller.next < s.threads && s.ring.tail < |s.ring.items| && Signalled(s.workers, woken)
    case Check => s.caller == Checking || (s.caller.Enqueuing? && s.caller.next == s.threads)
    case Take(w) =>
      && LockFree(s) && Is(s, w, Ready) && !s.stopping && s.ring.count > 0
      && s.ring.head < |s.ring.items| && s.ring.items[s.ring.head].Some?
    case Sleep(w) => LockFree(s) && Is(s, w, Ready) && !s.stopping && s.ring.count == 0
    case Run(w) => w < |s.workers| && s.workers[w].Running? && s.workers[w].work.index < |s.slices|
    case Report(w) => LockFree(s) && w < |s.workers| && s.workers[w].Reporting?
    case WakeWorker(w) => Is(s, w, Waiting)
    case WakeCaller => s.caller == Sleeping
    case Shutdown => s.caller == Outside
    case Exit(w) => LockFree(s) && Is(s, w, Ready) && s.stopping
  }

  ghost function Apply(s: State, step: Step): State
    requires Enabled(s, step)
  {
    match step
    case Call(length, maxThreads, minParallelItems, available) =>
      Called(s, length, ThreadCount(length, maxThreads, minParallelItems, available))
    case Enqueue(woken) => Enqueued(s, woken)
    case Check => Checked(s)
    case Take(w) => s.(workers := s.workers[w := Running(s.ring.items[s.ring.head].value)], ring := Popped(s.ring))
    case Sleep(w) => s.(workers := s.workers[w := Waiting])
    case Run(w) =>
      var p := s.workers[w].work;
      var slice := s.slices[p.index];
      s.(workers := s.workers[w := Reporting(p)], touched := s.touched + Interval(slice.start, slice.end))
    case Report(w) => Reported(s, w)
    case WakeWorker(w) => s.(workers := s.workers[w := Ready])
    case WakeCaller => s.(caller := Checking)
    case Shutdown =>
      s.(caller := Stopping, stopping := true,
         workers := Woken(s.workers, set w: nat | w < |s.workers| && s.workers[w] == Waiting))
    case Exit(w) => s.(workers := s.workers[w := Exited])
  }

  /** Up to one thread the caller runs the function itself; otherwise it starts the workers it lacks and takes the lock. */
  ghost function Called(s: State, length: nat, threads: nat): State {
    var s := s.(call := s.call + 1, length := length, threads := threads, slices := [], touched := multiset{});
    if threads <= 1 then s.(touched := Interval(0, length))
    else s.(caller := Enqueuing(0), workers := Started(s.workers, threads))
  }

  ghost function Enqueued(s: State, woken: set<nat>): State
    requires Enabled(s, Enqueue(woken))
  {
    var i := s.caller.next;
    var s := s.(slices := s.slices + [SliceAt(s.length, s.threads, i)]);
    if s.ring.count >= CAPACITY then s.(caller := Fatal)
    else s.(caller := Enqueuing(i + 1), workers := Woken(s.workers, woken),
            ring := Pushed(s.ring, Pointer(s.call, i)), pending := s.pending + 1)
  }

  /** The caller waits while there is work, and otherwise forgets the queue and leaves its stack frame. */
  function Checked(s: State): State {
    if s.pending > 0 || s.ring.count > 0 then s.(caller := Sleeping)
    else s.(caller := Outside, ring := Cleared(s.ring), slices := [])
  }

  function Reported(s: State, w: nat): State
    requires w < |s.workers|
  {
    var s := s.(workers := s.workers[w := Ready], pending := s.pending - 1);
    if s.pending <= 0 && s.ring.count <= 0 && s.caller == Sleeping then s.(caller := Checking) else s
  }

  function Initial(): State {
    State(Outside, [], Ring(seq(CAPACITY, _ => None), 0, 0, 0), 0, false, 0, 0, 0, [], multiset{})
  }
}
