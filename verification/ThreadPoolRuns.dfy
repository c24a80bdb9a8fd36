/**
 Whole runs of the thread pool: parallel_for runs every index exactly once before it returns, the pool never
 gets stuck, and a measure bounds the steps that no spurious wakeup pays for.
 */
module ThreadPoolRuns {
  import opened Results
  import opened Slices
  import opened ThreadPool
  import opened ThreadPoolSafety

  /** Each step of the list is possible when its turn comes. */
  ghost predicate Possible(s: State, steps: seq<Step>)
    decreases |steps|
  {
    steps == [] || (Enabled(s, steps[0]) && Possible(Apply(s, steps[0]), steps[1..]))
  }

  ghost function After(s: State, steps: seq<Step>): State
    requires Possible(s, steps)
    decreases |steps|
  {
    if steps == [] then s else After(Apply(s, steps[0]), steps[1..])
  }

  /** The invariant holds after every run, whatever the interleaving. */
  lemma {:induction false} RunKeepsInv(s: State, steps: seq<Step>)
    requires Inv(s) && Possible(s, steps)
    ensures Inv(After(s, steps))
    decreases |steps|
  {
    hide Inv;
    if steps != [] {
      StepKeeps(s, steps[0]);
      RunKeepsInv(Apply(s, steps[0]), steps[1..]);
    }
  }

  // ---- what a return means ----------------------------------------------------------------

  ghost predicate RanEachOnce(touched: multiset<int>, length: nat) {
    forall i: int :: touched[i] == if 0 <= i < length then 1 else 0
  }

  /** No pointer into the caller's stack frame is left, in the ring or in a worker. */
  ghost predicate NoPointers(s: State) {
    && (forall k :: 0 <= k < |s.ring.items| ==> s.ring.items[k] == None)
    && (forall w :: 0 <= w < |s.workers| ==> !Busy(s.workers[w]))
  }

  lemma EachOnce(length: nat)
    ensures RanEachOnce(Interval(0, length), length)
  {
    forall i: int ensures Interval(0, length)[i] == if 0 <= i < length then 1 else 0 {
      IntervalMembers(0, length, i);
    }
  }

  /** When the caller's check lets it return, every index has been run exactly once. */
  lemma ReturnIsComplete(s: State)
    requires Inv(s) && Enabled(s, Check) && Apply(s, Check).caller == Outside
    ensures RanEachOnce(Apply(s, Check).touched, s.length) && NoPointers(Apply(s, Check))
  {
    hide RingHolds;
    EmptyHolds(s.ring, s.call, Front(s), s.call, 0);
    NoneBusy(s.workers);
    NoneHeld(s.workers, s.slices);
    assert s.touched + multiset{} == s.touched;
    EachOnce(s.length);
  }

  /** Also when the caller runs the function itself, or has nothing to run. */
  lemma InlineIsComplete(s: State, length: nat, maxThreads: int, minParallelItems: int, available: int)
    requires Inv(s) && s.caller == Outside && ThreadCount(length, maxThreads, minParallelItems, available) <= 1
    ensures RanEachOnce(Apply(s, Call(length, maxThreads, minParallelItems, available)).touched, length)
  {
    EachOnce(length);
  }

  ghost predicate IsInCall(step: Step) { !step.Call? && !step.Shutdown? }

  /** One call, from its first step to the return, under any interleaving of the workers. */
  lemma ParallelForRunsEachIndexOnce(s: State, call: Step, steps: seq<Step>)
    requires Inv(s) && call.Call? && Enabled(s, call) && Possible(Apply(s, call), steps)
    requires forall k :: 0 <= k < |steps| ==> IsInCall(steps[k])
    requires Apply(s, call).caller.Enqueuing? && After(Apply(s, call), steps).caller == Outside
    ensures RanEachOnce(After(Apply(s, call), steps).touched, call.length)
  {
    hide Inv;
    StepKeeps(s, call);
    CallReturns(Apply(s, call), steps, call.length);
  }

  ghost predicate Progressing(s: State, length: nat) {
    s.length == length && (s.caller == Outside ==> RanEachOnce(s.touched, length) && NoPointers(s))
  }

  /** From inside a call: it is still running, or everything was run when it returned and nothing changed since. */
  lemma {:induction false} CallReturns(s: State, steps: seq<Step>, length: nat)
    requires Inv(s) && Possible(s, steps) && Progressing(s, length)
    requires forall k :: 0 <= k < |steps| ==> IsInCall(steps[k])
    ensures Progressing(After(s, steps), length)
    decreases |steps|
  {
    hide Inv;
    hide Progressing;
    if steps != [] {
      StepProgresses(s, steps[0], length);
      StepKeeps(s, steps[0]);
      CallReturns(Apply(s, steps[0]), steps[1..], length);
    }
  }

  lemma StepProgresses(s: State, step: Step, length: nat)
    requires Inv(s) && Enabled(s, step) && IsInCall(step) && Progressing(s, length)
    ensures Progressing(Apply(s, step), length)
  {
    hide Inv;
    hide RanEachOnce;
    if s.caller == Outside {
      IdleStep(s, step);
    } else if step.Check? {
      hide Interval;
      if Apply(s, Check).caller == Outside { ReturnIsComplete(s); }
    } else {
      StaysInside(s, step);
    }
  }

  lemma StaysInside(s: State, step: Step)
    requires Enabled(s, step) && IsInCall(step) && !step.Check? && s.caller != Outside
    ensures Apply(s, step).length == s.length && Apply(s, step).caller != Outside
  {
  }

  /** Between calls the workers only wake up and go back to sleep. */
  lemma IdleStep(s: State, step: Step)
    requires Inv(s) && s.caller == Outside && Enabled(s, step) && IsInCall(step) && NoPointers(s)
    ensures var s' := Apply(s, step);
            s'.caller == Outside && s'.touched == s.touched && s'.length == s.length && NoPointers(s')
  {
    hide RingHolds;
    if step.Run? { BusyMeansPending(s, step.worker); }
    if step.Report? { BusyMeansPending(s, step.worker); }
  }

  // ---- the pool never gets stuck -------------------------------------------------------------

  ghost predicate Spurious(step: Step) { step.WakeWorker? || step.WakeCaller? }

  /** Something is left to do: a call is running, or a shutdown still waits for workers. */
  ghost predicate Unfinished(s: State) {
    InCall(s) || (s.caller == Stopping && exists w :: 0 <= w < |s.workers| && s.workers[w] != Exited)
  }

  ghost predicate CanMove(s: State, step: Step) { Enabled(s, step) && !Spurious(step) && IsInCall(step) }

  /** Without any spurious wakeup, some thread can always take a step. */
  lemma NeverStuck(s: State) returns (step: Step)
    requires Inv(s) && Unfinished(s)
    ensures CanMove(s, step)
  {
    match s.caller
    case Enqueuing(i) =>
      if i < s.threads { step := CanEnqueue(s); } else { step := Check; }
    case Checking =>
      step := Check;
    case Sleeping =>
      if w: nat :| w < |s.workers| && Busy(s.workers[w]) {
        step := BusyCanMove(s, w);
      } else {
        NoneBusy(s.workers);
        step := AwakeCanMove(s);
      }
    case Stopping =>
      var w :| 0 <= w < |s.workers| && s.workers[w] != Exited;
      NoneBusy(s.workers);
      step := Exit(w);
  }

  lemma CanEnqueue(s: State) returns (step: Step)
    requires Inv(s) && s.caller.Enqueuing? && s.caller.next < s.threads
    ensures CanMove(s, step)
  {
    var waiting := set w: nat | w < |s.workers| && s.workers[w] == Waiting;
    assert Signalled(s.workers, waiting) by {
      forall w: nat | w < |s.workers| && s.workers[w] == Waiting ensures w in waiting { }
    }
    step := Enqueue(waiting);
  }

  lemma BusyCanMove(s: State, w: nat) returns (step: Step)
    requires Inv(s) && s.caller == Sleeping && w < |s.workers| && Busy(s.workers[w])
    ensures CanMove(s, step)
  {
    LiveAt(s.workers, s.call, Front(s), w);
    step := if s.workers[w].Running? then Run(w) else Report(w);
  }

  /** With work in the queue and nobody busy, the worker that is awake can take some. */
  lemma AwakeCanMove(s: State) returns (step: Step)
    requires Inv(s) && s.caller == Sleeping && s.ring.count > 0
    requires forall w: nat :: w < |s.workers| ==> !Busy(s.workers[w])
    ensures CanMove(s, step)
  {
    var w: nat :| w < |s.workers| && s.workers[w] != Waiting && s.workers[w] != Exited;
    assert !Busy(s.workers[w]);
    PopHolds(s.ring, s.call, Front(s));
    step := Take(w);
  }

  // ---- a measure ------------------------------------------------------------------------------

  function Weight(worker: Worker): nat {
    match worker
    case Running(_) => 4
    case Reporting(_) => 3
    case Ready => 1
    case Waiting => 0
    case Exited => 0
  }

  function WeightOfAll(workers: seq<Worker>): nat {
    if workers == [] then 0 else WeightOfAll(workers[..|workers| - 1]) + Weight(workers[|workers| - 1])
  }

  lemma {:induction false} WeightUpdate(workers: seq<Worker>, w: nat, worker: Worker)
    requires w < |workers|
    ensures WeightOfAll(workers[w := worker]) + Weight(workers[w]) == WeightOfAll(workers) + Weight(worker)
  {
    var n := |workers| - 1;
    if w < n {
      WeightUpdate(workers[..n], w, worker);
      assert workers[w := worker][..n] == workers[..n][w := worker];
    } else {
      assert workers[w := worker][..n] == workers[..n];
    }
  }

  /** Waking workers costs at most one for each of them. */
  lemma {:induction false} WeightWoken(workers: seq<Worker>, after: seq<Worker>)
    requires |after| == |workers|
    requires forall w :: 0 <= w < |workers| ==> Weight(after[w]) <= Weight(workers[w]) + 1
    ensures WeightOfAll(after) <= WeightOfAll(workers) + |workers|
  {
    if workers != [] {
      WeightWoken(workers[..|workers| - 1], after[..|workers| - 1]);
    }
  }

  function CallerWeight(s: State): int {
    match s.caller
    case Enqueuing(i) => (s.threads - i) * (|s.workers| + 5) + 2
    case Checking => 2
    case Sleeping => 1
    case _ => 0
  }

  function Measure(s: State): int {
    CallerWeight(s) + 4 * s.ring.count + WeightOfAll(s.workers)
  }

  lemma MeasureNotNegative(s: State)
    requires Inv(s)
    ensures Measure(s) >= 0
  {
    hide RingHolds;
    if s.caller.Enqueuing? { Product(s.threads - s.caller.next, |s.workers| + 5); }
  }

  lemma Product(a: nat, b: nat)
    ensures a * b >= 0
  {
  }

  lemma OneLess(a: int, b: int)
    ensures (a - 1) * b == a * b - b
  {
  }

  /** Every step inside a call brings it closer to its return; only a spurious wakeup costs one. */
  lemma StepCosts(s: State, step: Step)
    requires Inv(s) && Enabled(s, step) && IsInCall(step)
    ensures Spurious(step) ==> Measure(Apply(s, step)) <= Measure(s) + 1
    ensures !Spurious(step) ==> Measure(Apply(s, step)) <= Measure(s) - 1
  {
    hide Inv;
    hide Wakeful;
    hide PointersLive;
    hide CallInv;
    hide WeightOfAll;
    match step
    case Enqueue(woken) =>
      RingRoom(s);
      WeightWoken(s.workers, Woken(s.workers, woken));
      OneLess(s.threads - s.caller.next, |s.workers| + 5);
    case Check =>
    case Take(w) => WeightUpdate(s.workers, w, Apply(s, step).workers[w]);
    case Sleep(w) => WeightUpdate(s.workers, w, Waiting);
    case Run(w) => WeightUpdate(s.workers, w, Reporting(s.workers[w].work));
    case Report(w) => WeightUpdate(s.workers, w, Ready);
    case WakeWorker(w) => WeightUpdate(s.workers, w, Ready);
    case WakeCaller =>
    case Exit(w) => WeightUpdate(s.workers, w, Exited);
  }

  function SpuriousCount(steps: seq<Step>): nat {
    if steps == [] then 0
    else SpuriousCount(steps[1..]) + if steps[0].WakeWorker? || steps[0].WakeCaller? then 1 else 0
  }

  /** A run inside a call has at most Measure more steps than twice its spurious wakeups. */
  lemma {:induction false} RunIsBounded(s: State, steps: seq<Step>)
    requires Inv(s) && Possible(s, steps) && forall k :: 0 <= k < |steps| ==> IsInCall(steps[k])
    ensures |steps| - 2 * SpuriousCount(steps) <= Measure(s)
    decreases |steps|
  {
    hide Inv;
    hide Measure;
    if steps == [] {
      MeasureNotNegative(s);
    } else {
      StepKeeps(s, steps[0]);
      StepCosts(s, steps[0]);
      RunIsBounded(Apply(s, steps[0]), steps[1..]);
    }
  }
}
