/** Where the queue's progress stops: the worker sleeps on a condition variable without
    looking at the dispatched timestamp or the shutdown flag again, and leaves on shutdown
    without looking at the pending list. */
module QueueLiveness {
  import opened ClikCommands
  import opened CommandQueue
  import opened QueueProtocol

  lemma RunsStep(k: Kernels, s: State, step: Step, steps: seq<Step>, t: State)
    requires Enabled(s, step) && Runs(k, Apply(k, s, step), steps, t)
    ensures Runs(k, s, [step] + steps, t)
  {
    assert ([step] + steps)[1..] == steps;
  }

  lemma {:induction false} RunsConcat(k: Kernels, s: State, xs: seq<Step>, u: State, ys: seq<Step>, t: State)
    requires Runs(k, s, xs, u) && Runs(k, u, ys, t)
    ensures Runs(k, s, xs + ys, t)
    decreases |xs|
  {
    if xs == [] {
      assert xs + ys == ys;
    } else {
      RunsConcat(k, Apply(k, s, xs[0]), xs[1..], u, ys, t);
      assert (xs + ys)[1..] == xs[1..] + ys;
    }
  }

  // ------------------------------------------------ when a wait returns

  /** The worker's own steps, woken only by a notification. */
  predicate WorkerStep(step: Step) {
    step == Wake(false) || step == StartCommand || step == ExecuteCommand || step == RetireCommand || step == Rest
  }

  ghost predicate WorkerRun(k: Kernels, s: State, steps: seq<Step>, t: State) {
    Runs(k, s, steps, t) && forall step :: step in steps ==> WorkerStep(step)
  }

  /** The worker's own steps leave alone what is accepted, dispatched and waited for. */
  lemma {:induction false} WorkerRunKeeps(k: Kernels, s: State, steps: seq<Step>, t: State)
    requires WorkerRun(k, s, steps, t)
    ensures t.waiters == s.waiters && t.q.dispatched == s.q.dispatched && t.q.next == s.q.next
    decreases |steps|
  {
    if steps != [] {
      assert steps[0] in steps && forall step :: step in steps[1..] ==> step in steps;
      WorkerRunKeeps(k, Apply(k, s, steps[0]), steps[1..], t);
    }
  }

  predicate Busy(s: State) {
    s.worker.Sweeping? || s.worker.Running?
  }

  function Left(s: State): int
    requires Busy(s)
  {
    3 * (s.worker.current - s.q.executed) + if s.worker.Sweeping? then 3 else if s.worker.done then 1 else 2
  }

  /** A busy worker has a next step, and each brings it closer to the end of its sweep. */
  lemma SweepStep(k: Kernels, s: State) returns (step: Step, u: State)
    requires Consistent(s) && Agrees(k, s) && Busy(s)
    ensures WorkerStep(step) && Enabled(s, step) && u == Apply(k, s, step) && Consistent(u) && Agrees(k, u)
    ensures u.waiters == s.waiters
    ensures if Busy(u) then u.worker.current == s.worker.current && 0 <= Left(u) < Left(s)
            else u.worker == Parked(false) && u.q.executed == s.worker.current
  {
    step := if s.worker.Running? then (if s.worker.done then RetireCommand else ExecuteCommand)
            else if HeadDue(s.q, s.worker.current) then StartCommand else Rest;
    u := Apply(k, s, step);
    StepKeeps(k, s, step);
  }

  lemma SweepEnds(k: Kernels, s: State) returns (steps: seq<Step>, t: State)
    requires Consistent(s) && Agrees(k, s) && Busy(s)
    ensures WorkerRun(k, s, steps, t) && Consistent(t) && t.waiters == s.waiters
    ensures t.worker == Parked(false) && t.q.executed == s.worker.current
    decreases Left(s)
  {
    var step, u := SweepStep(k, s);
    if Busy(u) {
      steps, t := SweepEnds(k, u);
    } else {
      steps, t := [], u;
    }
    RunsStep(k, s, step, steps, t);
    steps := [step] + steps;
  }

  /** Timestamp `n` has been executed, or the worker will get there on its own. */
  predicate Served(s: State, n: nat) {
    || s.q.executed >= n
    || (s.worker == Parked(true) && !s.q.shutdown)
    || (Busy(s) && s.worker.current >= n)
  }

  lemma UnservedStep(k: Kernels, s: State, n: nat, step: Step)
    requires Consistent(s) && Agrees(k, s) && Enabled(s, step) && WorkerStep(step) && !Served(s, n)
    ensures Consistent(Apply(k, s, step)) && Agrees(k, Apply(k, s, step)) && !Served(Apply(k, s, step), n)
  {
    StepKeeps(k, s, step);
  }

  lemma {:induction false} UnservedRun(k: Kernels, s: State, n: nat, steps: seq<Step>, t: State)
    requires Consistent(s) && Agrees(k, s) && WorkerRun(k, s, steps, t) && !Served(s, n)
    ensures !Served(t, n)
    decreases |steps|
  {
    if steps != [] {
      assert steps[0] in steps && forall step :: step in steps[1..] ==> step in steps;
      UnservedStep(k, s, n, steps[0]);
      UnservedRun(k, Apply(k, s, steps[0]), n, steps[1..], t);
    }
  }

  /** A notified worker takes up everything dispatched. */
  lemma WakesUp(k: Kernels, s: State) returns (t: State)
    requires Consistent(s) && Agrees(k, s) && s.worker == Parked(true) && !s.q.shutdown
    ensures Runs(k, s, [Wake(false)], t) && Consistent(t) && Agrees(k, t)
    ensures t.worker == Sweeping(s.q.executed, s.q.dispatched) && t.waiters == s.waiters && t.q == s.q
  {
    t := Apply(k, s, Wake(false));
    StepKeeps(k, s, Wake(false));
    RunsStep(k, s, Wake(false), [], t);
  }

  lemma ServedReturns(k: Kernels, s: State, thread: nat) returns (steps: seq<Step>, t: State)
    requires Consistent(s) && Agrees(k, s) && thread in s.waiters && Served(s, s.waiters[thread].snapshot)
    ensures WorkerRun(k, s, steps, t) && Enabled(t, EndWait(thread))
  {
    if Busy(s) {
      steps, t := SweepEnds(k, s);
    } else if s.q.executed >= s.waiters[thread].snapshot {
      steps, t := [], s;
    } else {
      var u := WakesUp(k, s);
      var rest;
      rest, t := SweepEnds(k, u);
      RunsConcat(k, s, [Wake(false)], u, rest, t);
      steps := [Wake(false)] + rest;
    }
  }

  /** With no help from other threads and no spurious wake-up, a wait returns exactly when its
      timestamp has been executed, the worker has been notified and is not to shut down, or
      the sweep in progress read a dispatched timestamp that covers it. */
  lemma WaitReturnsExactly(k: Kernels, w: World, before: seq<Step>, s: State, thread: nat)
    requires Reached(k, w, before, s) && thread in s.waiters
    ensures (exists steps, t :: WorkerRun(k, s, steps, t) && Enabled(t, EndWait(thread)))
       <==> Served(s, s.waiters[thread].snapshot)
  {
    ReachedKeeps(k, w, before, s);
    var n := s.waiters[thread].snapshot;
    if Served(s, n) {
      var steps, t := ServedReturns(k, s, thread);
    } else {
      forall steps, t | WorkerRun(k, s, steps, t)
        ensures !Enabled(t, EndWait(thread))
      {
        UnservedRun(k, s, n, steps, t);
        WorkerRunKeeps(k, s, steps, t);
      }
    }
  }

  // ------------------------------------------------ the lost wake-up

  /** The worker is asleep with no wake-up on its way, everything accepted has been
      dispatched, and `thread` waits for a command that has not run. */
  ghost predicate Stranded(s: State, thread: nat) {
    && s.worker == Parked(false)
    && s.q.dispatched == s.q.next - 1
    && thread in s.waiters && s.q.executed < s.waiters[thread].snapshot
  }

  lemma StrandedStep(k: Kernels, s: State, thread: nat, step: Step)
    requires Consistent(s) && Agrees(k, s) && Stranded(s, thread) && Enabled(s, step)
    requires !step.UserCall? && !step.UserShutdown? && step != Wake(true)
    ensures Consistent(Apply(k, s, step)) && Agrees(k, Apply(k, s, step)) && Stranded(Apply(k, s, step), thread)
  {
    StepKeeps(k, s, step);
    DispatchCoversAll(s.q);
  }

  /** Dispatching again or waiting again does not help: without a new command, a shutdown
      or a spurious wake-up, the waiting thread never returns. */
  lemma {:induction false} StrandedForever(k: Kernels, s: State, thread: nat, steps: seq<Step>, t: State)
    requires Consistent(s) && Agrees(k, s) && Stranded(s, thread) && Runs(k, s, steps, t)
    requires forall step :: step in steps ==> !step.UserCall? && !step.UserShutdown? && step != Wake(true)
    ensures Stranded(t, thread) && !Enabled(t, EndWait(thread))
    decreases |steps|
  {
    if steps != [] {
      assert steps[0] in steps && forall step :: step in steps[1..] ==> step in steps;
      StrandedStep(k, s, thread, steps[0]);
      StrandedForever(k, Apply(k, s, steps[0]), thread, steps[1..], t);
    }
  }

  lemma Accepted(k: Kernels, s: State, call: Call) returns (t: State)
    requires Consistent(s) && Agrees(k, s) && !s.q.shutdown && LockFree(s) && Admit(call).Some?
    ensures Runs(k, s, [UserCall(call)], t) && Consistent(t) && Agrees(k, t)
    ensures t.worker == s.worker && t.waiters == s.waiters && !t.q.shutdown
    ensures t.q.executed == s.q.executed && t.q.dispatched == s.q.dispatched && t.q.next == s.q.next + 1
  {
    t := Apply(k, s, UserCall(call));
    StepKeeps(k, s, UserCall(call));
    RunsStep(k, s, UserCall(call), [], t);
  }

  lemma Dispatches(k: Kernels, s: State) returns (t: State)
    requires Consistent(s) && Agrees(k, s) && LockFree(s) && s.q.dispatched < s.q.next - 1
    ensures Runs(k, s, [UserDispatch], t) && Consistent(t) && Agrees(k, t)
    ensures t.worker == Notify(s.worker) && t.waiters == s.waiters && t.q == s.q.(dispatched := s.q.next - 1)
  {
    t := Apply(k, s, UserDispatch);
    DispatchCoversAll(s.q);
    StepKeeps(k, s, UserDispatch);
    RunsStep(k, s, UserDispatch, [], t);
  }

  lemma Waits(k: Kernels, s: State, thread: nat) returns (t: State)
    requires Consistent(s) && Agrees(k, s) && s.worker.Running? && thread !in s.waiters
    ensures Runs(k, s, [BeginWait(thread)], t) && Consistent(t) && Agrees(k, t)
    ensures t.worker == s.worker && t.q == s.q && thread in t.waiters && t.waiters[thread].snapshot == s.q.dispatched
  {
    t := Apply(k, s, BeginWait(thread));
    StepKeeps(k, s, BeginWait(thread));
    RunsStep(k, s, BeginWait(thread), [], t);
  }

  lemma Starts(k: Kernels, s: State) returns (t: State)
    requires Consistent(s) && Agrees(k, s) && s.worker.Sweeping? && s.q.executed < s.worker.current
    ensures Runs(k, s, [StartCommand], t) && Consistent(t) && Agrees(k, t) && t.q == s.q && t.waiters == s.waiters
    ensures t.worker.Running? && !t.worker.done && t.worker.current == s.worker.current
  {
    t := Apply(k, s, StartCommand);
    StepKeeps(k, s, StartCommand);
    RunsStep(k, s, StartCommand, [], t);
  }

  /** A first command, dispatched and taken up by the worker. */
  lemma FirstCommandStarts(k: Kernels, s: State, call: Call) returns (steps: seq<Step>, t: State)
    requires Consistent(s) && Agrees(k, s) && !s.q.shutdown && s.worker.Parked? && s.q.commands == []
    requires Admit(call).Some?
    ensures Runs(k, s, steps, t) && Consistent(t) && Agrees(k, t) && !t.q.shutdown && t.waiters == s.waiters
    ensures t.worker.Running? && !t.worker.done && t.q.executed + 1 == t.worker.current
  {
    var u := Accepted(k, s, call);
    var v := Dispatches(k, u);
    var x := WakesUp(k, v);
    t := Starts(k, x);
    RunsConcat(k, s, [UserCall(call)], u, [UserDispatch], v);
    RunsConcat(k, s, [UserCall(call)] + [UserDispatch], v, [Wake(false)], x);
    steps := [UserCall(call)] + [UserDispatch] + [Wake(false)];
    RunsConcat(k, s, steps, x, [StartCommand], t);
    steps := steps + [StartCommand];
  }

  /** A thread that enqueues, dispatches and waits while the worker executes the last
      command of its sweep is stranded when the sweep ends. */
  lemma LostWakeUp(k: Kernels, s: State, call: Call, thread: nat) returns (steps: seq<Step>, t: State)
    requires Consistent(s) && Agrees(k, s) && !s.q.shutdown
    requires s.worker.Running? && s.q.executed + 1 == s.worker.current
    requires Admit(call).Some? && thread !in s.waiters
    ensures Runs(k, s, [UserCall(call)] + [UserDispatch] + [BeginWait(thread)] + steps, t)
    ensures (forall step :: step in steps ==> WorkerStep(step)) && Stranded(t, thread)
  {
    var u := Accepted(k, s, call);
    var v := Dispatches(k, u);
    var x := Waits(k, v, thread);
    steps, t := SweepEnds(k, x);
    WorkerRunKeeps(k, x, steps, t);
    RunsConcat(k, s, [UserCall(call)], u, [UserDispatch], v);
    RunsConcat(k, s, [UserCall(call)] + [UserDispatch], v, [BeginWait(thread)], x);
    RunsConcat(k, s, [UserCall(call)] + [UserDispatch] + [BeginWait(thread)], x, steps, t);
  }

  lemma StrandedFrom(k: Kernels, s: State, first: Call, call: Call, thread: nat) returns (steps: seq<Step>, t: State)
    requires Fresh(s) && Admit(first).Some? && Admit(call).Some?
    ensures Runs(k, s, steps, t) && Stranded(t, thread)
  {
    FreshKeeps(k, s);
    var xs, u := FirstCommandStarts(k, s, first);
    var ys;
    ys, t := LostWakeUp(k, u, call, thread);
    ys := [UserCall(call)] + [UserDispatch] + [BeginWait(thread)] + ys;
    RunsConcat(k, s, xs, u, ys, t);
    steps := xs + ys;
  }

  /** From the start of any program, two accepted calls are enough. */
  lemma StrandedReached(k: Kernels, w: World, first: Call, call: Call, thread: nat) returns (steps: seq<Step>, t: State)
    requires Admit(first).Some? && Admit(call).Some?
    ensures Reached(k, w, steps, t) && Stranded(t, thread)
  {
    steps, t := StrandedFrom(k, Initial(w), first, call, thread);
  }

  /** A spurious wake-up of the worker brings a stranded thread back. */
  lemma RescuedBySpuriousWake(k: Kernels, s: State, thread: nat) returns (steps: seq<Step>, t: State)
    requires Consistent(s) && Agrees(k, s) && Stranded(s, thread) && !s.q.shutdown
    ensures Runs(k, s, [Wake(true)] + steps, t) && Enabled(t, EndWait(thread))
    ensures forall step :: step in steps ==> WorkerStep(step)
  {
    var u := Apply(k, s, Wake(true));
    StepKeeps(k, s, Wake(true));
    steps, t := ServedReturns(k, u, thread);
    RunsStep(k, s, Wake(true), steps, t);
  }

  /** So does a new command that is dispatched. */
  lemma RescuedByNewCommand(k: Kernels, s: State, call: Call, thread: nat) returns (steps: seq<Step>, t: State)
    requires Consistent(s) && Agrees(k, s) && Stranded(s, thread) && !s.q.shutdown && Admit(call).Some?
    ensures Runs(k, s, [UserCall(call)] + [UserDispatch] + steps, t) && Enabled(t, EndWait(thread))
    ensures forall step :: step in steps ==> WorkerStep(step)
  {
    var u := Accepted(k, s, call);
    var v := Dispatches(k, u);
    steps, t := ServedReturns(k, v, thread);
    RunsConcat(k, s, [UserCall(call)], u, [UserDispatch], v);
    RunsConcat(k, s, [UserCall(call)] + [UserDispatch], v, steps, t);
  }

  // ------------------------------------------------ shutdown

  /** Where the worker stops once it is to shut down. */
  function Target(s: State): nat {
    if Busy(s) then s.worker.current else s.q.executed
  }

  ghost predicate Draining(s: State, log: seq<Command>, target: nat) {
    s.q.shutdown && s.log == log && Target(s) == target
  }

  lemma DrainingStep(k: Kernels, s: State, step: Step, log: seq<Command>, target: nat)
    requires Consistent(s) && Agrees(k, s) && Enabled(s, step) && Draining(s, log, target)
    ensures Consistent(Apply(k, s, step)) && Agrees(k, Apply(k, s, step)) && Draining(Apply(k, s, step), log, target)
  {
    StepKeeps(k, s, step);
  }

  lemma {:induction false} DrainingRun(k: Kernels, s: State, steps: seq<Step>, t: State, log: seq<Command>, target: nat)
    requires Consistent(s) && Agrees(k, s) && Runs(k, s, steps, t) && Draining(s, log, target)
    ensures Consistent(t) && Draining(t, log, target)
    decreases |steps|
  {
    if steps != [] {
      DrainingStep(k, s, steps[0], log, target);
      DrainingRun(k, Apply(k, s, steps[0]), steps[1..], t, log, target);
    }
  }

  /** However the worker comes to leave after the shutdown flag was set in state `s`, it has run
      every accepted command exactly if none was pending in `s`, or it was running one in a
      sweep that had read the last timestamp. */
  lemma ShutdownDrainsExactly(k: Kernels, w: World, before: seq<Step>, s: State, steps: seq<Step>, t: State)
    requires Reached(k, w, before, s) && Enabled(s, UserShutdown)
    requires Runs(k, Apply(k, s, UserShutdown), steps, t) && t.worker.Exited?
    ensures t.ran == s.log <==> s.q.commands == [] || (s.worker.Running? && s.worker.current == s.q.next - 1)
  {
    ReachedKeeps(k, w, before, s);
    StepKeeps(k, s, UserShutdown);
    DrainingRun(k, Apply(k, s, UserShutdown), steps, t, s.log, Target(s));
    RanToTarget(t);
    PendingAfter(s);
  }

  lemma RanToTarget(t: State)
    requires Consistent(t) && t.worker.Exited?
    ensures t.ran == t.log <==> Target(t) == |t.log|
  {
  }

  lemma PendingAfter(s: State)
    requires Consistent(s) && LockFree(s)
    ensures Target(s) == |s.log| <==> s.q.commands == [] || (s.worker.Running? && s.worker.current == s.q.next - 1)
  {
  }

  lemma ShutsDown(k: Kernels, s: State) returns (t: State)
    requires s.worker.Parked?
    ensures Runs(k, s, [UserShutdown], t) && t.worker == Parked(true) && t.q.shutdown && t.log == s.log && t.ran == s.ran
  {
    t := Apply(k, s, UserShutdown);
    RunsStep(k, s, UserShutdown, [], t);
  }

  lemma Leaves(k: Kernels, s: State) returns (t: State)
    requires s.worker == Parked(true) && s.q.shutdown
    ensures Runs(k, s, [Wake(false)], t) && t.worker.Exited? && t.log == s.log && t.ran == s.ran
  {
    t := Apply(k, s, Wake(false));
    RunsStep(k, s, Wake(false), [], t);
  }

  lemma LosesFrom(k: Kernels, s: State, call: Call) returns (t: State)
    requires Fresh(s) && Admit(call).Some?
    ensures Runs(k, s, [UserCall(call)] + [UserDispatch] + [UserShutdown] + [Wake(false)], t)
    ensures t.worker.Exited? && t.ran != t.log
  {
    FreshKeeps(k, s);
    var u := Accepted(k, s, call);
    var v := Dispatches(k, u);
    var x := ShutsDown(k, v);
    t := Leaves(k, x);
    RunsConcat(k, s, [UserCall(call)], u, [UserDispatch], v);
    RunsConcat(k, s, [UserCall(call)] + [UserDispatch], v, [UserShutdown], x);
    RunsConcat(k, s, [UserCall(call)] + [UserDispatch] + [UserShutdown], x, [Wake(false)], t);
  }

  /** A program that enqueues a command and releases the queue can lose the command. */
  lemma ShutdownLoses(k: Kernels, w: World, call: Call) returns (t: State)
    requires Admit(call).Some?
    ensures Reached(k, w, [UserCall(call)] + [UserDispatch] + [UserShutdown] + [Wake(false)], t)
    ensures t.worker.Exited? && t.ran != t.log
  {
    t := LosesFrom(k, Initial(w), call);
  }

  /** Awake, or asleep with no notification on its way. */
  predicate Unaware(s: State) {
    Busy(s) || s.worker == Parked(false)
  }

  lemma {:induction false} UnawareForever(k: Kernels, s: State, steps: seq<Step>, t: State)
    requires Unaware(s) && Runs(k, s, steps, t)
    requires forall step :: step in steps ==> !step.UserDispatch? && !step.UserShutdown? && step != Wake(true)
    ensures Unaware(t)
    decreases |steps|
  {
    if steps != [] {
      assert steps[0] in steps && forall step :: step in steps[1..] ==> step in steps;
      UnawareForever(k, Apply(k, s, steps[0]), steps[1..], t);
    }
  }

  /** A shutdown flag set while a command runs is notified to nobody: whatever other threads do,
      short of a dispatch, another shutdown or a spurious wake-up, the worker never leaves. */
  lemma ShutdownMissed(k: Kernels, s: State, steps: seq<Step>, t: State)
    requires s.worker.Running? && Runs(k, Apply(k, s, UserShutdown), steps, t)
    requires forall step :: step in steps ==> !step.UserDispatch? && !step.UserShutdown? && step != Wake(true)
    ensures !t.worker.Exited?
  {
    UnawareForever(k, Apply(k, s, UserShutdown), steps, t);
  }

  lemma RunningFrom(k: Kernels, s: State, call: Call) returns (steps: seq<Step>, t: State)
    requires Fresh(s) && Admit(call).Some?
    ensures Runs(k, s, steps, t) && t.worker.Running? && Enabled(t, UserShutdown)
  {
    FreshKeeps(k, s);
    steps, t := FirstCommandStarts(k, s, call);
  }

  /** A shutdown while a command runs is within reach of every program that enqueues one. */
  lemma RunningReached(k: Kernels, w: World, call: Call) returns (steps: seq<Step>, t: State)
    requires Admit(call).Some?
    ensures Reached(k, w, steps, t) && t.worker.Running? && Enabled(t, UserShutdown)
  {
    steps, t := RunningFrom(k, Initial(w), call);
  }

  /** Left to itself, the worker leaves after a shutdown exactly if it was not running a
      command when the flag was set. */
  lemma ShutdownEndsExactly(k: Kernels, s: State)
    requires Enabled(s, UserShutdown)
    ensures (exists steps, t :: WorkerRun(k, Apply(k, s, UserShutdown), steps, t) && t.worker.Exited?)
       <==> !s.worker.Running?
  {
    var u := Apply(k, s, UserShutdown);
    if s.worker.Running? {
      forall steps, t | WorkerRun(k, u, steps, t) ensures !t.worker.Exited? {
        ShutdownMissed(k, s, steps, t);
      }
    } else if s.worker.Exited? {
      assert WorkerRun(k, u, [], u);
    } else {
      var t := Apply(k, u, Wake(false));
      RunsStep(k, u, Wake(false), [], t);
      assert WorkerRun(k, u, [Wake(false)], t);
    }
  }
}
