/** The asynchronous queue as a protocol: user threads and the worker interleave at
    the points where the device lock is released. Every run is compared with a program
    that makes the same calls through the synchronous API. */
module QueueProtocol {
  import opened Words
  import opened Options
  import opened DeviceMemory
  import opened ClikCommands
  import opened CommandQueue

  datatype Worker =
    | Parked(notified: bool)                        // in dispatched.wait, lock released
    | Sweeping(previous: nat, current: nat)         // between commands, lock held
    | Running(previous: nat, current: nat, entry: Entry, done: bool) // executing, lock released
    | Exited

  /** A thread in clik_wait: the timestamp it waits for and, if it sleeps, how many times
      `executed` had been notified when it fell asleep. */
  datatype Waiter = Waiter(snapshot: nat, sleep: Option<nat>)

  /** The queue and the world it drives, with the history the theorems speak of:
      `calls`, the accepted calls, and `log`, their commands; `ran`, those executed; `covered`, how many had been
      accepted at the latest dispatch; `sync`, the world of the synchronous program;
      `start`, the initial world, and whether the host has stored anything since. */
  datatype State = State(
    q: Queue, worker: Worker, waiters: map<nat, Waiter>, notices: nat, world: World,
    calls: seq<Call>, log: seq<Command>, ran: seq<Command>, covered: nat, sync: World, start: World, stored: bool)

  datatype Step =
    | UserCall(call: Call)
    | UserDispatch
    | BeginWait(thread: nat)
    | WakeWaiter(thread: nat)      // spurious
    | SleepAgain(thread: nat)
    | EndWait(thread: nat)
    | UserShutdown
    | HostStore(a: nat, v: byte)   // the host program writes its own memory
    | Wake(spurious: bool)
    | StartCommand
    | ExecuteCommand
    | RetireCommand
    | Rest

  function Initial(w: World): State {
    State(EMPTY, Parked(true), map[], 0, w, [], [], [], 0, w, w, false)
  }

  /** How many commands have taken effect on the world. */
  function Done(s: State): nat {
    s.q.executed + if s.worker.Running? && s.worker.done then 1 else 0
  }

  /** Still asleep: not notified since. */
  predicate Asleep(s: State, t: nat)
    requires t in s.waiters
  {
    s.waiters[t].sleep == Some(s.notices)
  }

  predicate LockFree(s: State) {
    !s.worker.Sweeping?
  }

  /** The host program leaves alone the bytes of commands that have not run yet. */
  ghost predicate MayStore(s: State, a: nat) {
    a < |s.world.host| && Done(s) <= |s.log| && forall c :: c in s.log[Done(s)..] ==> !Uses(c, a)
  }

  ghost predicate Enabled(s: State, step: Step) {
    match step
    case UserCall(_) => LockFree(s)
    case UserDispatch => LockFree(s)
    case BeginWait(t) => LockFree(s) && t !in s.waiters
    case WakeWaiter(t) => t in s.waiters && Asleep(s, t)
    case SleepAgain(t) => LockFree(s) && t in s.waiters && !Asleep(s, t) && s.q.executed < s.waiters[t].snapshot
    case EndWait(t) => LockFree(s) && t in s.waiters && !Asleep(s, t) && s.q.executed >= s.waiters[t].snapshot
    case UserShutdown => LockFree(s)
    case HostStore(a, _) => MayStore(s, a) && a < |s.sync.host|
    case Wake(spurious) => s.worker.Parked? && (spurious || s.worker.notified)
    case StartCommand => s.worker.Sweeping? && HeadDue(s.q, s.worker.current)
    case ExecuteCommand => s.worker.Running? && !s.worker.done
    case RetireCommand => s.worker.Running? && s.worker.done && s.q.commands != []
    case Rest => s.worker.Sweeping? && !HeadDue(s.q, s.worker.current)
  }

  function Notify(w: Worker): Worker {
    if w.Parked? then Parked(true) else w
  }

  ghost function Apply(k: Kernels, s: State, step: Step): State
    requires Enabled(s, step)
  {
    match step
    case UserCall(call) =>
      var (ok, q) := Submit(s.q, call);
      if ok
      then s.(q := q, calls := s.calls + [call], log := s.log + [Admit(call).value], sync := Sync(k, s.sync, call).1)
      else s
    case UserDispatch =>
      var (ok, q) := Release(s.q);
      s.(q := q, covered := |s.log|, worker := if ok then Notify(s.worker) else s.worker)
    case BeginWait(t) =>
      var sleep := if s.q.executed < s.q.dispatched then Some(s.notices) else None;
      s.(waiters := s.waiters[t := Waiter(s.q.dispatched, sleep)])
    case WakeWaiter(t) => s.(waiters := s.waiters[t := s.waiters[t].(sleep := None)])
    case SleepAgain(t) => s.(waiters := s.waiters[t := s.waiters[t].(sleep := Some(s.notices))])
    case EndWait(t) => s.(waiters := s.waiters - {t})
    case UserShutdown => s.(q := s.q.(shutdown := true), worker := Notify(s.worker))
    case HostStore(a, v) => s.(world := Store(s.world, a, v), sync := Store(s.sync, a, v), stored := true)
    case Wake(_) => s.(worker := if s.q.shutdown then Exited else Sweeping(s.q.executed, s.q.dispatched))
    case StartCommand => s.(worker := Running(s.worker.previous, s.worker.current, s.q.commands[0], false))
    case ExecuteCommand =>
      s.(world := Execute(k, s.world, s.worker.entry.command).1, ran := s.ran + [s.worker.entry.command],
         worker := s.worker.(done := true))
    case RetireCommand => s.(q := Retire(s.q), worker := Sweeping(s.worker.previous, s.worker.current))
    case Rest =>
      s.(worker := Parked(false), notices := if s.q.executed > s.worker.previous then s.notices + 1 else s.notices)
  }

  /** `t` is the state after taking `steps` from `s`, each enabled in its turn. */
  ghost predicate Runs(k: Kernels, s: State, steps: seq<Step>, t: State)
    decreases |steps|
  {
    if steps == [] then s == t
    else Enabled(s, steps[0]) && Runs(k, Apply(k, s, steps[0]), steps[1..], t)
  }

  // ------------------------------------------------ invariants

  ghost predicate WorkerInStep(s: State) {
    match s.worker
    case Parked(_) => true
    case Exited => true
    case Sweeping(previous, current) => previous <= s.q.executed <= current <= s.q.dispatched
    case Running(previous, current, entry, _) =>
      && previous <= s.q.executed < current <= s.q.dispatched
      && s.q.commands != [] && entry == s.q.commands[0]
  }

  ghost predicate Logged(s: State) {
    && |s.log| == s.q.next - 1
    && Done(s) <= |s.log| && s.ran == s.log[..Done(s)]
    && s.covered == s.q.dispatched
    && |s.q.commands| == |s.log| - s.q.executed
    && (forall i :: 0 <= i < |s.q.commands| ==> s.q.commands[i].command == s.log[s.q.executed + i])
    && (forall t :: t in s.waiters ==> s.waiters[t].snapshot <= s.q.dispatched)
  }

  /** The worker still owes the waiting threads a notification. */
  predicate NoticeOwed(s: State) {
    (s.worker.Sweeping? || s.worker.Running?) && s.q.executed > s.worker.previous
  }

  /** A thread that sleeps although its command has run has a notification on its way. */
  ghost predicate WaitersServed(s: State) {
    forall t :: t in s.waiters ==>
      && (s.waiters[t].sleep.Some? ==> s.waiters[t].sleep.value <= s.notices)
      && (Asleep(s, t) ==> s.q.executed < s.waiters[t].snapshot || NoticeOwed(s))
  }

  /** Running what is still pending turns the asynchronous world into the synchronous one,
      and what has run is all that has happened unless the host stored something. */
  ghost predicate Agrees(k: Kernels, s: State) {
    && Done(s) <= |s.log| && s.sync == ExecuteAll(k, s.world, s.log[Done(s)..])
    && (!s.stored ==> s.world == ExecuteAll(k, s.start, s.ran))
  }

  ghost predicate Consistent(s: State) {
    InOrder(s.q) && WorkerInStep(s) && Logged(s) && WaitersServed(s) && Accepts(s.calls, s.log)
  }

  lemma SubmitAgrees(k: Kernels, s: State, call: Call)
    requires Consistent(s) && Agrees(k, s) && Enabled(s, UserCall(call)) && Submit(s.q, call).0
    ensures Agrees(k, Apply(k, s, UserCall(call)))
  {
    var c := Admit(call).value;
    DeferredCallAgrees(k, s.sync, call);
    ExecuteAllAppend(k, s.world, s.log[Done(s)..], c);
    assert (s.log + [c])[Done(s)..] == s.log[Done(s)..] + [c];
  }

  lemma SubmitLogged(k: Kernels, s: State, call: Call)
    requires Consistent(s) && Enabled(s, UserCall(call)) && Submit(s.q, call).0
    ensures Logged(Apply(k, s, UserCall(call)))
  {
    assert (s.log + [Admit(call).value])[..Done(s)] == s.log[..Done(s)];
  }

  lemma SubmitUnnoticed(k: Kernels, s: State, call: Call)
    requires Consistent(s) && Enabled(s, UserCall(call)) && Submit(s.q, call).0
    ensures WorkerInStep(Apply(k, s, UserCall(call))) && WaitersServed(Apply(k, s, UserCall(call)))
  {
  }

  lemma SubmitKeeps(k: Kernels, s: State, call: Call)
    requires Consistent(s) && Agrees(k, s) && Enabled(s, UserCall(call))
    ensures Consistent(Apply(k, s, UserCall(call))) && Agrees(k, Apply(k, s, UserCall(call)))
  {
    OrderKept(s.q, call, 0);
    if Submit(s.q, call).0 {
      SubmitAgrees(k, s, call);
      SubmitLogged(k, s, call);
      SubmitUnnoticed(k, s, call);
      AcceptsOneMore(s.calls, s.log, call);
    }
  }

  lemma ExecuteKeeps(k: Kernels, s: State)
    requires Consistent(s) && Agrees(k, s) && Enabled(s, ExecuteCommand)
    ensures Consistent(Apply(k, s, ExecuteCommand)) && Agrees(k, Apply(k, s, ExecuteCommand))
  {
    var d := Done(s);
    assert s.q.commands[0].command == s.log[d];
    assert s.log[d..][1..] == s.log[d + 1..];
    assert s.log[..d] + [s.log[d]] == s.log[..d + 1];
    ExecuteAllAppend(k, s.start, s.ran, s.log[d]);
  }

  lemma RetireKeeps(k: Kernels, s: State)
    requires Consistent(s) && Agrees(k, s) && Enabled(s, RetireCommand)
    ensures Consistent(Apply(k, s, RetireCommand)) && Agrees(k, Apply(k, s, RetireCommand))
  {
    OrderKept(s.q, KernelCall(None), s.worker.current);
  }

  lemma StoreKeeps(k: Kernels, s: State, a: nat, v: byte)
    requires Consistent(s) && Agrees(k, s) && Enabled(s, HostStore(a, v))
    ensures Consistent(Apply(k, s, HostStore(a, v))) && Agrees(k, Apply(k, s, HostStore(a, v)))
  {
    StoreCommutesWithAll(k, s.world, s.log[Done(s)..], a, v);
  }

  lemma DispatchKeeps(k: Kernels, s: State)
    requires Consistent(s) && Agrees(k, s) && Enabled(s, UserDispatch)
    ensures Consistent(Apply(k, s, UserDispatch)) && Agrees(k, Apply(k, s, UserDispatch))
  {
    DispatchCoversAll(s.q);
    var q := s.q.(dispatched := s.q.next - 1);
    assert Apply(k, s, UserDispatch) == s.(q := q, covered := |s.log|,
      worker := if s.q.dispatched < s.q.next - 1 then Notify(s.worker) else s.worker);
  }

  lemma WaitKeeps(k: Kernels, s: State, step: Step)
    requires Consistent(s) && Agrees(k, s) && Enabled(s, step)
    requires step.BeginWait? || step.SleepAgain?
    ensures Consistent(Apply(k, s, step)) && Agrees(k, Apply(k, s, step))
  {
  }

  lemma LeaveKeeps(k: Kernels, s: State, step: Step)
    requires Consistent(s) && Agrees(k, s) && Enabled(s, step)
    requires step.WakeWaiter? || step.EndWait?
    ensures Consistent(Apply(k, s, step)) && Agrees(k, Apply(k, s, step))
  {
  }

  lemma ShutdownKeeps(k: Kernels, s: State)
    requires Consistent(s) && Agrees(k, s) && Enabled(s, UserShutdown)
    ensures Consistent(Apply(k, s, UserShutdown)) && Agrees(k, Apply(k, s, UserShutdown))
  {
  }

  lemma WorkerKeeps(k: Kernels, s: State, step: Step)
    requires Consistent(s) && Agrees(k, s) && Enabled(s, step)
    requires step.Wake? || step.StartCommand? || step.Rest?
    ensures Consistent(Apply(k, s, step)) && Agrees(k, Apply(k, s, step))
  {
  }

  lemma StepKeeps(k: Kernels, s: State, step: Step)
    requires Consistent(s) && Agrees(k, s) && Enabled(s, step)
    ensures Consistent(Apply(k, s, step)) && Agrees(k, Apply(k, s, step))
  {
    match step
    case UserCall(call) => SubmitKeeps(k, s, call);
    case UserDispatch => DispatchKeeps(k, s);
    case ExecuteCommand => ExecuteKeeps(k, s);
    case RetireCommand => RetireKeeps(k, s);
    case HostStore(a, v) => StoreKeeps(k, s, a, v);
    case BeginWait(_) => WaitKeeps(k, s, step);
    case WakeWaiter(_) => LeaveKeeps(k, s, step);
    case SleepAgain(_) => WaitKeeps(k, s, step);
    case EndWait(_) => LeaveKeeps(k, s, step);
    case UserShutdown => ShutdownKeeps(k, s);
    case Wake(_) => WorkerKeeps(k, s, step);
    case StartCommand => WorkerKeeps(k, s, step);
    case Rest => WorkerKeeps(k, s, step);
  }

  lemma {:induction false} RunKeeps(k: Kernels, s: State, steps: seq<Step>, t: State)
    requires Consistent(s) && Agrees(k, s) && Runs(k, s, steps, t)
    ensures Consistent(t) && Agrees(k, t) && t.start == s.start
    decreases |steps|
  {
    if steps != [] {
      StepKeeps(k, s, steps[0]);
      RunKeeps(k, Apply(k, s, steps[0]), steps[1..], t);
    }
  }

  predicate Fresh(s: State) {
    && |s.q.commands| == |s.log| == |s.calls| == |s.ran| == |s.waiters| == s.covered == 0
    && s.q.executed == s.q.dispatched == 0 && s.q.next == 1 && !s.q.shutdown
    && s.worker.Parked? && s.world == s.sync == s.start
  }

  lemma FreshKeeps(k: Kernels, s: State)
    requires Fresh(s)
    ensures Consistent(s) && Agrees(k, s)
  {
  }

  /** `s` is reached by some run from the initial world `w`. */
  ghost predicate Reached(k: Kernels, w: World, steps: seq<Step>, s: State) {
    Runs(k, Initial(w), steps, s)
  }

  lemma ReachedKeeps(k: Kernels, w: World, steps: seq<Step>, s: State)
    requires Reached(k, w, steps, s)
    ensures Consistent(s) && Agrees(k, s) && s.start == w
  {
    FreshKeeps(k, Initial(w));
    RunKeeps(k, Initial(w), steps, s);
  }

  // ------------------------------------------------ what every run guarantees

  /** Every interleaving keeps the pending list in timestamp order with
      executed <= dispatched < next; the executed commands are a prefix of the accepted
      ones, none of them undispatched; and running the rest would reach exactly the
      world of the synchronous program. */
  lemma AsynchronousRefinesSynchronous(k: Kernels, w: World, steps: seq<Step>, t: State)
    requires Reached(k, w, steps, t)
    ensures InOrder(t.q)
    ensures |t.ran| == Done(t) <= t.q.dispatched && t.ran <= t.log
    ensures ExecuteAll(k, t.world, t.log[|t.ran|..]) == t.sync
    ensures |t.ran| == |t.log| ==> t.world == t.sync
    ensures forall a: nat :: MayStore(t, a) ==> a < |t.sync.host| && t.world.host[a] == t.sync.host[a]
  {
    ReachedKeeps(k, w, steps, t);
    var pending := t.log[Done(t)..];
    forall a: nat | MayStore(t, a)
      ensures a < |t.sync.host| && t.world.host[a] == t.sync.host[a]
    {
      UnusedByteSettled(k, t.world, pending, a);
    }
  }

  /** As long as the host stores nothing, device and host memory are those that the first
      |ran| accepted calls leave when made synchronously from the start. */
  lemma WorldAfterRetired(k: Kernels, w: World, steps: seq<Step>, t: State)
    requires Reached(k, w, steps, t) && !t.stored
    ensures |t.ran| <= |t.calls| && t.world == SyncAll(k, w, t.calls[..|t.ran|])
    ensures t.sync == SyncAll(k, w, t.calls)
  {
    ReachedKeeps(k, w, steps, t);
    DeferredProgramAgrees(k, w, t.calls, t.log, |t.ran|);
    RunInTwoParts(k, w, t.calls, t.log, |t.ran|);
  }

  lemma RunInTwoParts(k: Kernels, w: World, calls: seq<Call>, log: seq<Command>, n: nat)
    requires Accepts(calls, log) && n <= |log|
    ensures ExecuteAll(k, ExecuteAll(k, w, log[..n]), log[n..]) == SyncAll(k, w, calls)
  {
    DeferredProgramAgrees(k, w, calls, log, |log|);
    ExecuteAllConcat(k, w, log[..n], log[n..]);
    assert log[..n] + log[n..] == log[..|log|] && calls[..|log|] == calls;
  }

  lemma StepExtends(k: Kernels, s: State, step: Step)
    requires Consistent(s) && Agrees(k, s) && Enabled(s, step)
    ensures s.log <= Apply(k, s, step).log && s.ran <= Apply(k, s, step).ran
  {
  }

  lemma SnapshotStep(k: Kernels, s: State, thread: nat, step: Step)
    requires Enabled(s, step) && step != EndWait(thread) && thread in s.waiters
    ensures thread in Apply(k, s, step).waiters
    ensures Apply(k, s, step).waiters[thread].snapshot == s.waiters[thread].snapshot
  {
  }

  /** From BeginWait to EndWait the thread's snapshot does not move, and the log only grows. */
  lemma {:induction false} SnapshotKept(k: Kernels, s: State, thread: nat, steps: seq<Step>, t: State)
    requires Consistent(s) && Agrees(k, s) && thread in s.waiters
    requires Runs(k, s, steps, t) && EndWait(thread) !in steps
    ensures Consistent(t) && Agrees(k, t)
    ensures thread in t.waiters && t.waiters[thread].snapshot == s.waiters[thread].snapshot && s.log <= t.log
    decreases |steps|
  {
    if steps != [] {
      StepKeeps(k, s, steps[0]);
      StepExtends(k, s, steps[0]);
      SnapshotStep(k, s, thread, steps[0]);
      SnapshotKept(k, Apply(k, s, steps[0]), thread, steps[1..], t);
    }
  }

  /** When a wait that began in state `s` may return, every command accepted before the
      latest dispatch that `s` had seen has been executed. */
  lemma WaitCoversDispatch(k: Kernels, w: World, before: seq<Step>, s: State, thread: nat, steps: seq<Step>, t: State)
    requires Reached(k, w, before, s) && Enabled(s, BeginWait(thread))
    requires Runs(k, Apply(k, s, BeginWait(thread)), steps, t) && EndWait(thread) !in steps
    requires Enabled(t, EndWait(thread))
    ensures s.covered <= |s.log| && s.log[..s.covered] <= t.ran
  {
    ReachedKeeps(k, w, before, s);
    StepKeeps(k, s, BeginWait(thread));
    SnapshotKept(k, Apply(k, s, BeginWait(thread)), thread, steps, t);
    assert s.log[..s.covered] == t.log[..s.covered];
  }

  /** A thread that calls clik_wait falls asleep exactly if a dispatched command is still pending. */
  lemma WaitSleepsExactly(k: Kernels, w: World, steps: seq<Step>, t: State, thread: nat)
    requires Reached(k, w, steps, t) && Enabled(t, BeginWait(thread))
    ensures thread in Apply(k, t, BeginWait(thread)).waiters
    ensures Asleep(Apply(k, t, BeginWait(thread)), thread) <==>
              exists e :: e in t.q.commands && e.timestamp <= t.q.dispatched
  {
    ReachedKeeps(k, w, steps, t);
    if t.q.executed < t.q.dispatched {
      assert t.q.commands[0] in t.q.commands;
    }
  }

  /** A spurious wake-up takes a thread out of its sleep; a thread that is awake returns if its
      timestamp has been executed and falls asleep again otherwise. */
  lemma WokenWaiter(k: Kernels, s: State, thread: nat)
    requires thread in s.waiters && LockFree(s)
    ensures Asleep(s, thread) ==>
              Enabled(s, WakeWaiter(thread)) && !Asleep(Apply(k, s, WakeWaiter(thread)), thread)
    ensures !Asleep(s, thread) ==>
              if s.q.executed >= s.waiters[thread].snapshot
              then Enabled(s, EndWait(thread)) && thread !in Apply(k, s, EndWait(thread)).waiters
              else !Enabled(s, EndWait(thread)) && Enabled(s, SleepAgain(thread))
                   && Asleep(Apply(k, s, SleepAgain(thread)), thread)
  {
  }

  /** No wake-up is lost on the waiting side: in every reachable state, a thread that sleeps in a
      wait whose commands have all run will still be notified by the sweep in progress. */
  lemma WaitersNotForgotten(k: Kernels, w: World, steps: seq<Step>, t: State, thread: nat)
    requires Reached(k, w, steps, t) && thread in t.waiters && Asleep(t, thread)
    ensures t.q.executed < t.waiters[thread].snapshot || NoticeOwed(t)
    ensures Enabled(t, Rest) ==>
              thread in Apply(k, t, Rest).waiters && (Asleep(Apply(k, t, Rest), thread) <==> !NoticeOwed(t))
  {
    ReachedKeeps(k, w, steps, t);
  }

  /** During a sweep the worker's snapshot does not move. */
  lemma {:induction false} SweepKept(k: Kernels, s: State, steps: seq<Step>, t: State)
    requires Consistent(s) && Agrees(k, s) && (s.worker.Sweeping? || s.worker.Running?)
    requires Runs(k, s, steps, t) && Rest !in steps
    ensures Consistent(t) && (t.worker.Sweeping? || t.worker.Running?)
    ensures t.worker.current == s.worker.current
    decreases |steps|
  {
    if steps != [] {
      StepKeeps(k, s, steps[0]);
      SweepKept(k, Apply(k, s, steps[0]), steps[1..], t);
    }
  }

  /** Whatever other threads do in its unlocked windows, a sweep that woke in state `s`
      ends with executed equal to the dispatched timestamp it read: what is dispatched
      meanwhile is left behind. */
  lemma SweepReachesSnapshot(k: Kernels, w: World, before: seq<Step>, s: State, spurious: bool, steps: seq<Step>, t: State)
    requires Reached(k, w, before, s) && Enabled(s, Wake(spurious)) && !s.q.shutdown
    requires Runs(k, Apply(k, s, Wake(spurious)), steps, t) && Rest !in steps && Enabled(t, Rest)
    ensures t.q.executed == s.q.dispatched
  {
    ReachedKeeps(k, w, before, s);
    StepKeeps(k, s, Wake(spurious));
    SweepKept(k, Apply(k, s, Wake(spurious)), steps, t);
  }
}
