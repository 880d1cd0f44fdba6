/** The reusable thread barrier with departing threads: the state its mutex protects,
    and the protocol of any number of threads using it. */
module Barrier {

  /** The fields of the barrier. */
  datatype Core = Core(running: int, phase: int, entered: int)

  datatype Outcome = Sleeps | LeavesFalse | LeavesTrue

  /** Entering: the caller either waits for the others or, as the last one, opens the next phase. */
  function Enter(c: Core): (Outcome, Core) {
    if c.entered + 1 < c.running then (Sleeps, c.(entered := c.entered + 1))
    else (LeavesTrue, c.(phase := c.phase + 1, entered := 0))
  }

  /** A woken thread that entered in phase `cp` evaluates its wait predicate again. */
  function Recheck(c: Core, cp: int): (Outcome, Core) {
    if c.phase > cp then (LeavesFalse, c)
    else if c.entered == c.running then (LeavesTrue, c.(phase := c.phase + 1, entered := 0))
    else (Sleeps, c)
  }

  /** Removal, and whether it wakes the waiting threads. */
  function Remove(c: Core): (bool, Core) {
    (c.entered != 0, c.(running := c.running - 1))
  }

  class ThreadBarrier {
    var running: int
    var phase: int
    var entered: int

    ghost function State(): Core
      reads this
    {
      Core(running, phase, entered)
    }

    constructor (numThreads: int)
      ensures State() == Core(numThreads, 0, 0)
    {
      running, phase, entered := numThreads, 0, 0;
    }

    /** The critical section of `wait` up to the point where the thread sleeps or returns. */
    method CreateBarrier() returns (outcome: Outcome, cp: int)
      requires entered < running
      modifies this
      ensures (outcome, State()) == Enter(old(State()))
      ensures cp == old(phase)
    {
      cp := phase;
      entered := entered + 1;
      if entered < running {
        return Sleeps, cp;
      }
      phase := phase + 1;
      entered := 0;
      return LeavesTrue, cp;
    }

    /** The critical section after a wake-up. */
    method Resume(cp: int) returns (outcome: Outcome)
      modifies this
      ensures (outcome, State()) == Recheck(old(State()), cp)
    {
      if !(phase > cp || entered == running) {
        return Sleeps;
      }
      if phase > cp {
        return LeavesFalse;
      }
      phase := phase + 1;
      entered := 0;
      return LeavesTrue;
    }

    method RemoveThread() returns (notify: bool)
      modifies this
      ensures (notify, State()) == Remove(old(State()))
    {
      running := running - 1;
      notify := entered != 0;
    }
  }

  // ------------------------------------------------ the protocol

  datatype Thread =
    | Outside
    | Asleep(cp: int)     // on the condition variable, entered in phase cp
    | Woken(cp: int)      // notified, has yet to take the lock again
    | Notifying           // returns true, has yet to notify the others
    | Gone

  /** A return from `wait` of a call that entered in `phase`. */
  datatype Return = Return(thread: nat, phase: int, last: bool)

  /** The barrier, its threads, how often each has entered, and all returns so far. */
  datatype State = State(core: Core, threads: seq<Thread>, arrivals: seq<int>, results: seq<Return>)

  datatype Step =
    | Arrive(t: nat)
    | Resumes(t: nat)
    | Notify(t: nat)
    | SpuriousWake(t: nat)
    | Depart(t: nat)

  function Awake(t: Thread): Thread {
    if t.Asleep? then Woken(t.cp) else t
  }

  function WakeAll(ts: seq<Thread>): (r: seq<Thread>)
    ensures |r| == |ts| && forall i :: 0 <= i < |ts| ==> r[i] == Awake(ts[i])
  {
    seq(|ts|, i requires 0 <= i < |ts| => Awake(ts[i]))
  }

  predicate Enabled(s: State, step: Step) {
    step.t < |s.threads| &&
    match step
    case Arrive(t) => s.threads[t].Outside?
    case Resumes(t) => s.threads[t].Woken?
    case Notify(t) => s.threads[t].Notifying?
    case SpuriousWake(t) => s.threads[t].Asleep?
    case Depart(t) => s.threads[t].Outside?
  }

  function After(outcome: Outcome, cp: int): Thread {
    match outcome
    case Sleeps => Asleep(cp)
    case LeavesFalse => Outside
    case LeavesTrue => Notifying
  }

  function Returned(rs: seq<Return>, t: nat, cp: int, outcome: Outcome): seq<Return> {
    if outcome.Sleeps? then rs else rs + [Return(t, cp, outcome.LeavesTrue?)]
  }

  function Apply(s: State, step: Step): State
    requires Enabled(s, step) && |s.arrivals| == |s.threads|
  {
    var t := step.t;
    match step
    case Arrive(_) =>
      var (outcome, core) := Enter(s.core);
      State(core, s.threads[t := After(outcome, s.core.phase)], s.arrivals[t := s.arrivals[t] + 1],
            Returned(s.results, t, s.core.phase, outcome))
    case Resumes(_) =>
      var cp := s.threads[t].cp;
      var (outcome, core) := Recheck(s.core, cp);
      State(core, s.threads[t := After(outcome, cp)], s.arrivals, Returned(s.results, t, cp, outcome))
    case Notify(_) => s.(threads := WakeAll(s.threads[t := Outside]))
    case SpuriousWake(_) => s.(threads := s.threads[t := Woken(s.threads[t].cp)])
    case Depart(_) =>
      var (notify, core) := Remove(s.core);
      var ts := s.threads[t := Gone];
      s.(core := core, threads := if notify then WakeAll(ts) else ts)
  }

  // ------------------------------------------------ counting threads

  datatype Kind = Live | Inside(phase: int)

  predicate Is(kind: Kind, t: Thread) {
    match kind
    case Live => !t.Gone?
    case Inside(phase) => (t.Asleep? || t.Woken?) && t.cp == phase
  }

  function Count(kind: Kind, ts: seq<Thread>): nat {
    if ts == [] then 0
    else Count(kind, ts[..|ts| - 1]) + if Is(kind, ts[|ts| - 1]) then 1 else 0
  }

  lemma {:induction false} CountUpdate(kind: Kind, ts: seq<Thread>, i: nat, t: Thread)
    requires i < |ts|
    ensures Count(kind, ts[i := t])
         == Count(kind, ts) - (if Is(kind, ts[i]) then 1 else 0) + (if Is(kind, t) then 1 else 0)
  {
    var n := |ts| - 1;
    if i < n {
      CountUpdate(kind, ts[..n], i, t);
      assert ts[i := t][..n] == ts[..n][i := t];
    } else {
      assert ts[i := t][..n] == ts[..n];
    }
  }

  lemma {:induction false} CountWakeAll(kind: Kind, ts: seq<Thread>)
    ensures Count(kind, WakeAll(ts)) == Count(kind, ts)
  {
    if ts != [] {
      CountWakeAll(kind, ts[..|ts| - 1]);
      assert WakeAll(ts)[..|ts| - 1] == WakeAll(ts[..|ts| - 1]);
    }
  }

  lemma {:induction false} CountNone(kind: Kind, ts: seq<Thread>)
    requires forall i :: 0 <= i < |ts| ==> !Is(kind, ts[i])
    ensures Count(kind, ts) == 0
  {
    if ts != [] {
      CountNone(kind, ts[..|ts| - 1]);
    }
  }

  lemma {:induction false} CountSome(ts: seq<Thread>, i: nat)
    requires i < |ts| && Is(Live, ts[i])
    ensures Count(Live, ts) > 0
  {
    if i < |ts| - 1 {
      CountSome(ts[..|ts| - 1], i);
    }
  }

  /** Threads inside are live; if they are as many, every live thread is inside. */
  lemma {:induction false} CountInside(ts: seq<Thread>, phase: int)
    ensures Count(Inside(phase), ts) <= Count(Live, ts)
    ensures Count(Inside(phase), ts) == Count(Live, ts) ==>
              forall i :: 0 <= i < |ts| && Is(Live, ts[i]) ==> Is(Inside(phase), ts[i])
  {
    if ts != [] {
      CountInside(ts[..|ts| - 1], phase);
    }
  }

  // ------------------------------------------------ invariants

  /** A thread outside has entered once per completed phase; one inside has entered once
      more than its phase number, and is at most one phase behind. */
  ghost predicate InStep(s: State, i: nat)
    requires i < |s.threads| == |s.arrivals|
  {
    match s.threads[i]
    case Outside => s.arrivals[i] == s.core.phase
    case Notifying => s.arrivals[i] == s.core.phase
    case Asleep(cp) => cp <= s.core.phase <= cp + 1 && s.arrivals[i] == cp + 1
    case Woken(cp) => cp <= s.core.phase <= cp + 1 && s.arrivals[i] == cp + 1
    case Gone => true
  }

  ghost predicate Counted(s: State) {
    && |s.arrivals| == |s.threads|
    && s.core.running == Count(Live, s.threads)
    && s.core.entered == Count(Inside(s.core.phase), s.threads)
    && forall i :: 0 <= i < |s.threads| ==> InStep(s, i)
  }

  ghost predicate NotifierPending(ts: seq<Thread>) {
    exists j :: 0 <= j < |ts| && ts[j].Notifying?
  }

  /** A thread left asleep by a finished phase has a notifier on its way, and when all live
      threads are inside none of them is asleep. */
  ghost predicate Signalled(s: State) {
    && (forall i :: 0 <= i < |s.threads| && s.threads[i].Asleep? && s.threads[i].cp < s.core.phase ==>
          NotifierPending(s.threads))
    && (s.core.entered == s.core.running ==> forall i :: 0 <= i < |s.threads| ==> !s.threads[i].Asleep?)
  }

  function Wins(rs: seq<Return>, phase: int): nat {
    if rs == [] then 0
    else Wins(rs[..|rs| - 1], phase) + if rs[|rs| - 1].phase == phase && rs[|rs| - 1].last then 1 else 0
  }

  ghost predicate OneWinnerEach(s: State) {
    && s.core.phase >= 0
    && forall p :: Wins(s.results, p) == if 0 <= p < s.core.phase then 1 else 0
  }

  ghost predicate Sound(s: State) {
    Counted(s) && Signalled(s) && OneWinnerEach(s)
  }

  /** The barrier's own check: a thread that enters finds fewer entered than running. */
  lemma EntryCheckHolds(s: State, t: nat)
    requires Sound(s) && Enabled(s, Arrive(t))
    ensures s.core.entered < s.core.running
  {
    CountInside(s.threads, s.core.phase);
  }

  /** A departing thread wakes the others exactly if some thread is waiting in the current phase. */
  lemma DepartureWakesExactly(s: State, t: nat)
    requires Sound(s) && Enabled(s, Depart(t))
    ensures Remove(s.core).0 <==> exists i :: 0 <= i < |s.threads| && Is(Inside(s.core.phase), s.threads[i])
  {
    var kind := Inside(s.core.phase);
    if forall i :: 0 <= i < |s.threads| ==> !Is(kind, s.threads[i]) {
      CountNone(kind, s.threads);
    } else {
      var i :| 0 <= i < |s.threads| && Is(kind, s.threads[i]);
      CountUpdate(kind, s.threads, i, Outside);
    }
  }

  lemma ReturnCounted(rs: seq<Return>, t: nat, cp: int, outcome: Outcome, p: int)
    ensures Wins(Returned(rs, t, cp, outcome), p) == Wins(rs, p) + if outcome.LeavesTrue? && p == cp then 1 else 0
  {
    if !outcome.Sleeps? {
      var rs' := Returned(rs, t, cp, outcome);
      assert rs'[..|rs'| - 1] == rs;
    }
  }

  /** With every live thread inside, opening the next phase leaves the counts, the lockstep
      and the owed wake-ups in order. */
  lemma Advances(s: State, t: nat, arrivals: seq<int>, results: seq<Return>)
    requires t < |s.threads| == |arrivals| && Is(Inside(s.core.phase), s.threads[t])
    requires Count(Inside(s.core.phase), s.threads) == Count(Live, s.threads) == s.core.running
    requires Counted(s.(arrivals := arrivals, core := s.core.(entered := s.core.running)))
    ensures Counted(State(s.core.(phase := s.core.phase + 1, entered := 0), s.threads[t := Notifying], arrivals, results))
    ensures Signalled(State(s.core.(phase := s.core.phase + 1, entered := 0), s.threads[t := Notifying], arrivals, results))
  {
    var phase := s.core.phase;
    var full := s.(arrivals := arrivals, core := s.core.(entered := s.core.running));
    var s' := State(s.core.(phase := phase + 1, entered := 0), s.threads[t := Notifying], arrivals, results);
    CountInside(s.threads, phase);
    CountUpdate(Live, s.threads, t, Notifying);
    forall i | 0 <= i < |s'.threads|
      ensures InStep(s', i) && !Is(Inside(phase + 1), s'.threads[i])
    {
      assert InStep(full, i);
    }
    CountNone(Inside(phase + 1), s'.threads);
    CountSome(s'.threads, t);
    assert s'.threads[t].Notifying?;
  }

  /** Changing one thread that is not a notifier, within a phase, keeps the wake-ups owed. */
  lemma KeptSignal(s: State, s': State, t: nat)
    requires Sound(s) && t < |s.threads| && !s.threads[t].Notifying? && s'.core.phase == s.core.phase
    requires |s'.threads| == |s.threads| && s'.threads == s.threads[t := s'.threads[t]]
    requires s'.threads[t].Asleep? ==> s'.threads[t].cp == s.core.phase
    requires s'.core.entered != s'.core.running || (s'.core == s.core && !s'.threads[t].Asleep?)
    ensures Signalled(s')
  {
    forall i | 0 <= i < |s'.threads| && s'.threads[i].Asleep? && s'.threads[i].cp < s'.core.phase
      ensures NotifierPending(s'.threads)
    {
      assert s.threads[i] == s'.threads[i];
      var j :| 0 <= j < |s.threads| && s.threads[j].Notifying?;
      assert s'.threads[j].Notifying?;
    }
  }

  lemma ArriveKeeps(s: State, t: nat)
    requires Sound(s) && Enabled(s, Arrive(t))
    ensures Sound(Apply(s, Arrive(t)))
  {
    var s' := Apply(s, Arrive(t));
    var phase := s.core.phase;
    EntryCheckHolds(s, t);
    forall p ensures Wins(s'.results, p) == if 0 <= p < s'.core.phase then 1 else 0 {
      ReturnCounted(s.results, t, phase, Enter(s.core).0, p);
    }
    var inside := s.threads[t := Asleep(phase)];
    CountUpdate(Live, s.threads, t, Asleep(phase));
    CountUpdate(Inside(phase), s.threads, t, Asleep(phase));
    if Enter(s.core).0.Sleeps? {
      KeptSignal(s, s', t);
      forall i | 0 <= i < |s'.threads| ensures InStep(s', i) {
        assert InStep(s, i);
      }
    } else {
      var u := State(s.core, inside, s.arrivals, s.results);
      var full := u.(arrivals := s'.arrivals, core := s.core.(entered := s.core.running));
      forall i | 0 <= i < |inside| ensures InStep(full, i) {
        assert InStep(s, i);
      }
      Advances(u, t, s'.arrivals, s'.results);
      assert inside[t := Notifying] == s'.threads;
    }
  }

  lemma ResumeWins(s: State, t: nat)
    requires Sound(s) && Enabled(s, Resumes(t))
    ensures OneWinnerEach(Apply(s, Resumes(t)))
  {
    var s' := Apply(s, Resumes(t));
    var cp := s.threads[t].cp;
    assert InStep(s, t);
    forall p ensures Wins(s'.results, p) == if 0 <= p < s'.core.phase then 1 else 0 {
      ReturnCounted(s.results, t, cp, Recheck(s.core, cp).0, p);
    }
  }

  lemma ResumeWithinPhase(s: State, t: nat)
    requires Sound(s) && Enabled(s, Resumes(t)) && !Recheck(s.core, s.threads[t].cp).0.LeavesTrue?
    ensures Counted(Apply(s, Resumes(t))) && Signalled(Apply(s, Resumes(t)))
  {
    var s' := Apply(s, Resumes(t));
    assert InStep(s, t);
    KeptSignal(s, s', t);
    CountUpdate(Live, s.threads, t, s'.threads[t]);
    CountUpdate(Inside(s.core.phase), s.threads, t, s'.threads[t]);
    forall i | 0 <= i < |s'.threads| ensures InStep(s', i) {
      assert InStep(s, i);
    }
  }

  lemma ResumeKeeps(s: State, t: nat)
    requires Sound(s) && Enabled(s, Resumes(t))
    ensures Sound(Apply(s, Resumes(t)))
  {
    ResumeWins(s, t);
    if Recheck(s.core, s.threads[t].cp).0.LeavesTrue? {
      assert InStep(s, t);
      Advances(s, t, s.arrivals, Apply(s, Resumes(t)).results);
    } else {
      ResumeWithinPhase(s, t);
    }
  }

  lemma NotifyKeeps(s: State, t: nat)
    requires Sound(s) && Enabled(s, Notify(t))
    ensures Sound(Apply(s, Notify(t)))
  {
    var s' := Apply(s, Notify(t));
    var ts := s.threads[t := Outside];
    CountUpdate(Live, s.threads, t, Outside);
    CountUpdate(Inside(s.core.phase), s.threads, t, Outside);
    CountWakeAll(Live, ts);
    CountWakeAll(Inside(s.core.phase), ts);
    forall i | 0 <= i < |s'.threads| ensures InStep(s', i) && !s'.threads[i].Asleep? {
      assert InStep(s, i);
    }
  }

  lemma SpuriousKeeps(s: State, t: nat)
    requires Sound(s) && Enabled(s, SpuriousWake(t))
    ensures Sound(Apply(s, SpuriousWake(t)))
  {
    var s' := Apply(s, SpuriousWake(t));
    CountUpdate(Live, s.threads, t, s'.threads[t]);
    CountUpdate(Inside(s.core.phase), s.threads, t, s'.threads[t]);
    KeptSignal(s, s', t);
    forall i | 0 <= i < |s'.threads| ensures InStep(s', i) {
      assert InStep(s, i);
    }
  }

  lemma DepartKeeps(s: State, t: nat)
    requires Sound(s) && Enabled(s, Depart(t))
    ensures Sound(Apply(s, Depart(t)))
  {
    var s' := Apply(s, Depart(t));
    var ts := s.threads[t := Gone];
    CountUpdate(Live, s.threads, t, Gone);
    CountUpdate(Inside(s.core.phase), s.threads, t, Gone);
    forall i | 0 <= i < |s'.threads| ensures InStep(s', i) {
      assert InStep(s, i);
    }
    if s.core.entered != 0 {
      CountWakeAll(Live, ts);
      CountWakeAll(Inside(s.core.phase), ts);
      assert forall i :: 0 <= i < |s'.threads| ==> !s'.threads[i].Asleep?;
    } else if s.core.running == 1 {
      AllGone(ts);
    } else {
      KeptSignal(s, s', t);
    }
  }

  lemma {:induction false} AllGone(ts: seq<Thread>)
    requires Count(Live, ts) == 0
    ensures forall i :: 0 <= i < |ts| ==> ts[i].Gone?
  {
    if ts != [] {
      AllGone(ts[..|ts| - 1]);
    }
  }

  // ------------------------------------------------ every run

  function Initial(n: nat): State {
    State(Core(n, 0, 0), seq(n, _ => Outside), seq(n, _ => 0), [])
  }

  ghost predicate Runs(s: State, steps: seq<Step>, u: State)
    requires |s.arrivals| == |s.threads|
    decreases |steps|
  {
    if steps == [] then s == u
    else Enabled(s, steps[0]) && Runs(Apply(s, steps[0]), steps[1..], u)
  }

  lemma {:induction false} AllOutside(n: nat, ts: seq<Thread>)
    requires |ts| == n && forall i :: 0 <= i < n ==> ts[i] == Outside
    ensures Count(Live, ts) == n && Count(Inside(0), ts) == 0
  {
    if n > 0 {
      AllOutside(n - 1, ts[..n - 1]);
    }
  }

  lemma InitialSound(n: nat)
    ensures Sound(Initial(n))
  {
    AllOutside(n, Initial(n).threads);
  }

  lemma StepKeeps(s: State, step: Step)
    requires Sound(s) && Enabled(s, step)
    ensures Sound(Apply(s, step))
  {
    match step
    case Arrive(t) => ArriveKeeps(s, t);
    case Resumes(t) => ResumeKeeps(s, t);
    case Notify(t) => NotifyKeeps(s, t);
    case SpuriousWake(t) => SpuriousKeeps(s, t);
    case Depart(t) => DepartKeeps(s, t);
  }

  lemma {:induction false} RunKeeps(s: State, steps: seq<Step>, u: State)
    requires Sound(s) && Runs(s, steps, u)
    ensures Sound(u)
    decreases |steps|
  {
    if steps != [] {
      StepKeeps(s, steps[0]);
      RunKeeps(Apply(s, steps[0]), steps[1..], u);
    }
  }

  /** For any number of threads and any interleaving: exactly one call per completed phase
      has returned true and none of the current one; a thread about to enter passes the
      barrier's check; and if any thread is live, some live thread is not asleep. */
  lemma BarrierSafe(n: nat, steps: seq<Step>, u: State)
    requires Runs(Initial(n), steps, u)
    ensures forall p :: Wins(u.results, p) == if 0 <= p < u.core.phase then 1 else 0
    ensures forall t :: Enabled(u, Arrive(t)) ==> u.core.entered < u.core.running
    ensures (exists i :: 0 <= i < |u.threads| && !u.threads[i].Gone?) ==>
              exists i :: 0 <= i < |u.threads| && !u.threads[i].Gone? && !u.threads[i].Asleep?
  {
    InitialSound(n);
    RunKeeps(Initial(n), steps, u);
    forall t | Enabled(u, Arrive(t)) ensures u.core.entered < u.core.running {
      EntryCheckHolds(u, t);
    }
    if exists i :: 0 <= i < |u.threads| && !u.threads[i].Gone? {
      SomeoneAwake(u);
    }
  }

  lemma SomeoneAwake(u: State)
    requires Sound(u) && exists i :: 0 <= i < |u.threads| && !u.threads[i].Gone?
    ensures exists i :: 0 <= i < |u.threads| && !u.threads[i].Gone? && !u.threads[i].Asleep?
  {
    if forall i :: 0 <= i < |u.threads| ==> u.threads[i].Gone? || u.threads[i].Asleep? {
      forall i | 0 <= i < |u.threads| && Is(Live, u.threads[i])
        ensures Is(Inside(u.core.phase), u.threads[i])
      {
        assert InStep(u, i);
      }
      CountSame(u.threads, u.core.phase);
    }
  }

  lemma {:induction false} CountSame(ts: seq<Thread>, phase: int)
    requires forall i :: 0 <= i < |ts| && Is(Live, ts[i]) ==> Is(Inside(phase), ts[i])
    ensures Count(Live, ts) == Count(Inside(phase), ts)
  {
    if ts != [] {
      CountSame(ts[..|ts| - 1], phase);
    }
  }

  /** No thread leaves a phase before every remaining live thread has entered it: after a
      step by which a call that entered in phase `cp` returns, each live thread has entered
      at least cp + 1 times. */
  lemma NobodyLeavesEarly(n: nat, steps: seq<Step>, u: State, step: Step, i: nat)
    requires Runs(Initial(n), steps, u) && Enabled(u, step) && |u.arrivals| == |u.threads|
    requires Apply(u, step).results != u.results
    requires i < |u.threads| && !Apply(u, step).threads[i].Gone?
    ensures var rs := Apply(u, step).results;
            |rs| == |u.results| + 1 && Apply(u, step).arrivals[i] >= rs[|rs| - 1].phase + 1
  {
    InitialSound(n);
    RunKeeps(Initial(n), steps, u);
    StepKeeps(u, step);
    assert InStep(u, step.t);
    assert InStep(Apply(u, step), i);
  }
}
