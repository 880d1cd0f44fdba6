/** The clik command queue: the object the device lock protects, one method per
    critical section, and the worker's sweep over the pending commands. */
module CommandQueue {
  import opened Options
  import opened ClikCommands

  datatype Entry = Entry(timestamp: nat, command: Command)

  datatype Queue = Queue(commands: seq<Entry>, next: nat, dispatched: nat, executed: nat, shutdown: bool)

  const EMPTY: Queue := Queue([], 1, 0, 0, false)

  /** The pending list holds exactly the timestamps executed + 1 .. next - 1, in order. */
  ghost predicate InOrder(q: Queue) {
    && q.executed <= q.dispatched < q.next
    && |q.commands| == q.next - 1 - q.executed
    && forall i :: 0 <= i < |q.commands| ==> q.commands[i].timestamp == q.executed + 1 + i
  }

  function Push(q: Queue, c: Command): Queue {
    q.(commands := q.commands + [Entry(q.next, c)], next := q.next + 1)
  }

  function Submit(q: Queue, call: Call): (bool, Queue) {
    match Admit(call)
    case None => (false, q)
    case Some(c) => if q.shutdown then (false, q) else (true, Push(q, c))
  }

  function Latest(entries: seq<Entry>): nat {
    if entries == [] then 0
    else
      var rest, last := Latest(entries[..|entries| - 1]), entries[|entries| - 1].timestamp;
      if rest < last then last else rest
  }

  function Release(q: Queue): (bool, Queue) {
    if Latest(q.commands) <= q.dispatched then (false, q)
    else (true, q.(dispatched := Latest(q.commands)))
  }

  predicate HeadDue(q: Queue, current: nat) {
    q.commands != [] && q.commands[0].timestamp <= current
  }

  function Retire(q: Queue): Queue
    requires q.commands != []
  {
    q.(executed := q.commands[0].timestamp, commands := q.commands[1..])
  }

  lemma {:induction false} LatestInOrder(entries: seq<Entry>, first: nat)
    requires forall i :: 0 <= i < |entries| ==> entries[i].timestamp == first + i
    ensures Latest(entries) == if entries == [] then 0 else first + |entries| - 1
  {
    if entries != [] {
      LatestInOrder(entries[..|entries| - 1], first);
    }
  }

  /** Dispatching covers every enqueued command, and reports whether it made a difference. */
  lemma DispatchCoversAll(q: Queue)
    requires InOrder(q)
    ensures Release(q).0 <==> q.dispatched < q.next - 1
    ensures Release(q).1 == q.(dispatched := q.next - 1)
  {
    LatestInOrder(q.commands, q.executed + 1);
  }

  lemma OrderKept(q: Queue, call: Call, current: nat)
    requires InOrder(q)
    ensures InOrder(Submit(q, call).1)
    ensures InOrder(Release(q).1)
    ensures HeadDue(q, current) && current <= q.dispatched ==> InOrder(Retire(q))
  {
    DispatchCoversAll(q);
  }

  /** The commands known at the start stay a prefix of the list as it shrinks and grows. */
  lemma PrefixTail(all: seq<Entry>, done: nat, commands: seq<Entry>)
    requires done < |all| && all[done..] <= commands
    ensures commands != [] && commands[0] == all[done] && all[done + 1..] <= commands[1..]
  {
    assert all[done..][0] == all[done];
    assert all[done..][1..] == all[done + 1..];
  }

  /** A critical section another thread may run while the worker executes a command. */
  datatype UserStep = Enqueue(call: Call) | Dispatch

  class ClikQueue {
    var commands: seq<Entry>
    var nextTimestamp: nat
    var dispatchedTimestamp: nat
    var executedTimestamp: nat
    var shutdown: bool

    ghost function State(): Queue
      reads this
    {
      Queue(commands, nextTimestamp, dispatchedTimestamp, executedTimestamp, shutdown)
    }

    constructor ()
      ensures State() == EMPTY
    {
      commands := [];
      executedTimestamp, dispatchedTimestamp := 0, 0;
      nextTimestamp := 1;
      shutdown := false;
    }

    /** Allocates the timestamp of a new command, unless the queue is shutting down. */
    method CreateCommand(c: Command) returns (entry: Option<Entry>)
      modifies this
      ensures entry == if old(shutdown) then None else Some(Entry(old(nextTimestamp), c))
      ensures State() == if old(shutdown) then old(State()) else old(State()).(next := old(nextTimestamp) + 1)
    {
      if shutdown {
        return None;
      }
      entry := Some(Entry(nextTimestamp, c));
      nextTimestamp := nextTimestamp + 1;
    }

    method Enqueue(call: Call) returns (ok: bool)
      modifies this
      ensures (ok, State()) == Submit(old(State()), call)
    {
      var admitted := Admit(call);
      if admitted.None? {
        return false;
      }
      var entry := CreateCommand(admitted.value);
      if entry.None? {
        return false;
      }
      commands := commands + [entry.value];
      return true;
    }

    method Dispatch() returns (ok: bool)
      modifies this
      ensures (ok, State()) == Release(old(State()))
    {
      var mostRecent := 0;
      for i := 0 to |commands|
        invariant mostRecent == Latest(commands[..i])
      {
        assert commands[..i + 1][..i] == commands[..i];
        mostRecent := if mostRecent < commands[i].timestamp then commands[i].timestamp else mostRecent;
      }
      assert commands[..|commands|] == commands;
      if mostRecent <= dispatchedTimestamp {
        return false;
      }
      dispatchedTimestamp := mostRecent;
      return true;
    }

    /** The test `clik_wait` repeats with the timestamp it read on entry: some command up to
        that timestamp is still pending. */
    method MustWait(current: nat) returns (wait: bool)
      ensures wait <==> executedTimestamp < current
      ensures InOrder(State()) && current < nextTimestamp ==>
                (wait <==> exists e :: e in commands && e.timestamp <= current)
    {
      if InOrder(State()) && executedTimestamp < current < nextTimestamp {
        assert commands[0] in commands;
      }
      wait := executedTimestamp < current;
    }

    method Interfere(steps: seq<UserStep>)
      requires InOrder(State())
      modifies this
      ensures InOrder(State())
      ensures executedTimestamp == old(executedTimestamp) && dispatchedTimestamp >= old(dispatchedTimestamp)
      ensures old(commands) <= commands
    {
      for i := 0 to |steps|
        invariant InOrder(State())
        invariant executedTimestamp == old(executedTimestamp) && dispatchedTimestamp >= old(dispatchedTimestamp)
        invariant old(commands) <= commands
      {
        match steps[i]
        case Enqueue(call) =>
          OrderKept(State(), call, 0);
          var _ := Enqueue(call);
        case Dispatch =>
          DispatchCoversAll(State());
          var _ := Dispatch();
      }
    }

    /** With the lock taken again, the executed command is still at the head. */
    method RetireHead(entry: Entry, ghost current: nat)
      requires InOrder(State()) && HeadDue(State(), current) && current <= dispatchedTimestamp
      requires entry == commands[0]
      modifies this
      ensures State() == Retire(old(State())) && InOrder(State())
    {
      OrderKept(State(), KernelCall(None), current);
      executedTimestamp := entry.timestamp;
      commands := commands[1..];
    }

    /** One pass of the worker. `windows[i]` are the critical sections of other threads
        that run while the i-th command executes without the lock. Whatever they are, the
        pass runs exactly the commands dispatched when it started, in order. */
    method Sweep(k: Kernels, w: World, windows: seq<seq<UserStep>>) returns (w': World, progress: bool)
      requires InOrder(State())
      modifies this
      ensures InOrder(State())
      ensures executedTimestamp == old(dispatchedTimestamp)
      ensures w' == ExecuteAll(k, w, Commands(old(commands)[..old(dispatchedTimestamp - executedTimestamp)]))
      ensures old(commands)[old(dispatchedTimestamp - executedTimestamp)..] <= commands
      ensures progress <==> old(executedTimestamp) < old(dispatchedTimestamp)
    {
      var previous, current := executedTimestamp, dispatchedTimestamp;
      ghost var all := commands;
      var done := 0;
      w' := w;
      while commands != [] && commands[0].timestamp <= current
        invariant InOrder(State()) && current <= dispatchedTimestamp
        invariant 0 <= done <= current - previous <= |all|
        invariant executedTimestamp == previous + done
        invariant all[done..] <= commands
        invariant w' == ExecuteAll(k, w, Commands(all[..done]))
        decreases current - executedTimestamp
      {
        var entry := commands[0];
        PrefixTail(all, done, commands);
        CommandsAppend(k, w, all, done);
        w' := Execute(k, w', entry.command).1;
        if done < |windows| {
          Interfere(windows[done]);
        }
        PrefixTail(all, done, commands);
        RetireHead(entry, current);
        done := done + 1;
      }
      progress := executedTimestamp > previous;
    }
  }

  function Commands(entries: seq<Entry>): (cs: seq<Command>)
    ensures |cs| == |entries|
  {
    if entries == [] then []
    else Commands(entries[..|entries| - 1]) + [entries[|entries| - 1].command]
  }

  lemma CommandsAppend(k: Kernels, w: World, entries: seq<Entry>, n: nat)
    requires n < |entries|
    ensures Commands(entries[..n + 1]) == Commands(entries[..n]) + [entries[n].command]
    ensures ExecuteAll(k, w, Commands(entries[..n + 1]))
         == Execute(k, ExecuteAll(k, w, Commands(entries[..n])), entries[n].command).1
  {
    assert entries[..n + 1][..n] == entries[..n];
    ExecuteAllAppend(k, w, Commands(entries[..n]), entries[n].command);
  }
}
