/** The buffer operations of the clik library: the synchronous calls, and the same
    work carried out later by a queued command. */
module ClikCommands {
  import opened Words
  import opened Options
  import opened DeviceMemory

  datatype Buffer = Buffer(addr: Word, size: Word)

  /** Everything a command can change. Host pointers are indices into `host`. */
  datatype World = World(device: Memory, host: Memory)

  /** A kernel's result and effect on device memory, for each kernel handle. */
  type Kernels = (nat, Memory) -> (bool, Memory)

  datatype Command =
    | ReadBuffer(dst: nat, buffer: Buffer, offset: Word, size: Word)
    | WriteBuffer(buffer: Buffer, offset: Word, size: Word, src: nat)
    | CopyBuffer(dstBuffer: Buffer, dstOffset: Word, srcBuffer: Buffer, srcOffset: Word, size: Word)
    | RunKernel(kernel: nat)

  // ------------------------------------------------ the synchronous reference

  function DeviceToHost(w: World, dst: nat, addr: Word, size: Word): (bool, World) {
    if Mapped(w.device, addr, size) && Mapped(w.host, dst, size)
    then (true, w.(host := Write(w.host, dst, Read(w.device, addr, size))))
    else (false, w)
  }

  function HostToDevice(w: World, addr: Word, src: nat, size: Word): (bool, World) {
    if Mapped(w.device, addr, size) && Mapped(w.host, src, size)
    then (true, w.(device := Write(w.device, addr, Read(w.host, src, size))))
    else (false, w)
  }

  function SyncRead(w: World, dst: Option<nat>, src: Option<Buffer>, offset: Word, size: Word): (bool, World) {
    if src.None? || dst.None? then (false, w)
    else if Add(offset, size) > src.value.size then (false, w)
    else DeviceToHost(w, dst.value, Add(src.value.addr, offset), size)
  }

  function SyncWrite(w: World, dst: Option<Buffer>, offset: Word, src: Option<nat>, size: Word): (bool, World) {
    if src.None? || dst.None? then (false, w)
    else if Add(offset, size) > dst.value.size then (false, w)
    else HostToDevice(w, Add(dst.value.addr, offset), src.value, size)
  }

  function SyncCopy(w: World, dst: Option<Buffer>, dstOffset: Word, src: Option<Buffer>, srcOffset: Word, size: Word)
    : (bool, World)
  {
    if src.None? || dst.None? then (false, w)
    else if Add(dstOffset, size) > dst.value.size then (false, w)
    else if Add(srcOffset, size) > src.value.size then (false, w)
    else
      var (ok, m) := CopyResult(w.device, Add(dst.value.addr, dstOffset), Add(src.value.addr, srcOffset), size);
      (ok, w.(device := m))
  }

  function SyncKernel(k: Kernels, w: World, kernel: Option<nat>): (bool, World) {
    if kernel.None? then (false, w)
    else
      var (ok, m) := k(kernel.value, w.device);
      (ok, w.(device := m))
  }

  /** A call of the API, as made by the user: any pointer may be null. */
  datatype Call =
    | ReadCall(dst: Option<nat>, src: Option<Buffer>, offset: Word, size: Word)
    | WriteCall(to: Option<Buffer>, offset: Word, from: Option<nat>, size: Word)
    | CopyCall(to: Option<Buffer>, dstOffset: Word, src: Option<Buffer>, srcOffset: Word, size: Word)
    | KernelCall(kernel: Option<nat>)

  function Sync(k: Kernels, w: World, call: Call): (bool, World) {
    match call
    case ReadCall(dst, src, offset, size) => SyncRead(w, dst, src, offset, size)
    case WriteCall(dst, offset, src, size) => SyncWrite(w, dst, offset, src, size)
    case CopyCall(dst, dstOffset, src, srcOffset, size) => SyncCopy(w, dst, dstOffset, src, srcOffset, size)
    case KernelCall(kernel) => SyncKernel(k, w, kernel)
  }

  // ------------------------------------------------ deferred execution

  /** The command an enqueue call creates, or None when the call is refused. */
  function Admit(call: Call): Option<Command> {
    match call
    case ReadCall(dst, src, offset, size) =>
      if src.None? || dst.None? || Add(offset, size) > src.value.size then None
      else Some(ReadBuffer(dst.value, src.value, offset, size))
    case WriteCall(dst, offset, src, size) =>
      if src.None? || dst.None? || Add(offset, size) > dst.value.size then None
      else Some(WriteBuffer(dst.value, offset, size, src.value))
    case CopyCall(dst, dstOffset, src, srcOffset, size) =>
      if src.None? || dst.None? || Add(dstOffset, size) > dst.value.size || Add(srcOffset, size) > src.value.size then None
      else Some(CopyBuffer(dst.value, dstOffset, src.value, srcOffset, size))
    case KernelCall(kernel) =>
      if kernel.None? then None else Some(RunKernel(kernel.value))
  }

  function Execute(k: Kernels, w: World, c: Command): (bool, World) {
    match c
    case ReadBuffer(dst, buffer, offset, size) => DeviceToHost(w, dst, Add(buffer.addr, offset), size)
    case WriteBuffer(buffer, offset, size, src) => HostToDevice(w, Add(buffer.addr, offset), src, size)
    case CopyBuffer(dst, dstOffset, src, srcOffset, size) =>
      var (ok, m) := CopyResult(w.device, Add(dst.addr, dstOffset), Add(src.addr, srcOffset), size);
      (ok, w.(device := m))
    case RunKernel(kernel) =>
      var (ok, m) := k(kernel, w.device);
      (ok, w.(device := m))
  }

  /** Executing commands one after the other; a failing one is reported and passed. */
  function ExecuteAll(k: Kernels, w: World, cs: seq<Command>): (r: World)
    decreases |cs|
  {
    if cs == [] then w else ExecuteAll(k, Execute(k, w, cs[0]).1, cs[1..])
  }

  /** Enqueuing refuses exactly what the synchronous call refuses before it touches the
      device; what it accepts does the same when executed as the synchronous call. */
  lemma DeferredCallAgrees(k: Kernels, w: World, call: Call)
    ensures Admit(call).Some? ==> Execute(k, w, Admit(call).value) == Sync(k, w, call)
    ensures Admit(call).None? ==> Sync(k, w, call) == (false, w)
  {
  }

  lemma {:induction false} ExecuteAllAppend(k: Kernels, w: World, cs: seq<Command>, c: Command)
    ensures ExecuteAll(k, w, cs + [c]) == Execute(k, ExecuteAll(k, w, cs), c).1
    decreases |cs|
  {
    if cs != [] {
      ExecuteAllAppend(k, Execute(k, w, cs[0]).1, cs[1..], c);
      assert (cs + [c])[1..] == cs[1..] + [c];
    }
  }

  /** The program that makes the calls one after the other through the synchronous API. */
  function SyncAll(k: Kernels, w: World, calls: seq<Call>): World {
    if calls == [] then w
    else Sync(k, SyncAll(k, w, calls[..|calls| - 1]), calls[|calls| - 1]).1
  }

  /** `log` holds, in order, the command each of `calls` was turned into. */
  ghost predicate Accepts(calls: seq<Call>, log: seq<Command>) {
    && |calls| == |log|
    && (log == [] ||
        var n := |log| - 1;
        Admit(calls[n]) == Some(log[n]) && Accepts(calls[..n], log[..n]))
  }

  lemma AcceptsOneMore(calls: seq<Call>, log: seq<Command>, call: Call)
    requires Accepts(calls, log) && Admit(call).Some?
    ensures Accepts(calls + [call], log + [Admit(call).value])
  {
    assert (calls + [call])[..|calls|] == calls && (log + [Admit(call).value])[..|log|] == log;
  }

  /** Executing the first n accepted commands is making the first n calls synchronously. */
  lemma {:induction false} DeferredProgramAgrees(k: Kernels, w: World, calls: seq<Call>, log: seq<Command>, n: nat)
    requires Accepts(calls, log) && n <= |log|
    ensures ExecuteAll(k, w, log[..n]) == SyncAll(k, w, calls[..n])
  {
    var last := |log| - 1;
    if n < |log| {
      DeferredProgramAgrees(k, w, calls[..last], log[..last], n);
      assert log[..last][..n] == log[..n] && calls[..last][..n] == calls[..n];
    } else if n > 0 {
      DeferredProgramAgrees(k, w, calls[..last], log[..last], last);
      assert log[..last][..last] == log[..last] && calls[..last][..last] == calls[..last];
      DeferredCallAgrees(k, SyncAll(k, w, calls[..last]), calls[last]);
      ExecuteAllAppend(k, w, log[..last], log[last]);
      assert log[..n] == log[..last] + [log[last]] && calls[..n] == calls && log[..n] == log;
    }
  }

  lemma {:induction false} ExecuteAllConcat(k: Kernels, w: World, cs: seq<Command>, ds: seq<Command>)
    ensures ExecuteAll(k, w, cs + ds) == ExecuteAll(k, ExecuteAll(k, w, cs), ds)
    decreases |cs|
  {
    if cs == [] {
      assert cs + ds == ds;
    } else {
      ExecuteAllConcat(k, Execute(k, w, cs[0]).1, cs[1..], ds);
      assert (cs + ds)[1..] == cs[1..] + ds;
    }
  }

  // ------------------------------------------------ what commands do

  /** `a` is the device address of byte `offset` of the buffer, on 64 bits. */
  ghost predicate Located(b: Buffer, offset: Word, a: int) {
    0 <= a < TWO64 && (a == b.addr + offset || a == b.addr + offset - TWO64)
  }

  /** An accepted read succeeds exactly if both ranges exist. It then brings the bytes at the
      buffer's address plus the offset to the host, and changes nothing else. */
  lemma ReadDelivers(k: Kernels, w: World, dst: nat, b: Buffer, offset: Word, size: Word, from: int)
    requires Located(b, offset, from)
    requires Admit(ReadCall(Some(dst), Some(b), offset, size)).Some?
    ensures var r := Execute(k, w, Admit(ReadCall(Some(dst), Some(b), offset, size)).value);
            && r == Sync(k, w, ReadCall(Some(dst), Some(b), offset, size))
            && if from + size <= |w.device| && dst + size <= |w.host|
               then r == (true, World(w.device, w.host[..dst] + w.device[from..from + size] + w.host[dst + size..]))
               else r == (false, w)
  {
  }

  /** An accepted write succeeds exactly if both ranges exist. It then puts the host bytes at the
      buffer's address plus the offset, and changes nothing else. */
  lemma WriteDelivers(k: Kernels, w: World, b: Buffer, offset: Word, src: nat, size: Word, to: int)
    requires Located(b, offset, to)
    requires Admit(WriteCall(Some(b), offset, Some(src), size)).Some?
    ensures var r := Execute(k, w, Admit(WriteCall(Some(b), offset, Some(src), size)).value);
            && r == Sync(k, w, WriteCall(Some(b), offset, Some(src), size))
            && if to + size <= |w.device| && src + size <= |w.host|
               then r == (true, World(w.device[..to] + w.host[src..src + size] + w.device[to + size..], w.host))
               else r == (false, w)
  {
  }

  /** An accepted copy between ranges that do not wrap succeeds exactly if both exist. Unless it runs
      upwards into its own source with more than 1 MiB, it then puts the bytes at the source's
      address plus offset at the destination's address plus offset, and changes nothing else. */
  lemma CopyDelivers(k: Kernels, w: World, dst: Buffer, dstOffset: Word, src: Buffer, srcOffset: Word, size: Word,
                     to: int, from: int)
    requires Located(dst, dstOffset, to) && Located(src, srcOffset, from)
    requires size > 0 && to + size <= TWO64 && from + size <= TWO64
    requires Admit(CopyCall(Some(dst), dstOffset, Some(src), srcOffset, size)).Some?
    ensures var r := Execute(k, w, Admit(CopyCall(Some(dst), dstOffset, Some(src), srcOffset, size)).value);
            && r == Sync(k, w, CopyCall(Some(dst), dstOffset, Some(src), srcOffset, size))
            && (r.0 <==> to + size <= |w.device| && from + size <= |w.device|)
            && r.1.host == w.host
            && (r.0 && !(from < to < from + size && size > 1048576) ==>
                  r.1.device == w.device[..to] + w.device[from..from + size] + w.device[to + size..])
  {
    CopyExecutes(k, w, dst, dstOffset, src, srcOffset, size, to, from);
    CopyOutcome(w.device, to, from, size);
  }

  lemma CopyExecutes(k: Kernels, w: World, dst: Buffer, dstOffset: Word, src: Buffer, srcOffset: Word, size: Word,
                     to: int, from: int)
    requires Located(dst, dstOffset, to) && Located(src, srcOffset, from)
    requires Admit(CopyCall(Some(dst), dstOffset, Some(src), srcOffset, size)).Some?
    ensures var (ok, m) := CopyResult(w.device, to, from, size);
            && Execute(k, w, Admit(CopyCall(Some(dst), dstOffset, Some(src), srcOffset, size)).value) == (ok, World(m, w.host))
            && Sync(k, w, CopyCall(Some(dst), dstOffset, Some(src), srcOffset, size)) == (ok, World(m, w.host))
  {
    assert Add(dst.addr, dstOffset) == to && Add(src.addr, srcOffset) == from;
  }

  lemma CopyOutcome(m: Memory, to: Word, from: Word, size: Word)
    requires size > 0 && to + size <= TWO64 && from + size <= TWO64
    ensures var (ok, m') := CopyResult(m, to, from, size);
            && (ok <==> to + size <= |m| && from + size <= |m|)
            && (ok && !(from < to < from + size && size > 1048576) ==>
                  m' == m[..to] + m[from..from + size] + m[to + size..])
  {
    CopySucceedsExactly(m, to, from, size);
    if CopyResult(m, to, from, size).0 && !(from < to < from + size && size > CHUNK) {
      CopyMoves(m, to, from, size);
    }
  }

  /** A kernel command is accepted for any kernel, and its result and effect on the device are the
      kernel's own; the host is left alone. */
  lemma KernelRuns(k: Kernels, w: World, kernel: nat)
    ensures Admit(KernelCall(Some(kernel))).Some?
    ensures var r := Execute(k, w, Admit(KernelCall(Some(kernel))).value);
            && r == Sync(k, w, KernelCall(Some(kernel)))
            && (r.0, r.1.device) == k(kernel, w.device) && r.1.host == w.host
  {
  }

  /** What was written to a buffer is read back from it, and reading leaves the device alone. */
  lemma WriteThenRead(k: Kernels, w: World, b: Buffer, offset: Word, size: Word, src: nat, dst: nat)
    requires Execute(k, w, WriteBuffer(b, offset, size, src)).0 && Mapped(w.host, dst, size)
    ensures var w1 := Execute(k, w, WriteBuffer(b, offset, size, src)).1;
            var (ok, w2) := Execute(k, w1, ReadBuffer(dst, b, offset, size));
            && ok && w1.host == w.host && w2.device == w1.device && |w2.host| == |w.host|
            && w2.host[..dst] == w.host[..dst] && w2.host[dst + size..] == w.host[dst + size..]
            && w2.host[dst..dst + size] == w.host[src..src + size]
  {
    var w1 := Execute(k, w, WriteBuffer(b, offset, size, src)).1;
    var data := w.host[src..src + size];
    assert Read(w1.device, Add(b.addr, offset), size) == data;
    var h := Write(w.host, dst, data);
    assert h[..dst] == w.host[..dst] && h[dst + size..] == w.host[dst + size..] && h[dst..dst + size] == data;
  }

  /** The device bytes an accepted command may change: those of its destination buffer. */
  ghost predicate Targets(c: Command, x: int) {
    match c
    case ReadBuffer(_, _, _, _) => false
    case WriteBuffer(b, _, _, _) => b.addr <= x < b.addr + b.size
    case CopyBuffer(b, _, _, _, _) => b.addr <= x < b.addr + b.size
    case RunKernel(_) => true
  }

  /** The range a command writes on the device does not wrap. */
  ghost predicate NoWrap(c: Command) {
    match c
    case ReadBuffer(_, _, _, _) => true
    case WriteBuffer(b, offset, size, _) => offset + size < TWO64 && b.addr + b.size <= TWO64
    case CopyBuffer(b, offset, _, _, size) => offset + size < TWO64 && b.addr + b.size <= TWO64
    case RunKernel(_) => true
  }

  /** An accepted command, whether it then succeeds or fails, changes no device byte outside its
      destination buffer. */
  lemma StaysInBuffer(k: Kernels, w: World, call: Call, x: int)
    requires Admit(call).Some? && NoWrap(Admit(call).value)
    requires 0 <= x < |w.device| && !Targets(Admit(call).value, x)
    ensures var d := Execute(k, w, Admit(call).value).1.device; |d| == |w.device| && d[x] == w.device[x]
  {
    match call
    case CopyCall(dst, dstOffset, src, srcOffset, size) =>
      var to, from := Add(dst.value.addr, dstOffset), Add(src.value.addr, srcOffset);
      if size > 0 {
        CopyTouchesOnlyDestination(w.device, to, from, size, x);
      }
    case ReadCall(_, _, _, _) =>
    case WriteCall(_, _, _, _) =>
    case KernelCall(_) =>
  }

  /** Executing `c` leaves alone the byte at `x` if it is outside buffer `b`. */
  ghost predicate KeepsOutside(k: Kernels, w: World, c: Command, b: Buffer, x: int) {
    |w.device| <= TWO64 && 0 <= x < |w.device| && !(b.addr <= x < b.addr + b.size) ==>
      var d := Execute(k, w, c).1.device;
      |d| == |w.device| && d[x] == w.device[x]
  }

  /** The device range a command that passed the bounds check addresses: inside its buffer, past the
      end of every device, or below the buffer. */
  lemma AcceptedRange(b: Buffer, offset: Word, size: Word)
    requires Add(offset, size) <= b.size && size > 0 && 0 < b.addr && b.addr + b.size <= TWO64
    ensures var to := Add(b.addr, offset);
            if b.addr + offset < TWO64
            then (b.addr <= to && to + size <= b.addr + b.size) || to + size > TWO64
            else to < b.addr && to + size <= TWO64
  {
  }

  /** No accepted write changes a byte outside its buffer, in any world, if and only if the buffer's
      address plus the offset does not wrap. */
  lemma WriteStaysExactly(k: Kernels, b: Buffer, offset: Word, size: Word, src: nat)
    requires Admit(WriteCall(Some(b), offset, Some(src), size)).Some?
    requires size > 0 && 0 < b.addr && b.addr + b.size <= TWO64
    ensures (forall w, x :: KeepsOutside(k, w, WriteBuffer(b, offset, size, src), b, x)) <==> b.addr + offset < TWO64
  {
    var c, to := WriteBuffer(b, offset, size, src), Add(b.addr, offset);
    AcceptedRange(b, offset, size);
    if b.addr + offset >= TWO64 {
      var w := World(Everywhere(a => 0, to + size), Everywhere(a => 1, src + size));
      assert Read(w.host, src, size)[0] == 1;
      assert !KeepsOutside(k, w, c, b, to);
    }
  }

  /** For a copy of one chunk the source range matters too: it must exist, and differ from the
      destination, for the copy to change anything. */
  lemma CopyStaysExactly(k: Kernels, b: Buffer, offset: Word, src: Buffer, srcOffset: Word, size: Word)
    requires Admit(CopyCall(Some(b), offset, Some(src), srcOffset, size)).Some?
    requires 0 < size <= CHUNK && 0 < b.addr && b.addr + b.size <= TWO64
    ensures (forall w, x :: KeepsOutside(k, w, CopyBuffer(b, offset, src, srcOffset, size), b, x)) <==>
              var to, from := Add(b.addr, offset), Add(src.addr, srcOffset);
              b.addr + offset < TWO64 || from + size > TWO64 || from == to
  {
    var c, to, from := CopyBuffer(b, offset, src, srcOffset, size), Add(b.addr, offset), Add(src.addr, srcOffset);
    AcceptedRange(b, offset, size);
    if b.addr + offset >= TWO64 && from + size <= TWO64 && from != to {
      var n := if to < from then from + size else to + size;
      var w := World(Everywhere(a => if a == from then 1 else 0, n), []);
      OneChunk(w.device, to, from, size);
      assert Read(w.device, from, size)[0] == 1;
      assert !KeepsOutside(k, w, c, b, to);
    } else {
      forall w: World, x: int ensures KeepsOutside(k, w, c, b, x) {
        CopyKeepsOutside(k, w, b, offset, src, srcOffset, size, x);
      }
    }
  }

  lemma CopyKeepsOutside(k: Kernels, w: World, b: Buffer, offset: Word, src: Buffer, srcOffset: Word, size: Word, x: int)
    requires Add(offset, size) <= b.size && 0 < size <= CHUNK && 0 < b.addr && b.addr + b.size <= TWO64
    requires b.addr + offset < TWO64 || Add(src.addr, srcOffset) + size > TWO64
             || Add(src.addr, srcOffset) == Add(b.addr, offset)
    ensures KeepsOutside(k, w, CopyBuffer(b, offset, src, srcOffset, size), b, x)
  {
    var m, to, from := w.device, Add(b.addr, offset), Add(src.addr, srcOffset);
    AcceptedRange(b, offset, size);
    OneChunk(m, to, from, size);
    if |m| <= TWO64 && Mapped(m, from, size) && Mapped(m, to, size) {
      var d := Write(m, to, Read(m, from, size));
      if from == to {
        assert d == m;
      } else {
        assert b.addr <= to && to + size <= b.addr + b.size;
      }
    }
  }

  lemma OneChunk(m: Memory, dst: Word, src: Word, size: Word)
    requires 0 < size <= CHUNK
    ensures CopyResult(m, dst, src, size) ==
            if Mapped(m, src, size) && Mapped(m, dst, size) then (true, Write(m, dst, Read(m, src, size))) else (false, m)
  {
  }

  /** A copy that is accepted for a buffer at 4096 and lands on the 16 bytes before it. */
  lemma CopyBelowBuffer(k: Kernels, w: World)
    requires |w.device| >= 8208
    ensures var call := CopyCall(Some(Buffer(4096, 64)), TWO64 - 16, Some(Buffer(8192, 64)), 0, 16);
            && Admit(call).Some?
            && Execute(k, w, Admit(call).value) ==
               (true, w.(device := Write(w.device, 4080, w.device[8192..8208])))
  {
    OneChunk(w.device, 4080, 8192, 16);
  }

  // ------------------------------------------------ host interference

  /** The host bytes a pending command will still read or write. */
  predicate Uses(c: Command, a: nat) {
    match c
    case ReadBuffer(dst, _, _, size) => dst <= a < dst + size
    case WriteBuffer(_, _, size, src) => src <= a < src + size
    case CopyBuffer(_, _, _, _, _) => false
    case RunKernel(_) => false
  }

  function Store(w: World, a: nat, v: byte): World
    requires a < |w.host|
  {
    w.(host := w.host[a := v])
  }

  lemma HostSizeKept(k: Kernels, w: World, c: Command)
    ensures |Execute(k, w, c).1.host| == |w.host|
  {
  }

  lemma {:induction false} HostSizeKeptByAll(k: Kernels, w: World, cs: seq<Command>)
    ensures |ExecuteAll(k, w, cs).host| == |w.host|
    decreases |cs|
  {
    if cs != [] {
      HostSizeKeptByAll(k, Execute(k, w, cs[0]).1, cs[1..]);
    }
  }

  lemma StoreCommutes(k: Kernels, w: World, c: Command, a: nat, v: byte)
    requires a < |w.host| && !Uses(c, a)
    ensures a < |Execute(k, w, c).1.host|
    ensures Execute(k, Store(w, a, v), c) == (Execute(k, w, c).0, Store(Execute(k, w, c).1, a, v))
  {
    HostSizeKept(k, w, c);
    match c
    case ReadBuffer(dst, buffer, offset, size) =>
      if Mapped(w.host, dst, size) && Mapped(w.device, Add(buffer.addr, offset), size) {
        var data := Read(w.device, Add(buffer.addr, offset), size);
        assert Write(w.host[a := v], dst, data) == Write(w.host, dst, data)[a := v];
      }
    case WriteBuffer(buffer, offset, size, src) =>
      if Mapped(w.host, src, size) {
        assert Read(w.host[a := v], src, size) == Read(w.host, src, size);
      }
    case CopyBuffer(_, _, _, _, _) =>
    case RunKernel(_) =>
  }

  /** A host store outside the footprint of the pending commands may be done before or
      after they all run. */
  lemma {:induction false} StoreCommutesWithAll(k: Kernels, w: World, cs: seq<Command>, a: nat, v: byte)
    requires a < |w.host| && forall c :: c in cs ==> !Uses(c, a)
    ensures a < |ExecuteAll(k, w, cs).host|
    ensures ExecuteAll(k, Store(w, a, v), cs) == Store(ExecuteAll(k, w, cs), a, v)
    decreases |cs|
  {
    HostSizeKeptByAll(k, w, cs);
    if cs != [] {
      StoreCommutes(k, w, cs[0], a, v);
      StoreCommutesWithAll(k, Execute(k, w, cs[0]).1, cs[1..], a, v);
    }
  }

  /** Storing `v` at `a` before the command runs is the same as storing it afterwards. */
  ghost predicate CommutesWithStore(k: Kernels, w: World, c: Command, a: nat, v: byte) {
    a < |w.host| ==>
      var (ok, w') := Execute(k, w, c);
      a < |w'.host| && Execute(k, Store(w, a, v), c) == (ok, Store(w', a, v))
  }

  lemma ReadConflicts(k: Kernels, c: Command, a: nat) returns (w: World)
    requires c.ReadBuffer? && Uses(c, a)
    ensures !CommutesWithStore(k, w, c, a, 1)
  {
    var from := Add(c.buffer.addr, c.offset);
    w := World(Everywhere(x => 0, from + c.size), Everywhere(x => 0, c.dst + c.size));
    var h := Write(w.host[a := 1], c.dst, Read(w.device, from, c.size));
    assert Execute(k, Store(w, a, 1), c).1.host == h && h[a] == 0;
  }

  lemma WriteConflicts(k: Kernels, c: Command, a: nat) returns (w: World)
    requires c.WriteBuffer? && Uses(c, a)
    ensures !CommutesWithStore(k, w, c, a, 1)
  {
    var to := Add(c.buffer.addr, c.offset);
    w := World(Everywhere(x => 0, to + c.size), Everywhere(x => 0, c.src + c.size));
    var d := Write(w.device, to, Read(w.host[a := 1], c.src, c.size));
    assert Execute(k, Store(w, a, 1), c).1.device == d && d[to + a - c.src] == 1;
    var e := Write(w.device, to, Read(w.host, c.src, c.size));
    assert Execute(k, w, c).1.device == e && e[to + a - c.src] == 0;
  }

  /** The host bytes a command uses are exactly those a store must not touch while it is pending. */
  lemma UsesExactly(k: Kernels, c: Command, a: nat)
    ensures (forall w, v :: CommutesWithStore(k, w, c, a, v)) <==> !Uses(c, a)
  {
    if !Uses(c, a) {
      forall w: World, v: byte ensures CommutesWithStore(k, w, c, a, v) {
        if a < |w.host| {
          StoreCommutes(k, w, c, a, v);
        }
      }
    } else if c.ReadBuffer? {
      var w := ReadConflicts(k, c, a);
    } else {
      var w := WriteConflicts(k, c, a);
    }
  }

  lemma UnusedByteKept(k: Kernels, w: World, c: Command, a: nat)
    requires a < |w.host| && !Uses(c, a)
    ensures a < |Execute(k, w, c).1.host| && Execute(k, w, c).1.host[a] == w.host[a]
  {
  }

  /** Host bytes that no pending command uses already have their final value. */
  lemma {:induction false} UnusedByteSettled(k: Kernels, w: World, cs: seq<Command>, a: nat)
    requires a < |w.host| && forall c :: c in cs ==> !Uses(c, a)
    ensures a < |ExecuteAll(k, w, cs).host| && ExecuteAll(k, w, cs).host[a] == w.host[a]
    decreases |cs|
  {
    if cs != [] {
      HostSizeKept(k, w, cs[0]);
      UnusedByteKept(k, w, cs[0], a);
      UnusedByteSettled(k, Execute(k, w, cs[0]).1, cs[1..], a);
    }
  }

  // ------------------------------------------------ the bounds check

  /** `end` is offset + size on 64 bits. */
  ghost predicate IsEnd(offset: Word, size: Word, end: int) {
    0 <= end < TWO64 && (end == offset + size || end == offset + size - TWO64)
  }

  /** Reads and writes are accepted exactly if no pointer is null and the 64-bit end of the range
      is not beyond the buffer. */
  lemma AdmitsTransfer(ptr: Option<nat>, b: Option<Buffer>, offset: Word, size: Word, end: int)
    requires IsEnd(offset, size, end)
    ensures Admit(ReadCall(ptr, b, offset, size)).Some? <==> ptr.Some? && b.Some? && end <= b.value.size
    ensures Admit(WriteCall(b, offset, ptr, size)).Some? <==> ptr.Some? && b.Some? && end <= b.value.size
  {
  }

  /** So are copies, with both ranges checked; kernels exactly if the kernel is not null. */
  lemma AdmitsCopy(dst: Option<Buffer>, dstOffset: Word, src: Option<Buffer>, srcOffset: Word, size: Word,
                   dstEnd: int, srcEnd: int, kernel: Option<nat>)
    requires IsEnd(dstOffset, size, dstEnd) && IsEnd(srcOffset, size, srcEnd)
    ensures Admit(CopyCall(dst, dstOffset, src, srcOffset, size)).Some? <==>
              dst.Some? && src.Some? && dstEnd <= dst.value.size && srcEnd <= src.value.size
    ensures Admit(KernelCall(kernel)).Some? <==> kernel.Some?
  {
  }

  /** The check `offset + size > buffer size` refuses exactly the ranges that leave the
      buffer, for every buffer, if and only if the 64-bit sum does not wrap. */
  lemma BoundsCheckExact(ptr: nat, offset: Word, size: Word)
    ensures (forall b :: Admit(ReadCall(Some(ptr), Some(b), offset, size)).Some? <==> offset + size <= b.size)
       <==> offset + size < TWO64
    ensures (forall b :: Admit(WriteCall(Some(b), offset, Some(ptr), size)).Some? <==> offset + size <= b.size)
       <==> offset + size < TWO64
  {
    if offset + size >= TWO64 {
      var b := Buffer(0, TWO64 - 1);
      assert Admit(ReadCall(Some(ptr), Some(b), offset, size)).Some?;
      assert Admit(WriteCall(Some(b), offset, Some(ptr), size)).Some?;
    }
  }

  /** For copies, if and only if neither sum wraps. */
  lemma CopyBoundsCheckExact(dstOffset: Word, srcOffset: Word, size: Word)
    ensures (forall b, c :: Admit(CopyCall(Some(b), dstOffset, Some(c), srcOffset, size)).Some? <==>
                              dstOffset + size <= b.size && srcOffset + size <= c.size)
       <==> dstOffset + size < TWO64 && srcOffset + size < TWO64
  {
    if dstOffset + size >= TWO64 || srcOffset + size >= TWO64 {
      var b := Buffer(0, TWO64 - 1);
      assert Admit(CopyCall(Some(b), dstOffset, Some(b), srcOffset, size)).Some?;
    }
  }
}
