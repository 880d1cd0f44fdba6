/** Device memory and the default `mem_copy` / `mem_fill` of a HAL device.
    Device memory is the address range [0, |m|): a read or write succeeds exactly
    when its whole range lies inside, and a failing one changes nothing. */
module DeviceMemory {
  import opened Words
  import opened Options

  type Memory = seq<byte>

  const CHUNK: nat := 1024 * 1024

  predicate Mapped(m: Memory, a: int, n: nat) {
    0 <= a && a + n <= |m|
  }

  function Read(m: Memory, a: int, n: nat): (s: seq<byte>)
    requires Mapped(m, a, n)
  {
    m[a..a + n]
  }

  function Write(m: Memory, a: int, s: seq<byte>): (r: Memory)
    requires Mapped(m, a, |s|)
  {
    m[..a] + s + m[a + |s|..]
  }

  function Min(a: nat, b: nat): nat {
    if a <= b then a else b
  }

  // ---------------------------------------------------------------- copying

  /** What the chunked copy does: 1 MiB at a time through a bounce buffer, stopping
      at the first chunk that cannot be read or written. */
  function CopyResult(m: Memory, dst: Word, src: Word, size: Word): (bool, Memory)
    decreases size
  {
    if size == 0 then (true, m)
    else
      var n := Min(size, CHUNK);
      if !Mapped(m, src, n) || !Mapped(m, dst, n) then (false, m)
      else CopyResult(Write(m, dst, Read(m, src, n)), Add(dst, n), Add(src, n), size - n)
  }

  /** The intended meaning: the destination receives the old source bytes. */
  ghost function Moved(m: Memory, dst: int, src: int, size: nat): Memory
    requires Mapped(m, src, size) && Mapped(m, dst, size)
  {
    Write(m, dst, Read(m, src, size))
  }

  /** Both ranges lie in device memory and neither wraps past 2^64. */
  ghost predicate CopyDefined(m: Memory, dst: int, src: int, size: nat) {
    Mapped(m, src, size) && Mapped(m, dst, size) && dst + size <= TWO64 && src + size <= TWO64
  }

  /** i % CHUNK, the position of byte `i` in its chunk. */
  ghost function Phase(i: nat): (p: nat) {
    if i < CHUNK then i else Phase(i - CHUNK)
  }

  lemma {:induction false} PhaseStep(j: nat, t: nat)
    requires Phase(j) == 0 && t <= CHUNK
    ensures Phase(j + t) == if t < CHUNK then t else 0
  {
    if j >= CHUNK {
      PhaseStep(j - CHUNK, t);
    }
  }

  /** The source index whose old byte ends up at destination index `i`, when the
      destination starts `d` bytes after the source: a byte that an earlier chunk
      has already overwritten is read back from where that chunk took it. */
  ghost function Origin(d: int, i: nat): (o: nat)
    ensures o <= i
    decreases i
  {
    if 0 < d <= i && Phase(i) < d then Origin(d, i - d) else i
  }

  /** The byte at `x` once the first `j` bytes have been copied. */
  ghost function CopiedByte(m: Memory, dst: int, src: int, j: nat, x: int): byte
    requires Mapped(m, src, j) && 0 <= x < |m|
  {
    if dst <= x < dst + j then m[src + Origin(dst - src, x - dst)] else m[x]
  }

  /** `now` is memory `m` after the first `j` bytes have been copied. */
  ghost predicate Copied(m: Memory, now: Memory, dst: int, src: int, j: nat)
    requires Mapped(m, src, j)
  {
    |now| == |m|
    && forall x {:trigger CopiedByte(m, dst, src, j, x)} :: 0 <= x < |m| ==> now[x] == CopiedByte(m, dst, src, j, x)
  }

  /** The next chunk, read back from partly overwritten memory, holds the right byte. */
  lemma ChunkByte(m: Memory, now: Memory, dst: int, src: int, size: Word, j: nat, i: nat)
    requires CopyDefined(m, dst, src, size) && j <= i < size && i < j + CHUNK && Phase(j) == 0
    requires Copied(m, now, dst, src, j)
    ensures now[src + i] == m[src + Origin(dst - src, i)]
  {
    var d := dst - src;
    PhaseStep(j, i - j);
    assert now[src + i] == CopiedByte(m, dst, src, j, src + i);
    assert dst <= src + i < dst + j <==> 0 < d <= i && Phase(i) < d;
  }

  lemma ChunkCopiedAt(m: Memory, now: Memory, dst: int, src: int, size: Word, j: nat, data: seq<byte>, x: int)
    requires CopyDefined(m, dst, src, size) && j + |data| <= size && |data| <= CHUNK && Phase(j) == 0
    requires Copied(m, now, dst, src, j) && Mapped(now, src + j, |data|) && data == Read(now, src + j, |data|)
    requires 0 <= x < |m|
    ensures Write(now, dst + j, data)[x] == CopiedByte(m, dst, src, j + |data|, x)
  {
    var i := x - dst;
    if j <= i < j + |data| {
      ChunkByte(m, now, dst, src, size, j, i);
      assert Write(now, dst + j, data)[x] == data[i - j] == now[src + j + (i - j)];
    } else {
      assert now[x] == CopiedByte(m, dst, src, j, x);
      assert Write(now, dst + j, data)[x] == now[x];
    }
  }

  lemma ChunkCopied(m: Memory, now: Memory, dst: int, src: int, size: Word, j: nat, n: nat)
    requires CopyDefined(m, dst, src, size) && j + n <= size && n <= CHUNK && Phase(j) == 0
    requires Copied(m, now, dst, src, j)
    ensures Mapped(now, src + j, n) && Mapped(now, dst + j, n)
    ensures Copied(m, Write(now, dst + j, Read(now, src + j, n)), dst, src, j + n)
  {
    var data := Read(now, src + j, n);
    var next := Write(now, dst + j, data);
    forall x | 0 <= x < |m|
      ensures next[x] == CopiedByte(m, dst, src, j + n, x)
    {
      ChunkCopiedAt(m, now, dst, src, size, j, data, x);
    }
  }

  lemma {:induction false} CopyFrom(m: Memory, now: Memory, dst: Word, src: Word, d: Word, s: Word, size: Word, j: nat)
    requires CopyDefined(m, dst, src, size) && j <= size && (Phase(j) == 0 || j == size)
    requires j < size ==> d == dst + j && s == src + j
    requires Copied(m, now, dst, src, j)
    ensures CopyResult(now, d, s, size - j).0
    ensures Copied(m, CopyResult(now, d, s, size - j).1, dst, src, size)
    decreases size - j
  {
    if j < size {
      var n := Min(size - j, CHUNK);
      ChunkCopied(m, now, dst, src, size, j, n);
      PhaseStep(j, n);
      CopyFrom(m, Write(now, d, Read(now, s, n)), dst, src, Add(d, n), Add(s, n), size, j + n);
    }
  }

  /** Exactly what a defined copy leaves at every address, overlapping or not. */
  lemma CopyEffect(m: Memory, dst: Word, src: Word, size: Word)
    requires CopyDefined(m, dst, src, size)
    ensures CopyResult(m, dst, src, size).0
    ensures Copied(m, CopyResult(m, dst, src, size).1, dst, src, size)
  {
    assert Copied(m, m, dst, src, 0);
    CopyFrom(m, m, dst, src, dst, src, size, 0);
  }

  /** The copy moves the old source bytes, whatever memory holds. */
  ghost predicate CopyMovesAnyMemory(dst: Word, src: Word, size: Word) {
    forall m: Memory | CopyDefined(m, dst, src, size) ::
      CopyResult(m, dst, src, size) == (true, Moved(m, dst, src, size))
  }

  /** The copy is a faithful move exactly when it does not run upwards into its own
      source with more than one chunk. */
  lemma CopyMovesExactly(dst: Word, src: Word, size: Word)
    requires dst + size <= TWO64 && src + size <= TWO64
    ensures CopyMovesAnyMemory(dst, src, size) <==> !(src < dst < src + size && size > 1048576)
  {
    if src < dst < src + size && size > CHUNK {
      CopyCorrupts(dst, src, size);
    } else {
      forall m: Memory | CopyDefined(m, dst, src, size)
        ensures CopyResult(m, dst, src, size) == (true, Moved(m, dst, src, size))
      {
        CopyMoves(m, dst, src, size);
      }
    }
  }

  lemma CopyMoves(m: Memory, dst: Word, src: Word, size: Word)
    requires CopyDefined(m, dst, src, size)
    requires !(src < dst < src + size && size > CHUNK)
    ensures CopyResult(m, dst, src, size) == (true, Moved(m, dst, src, size))
  {
    CopyEffect(m, dst, src, size);
    var now, data := CopyResult(m, dst, src, size).1, Read(m, src, size);
    forall x | 0 <= x < |m|
      ensures now[x] == Write(m, dst, data)[x]
    {
      assert now[x] == CopiedByte(m, dst, src, size, x);
      MovedByte(m, dst, src, size, x);
    }
    assert now == Write(m, dst, data);
  }

  lemma MovedByte(m: Memory, dst: int, src: int, size: Word, x: int)
    requires CopyDefined(m, dst, src, size) && 0 <= x < |m|
    requires !(src < dst < src + size && size > CHUNK)
    ensures Write(m, dst, Read(m, src, size))[x] == CopiedByte(m, dst, src, size, x)
  {
    var data := Read(m, src, size);
    var i := x - dst;
    if 0 <= i < size {
      SameOrigin(dst - src, i);
    }
  }

  lemma SameOrigin(d: int, i: nat)
    requires d <= 0 || i < d || i < CHUNK
    ensures Origin(d, i) == i
  {
  }

  ghost function Everywhere(f: int -> byte, n: nat): (m: Memory)
    ensures |m| == n && forall a :: 0 <= a < n ==> m[a] == f(a)
  {
    seq(n, f)
  }

  lemma CopyCorrupts(dst: Word, src: Word, size: Word)
    requires dst + size <= TWO64 && src < dst < src + size && size > CHUNK
    ensures !CopyMovesAnyMemory(dst, src, size)
  {
    var i := if dst - src < CHUNK then CHUNK else dst - src;
    var m := Everywhere(a => if a == src + i then 1 else 0, dst + size);
    CopyEffect(m, dst, src, size);
    ShiftedOrigin(dst - src, i);
    assert CopiedByte(m, dst, src, size, dst + i) == 0;
    assert Moved(m, dst, src, size)[dst + i] == 1;
  }

  lemma ShiftedOrigin(d: nat, i: nat)
    requires d > 0 && i == if d < CHUNK then CHUNK else d
    ensures Origin(d, i) == i - d
  {
    PhaseBelow(i);
    SameOrigin(d, i - d);
  }

  lemma {:induction false} PhaseBelow(i: nat)
    ensures Phase(i) < CHUNK
  {
    if i >= CHUNK {
      PhaseBelow(i - CHUNK);
    }
  }

  /** Complete or cut short by a failure, a copy changes nothing outside its destination. */
  lemma {:induction false} CopyTouchesOnlyDestination(m: Memory, dst: Word, src: Word, size: Word, x: int)
    requires dst + size <= TWO64 && 0 <= x < |m| && !(dst <= x < dst + size)
    ensures |CopyResult(m, dst, src, size).1| == |m| && CopyResult(m, dst, src, size).1[x] == m[x]
    decreases size
  {
    var n := Min(size, CHUNK);
    if size > 0 && Mapped(m, src, n) && Mapped(m, dst, n) && n < size {
      CopyTouchesOnlyDestination(Write(m, dst, Read(m, src, n)), Add(dst, n), Add(src, n), size - n, x);
    }
  }

  /** A copy between ranges that do not wrap succeeds exactly when both are mapped. */
  lemma {:induction false} CopySucceedsExactly(m: Memory, dst: Word, src: Word, size: Word)
    requires dst + size <= TWO64 && src + size <= TWO64 && size > 0
    ensures CopyResult(m, dst, src, size).0 <==> CopyDefined(m, dst, src, size)
    decreases size
  {
    var n := Min(size, CHUNK);
    if Mapped(m, src, n) && Mapped(m, dst, n) && n < size {
      CopySucceedsExactly(Write(m, dst, Read(m, src, n)), Add(dst, n), Add(src, n), size - n);
    }
  }

  // ---------------------------------------------------------------- filling

  /** Whole copies of the pattern, stopping at the first that cannot be written. */
  function FillResult(m: Memory, dst: Word, pattern: seq<byte>, size: Word): (bool, Memory)
    requires pattern != []
    decreases size
  {
    if size < |pattern| then (true, m)
    else if !Mapped(m, dst, |pattern|) then (false, m)
    else FillResult(Write(m, dst, pattern), Add(dst, |pattern|), pattern, size - |pattern|)
  }

  /** Complete or cut short by a failure, a fill changes nothing outside its range. */
  lemma {:induction false} FillTouchesOnlyRange(m: Memory, dst: Word, pattern: seq<byte>, size: Word, x: int)
    requires pattern != [] && dst + size <= TWO64 && 0 <= x < |m| && !(dst <= x < dst + size)
    ensures |FillResult(m, dst, pattern, size).1| == |m| && FillResult(m, dst, pattern, size).1[x] == m[x]
    decreases size
  {
    var n := |pattern|;
    if n <= size && Mapped(m, dst, n) && n < size {
      FillTouchesOnlyRange(Write(m, dst, pattern), Add(dst, n), pattern, size - n, x);
    }
  }

  ghost predicate FillDefined(m: Memory, dst: int, size: nat) {
    Mapped(m, dst, size) && dst + size <= TWO64
  }

  ghost function FilledByte(m: Memory, dst: int, pattern: seq<byte>, j: nat, x: int): byte
    requires pattern != [] && 0 <= x < |m|
  {
    if dst <= x < dst + j then pattern[(x - dst) % |pattern|] else m[x]
  }

  /** `now` is memory `m` with `j` bytes from `dst` on holding the repeated pattern. */
  ghost predicate Filled(m: Memory, now: Memory, dst: int, pattern: seq<byte>, j: nat)
    requires pattern != []
  {
    |now| == |m|
    && forall x {:trigger FilledByte(m, dst, pattern, j, x)} :: 0 <= x < |m| ==> now[x] == FilledByte(m, dst, pattern, j, x)
  }

  lemma PatternFilled(m: Memory, now: Memory, dst: int, pattern: seq<byte>, j: nat)
    requires pattern != [] && j % |pattern| == 0 && Filled(m, now, dst, pattern, j)
    requires Mapped(m, dst + j, |pattern|)
    ensures (j + |pattern|) % |pattern| == 0
    ensures Filled(m, Write(now, dst + j, pattern), dst, pattern, j + |pattern|)
  {
    var n, q := |pattern|, j / |pattern|;
    ModUnique(j + n, n, q + 1, 0);
    var next := Write(now, dst + j, pattern);
    forall x | 0 <= x < |m|
      ensures next[x] == FilledByte(m, dst, pattern, j + n, x)
    {
      if dst + j <= x < dst + j + n {
        ModUnique(x - dst, n, q, x - dst - j);
      } else {
        assert next[x] == now[x] == FilledByte(m, dst, pattern, j, x);
      }
    }
  }

  lemma {:induction false} FillFrom(m: Memory, now: Memory, dst: Word, d: Word, pattern: seq<byte>, size: Word, j: nat)
    requires pattern != [] && j <= size && j % |pattern| == 0
    requires FillDefined(m, dst, size - size % |pattern|) && Filled(m, now, dst, pattern, j)
    requires size - j >= |pattern| ==> d == dst + j
    ensures FillResult(now, d, pattern, size - j).0
    ensures Filled(m, FillResult(now, d, pattern, size - j).1, dst, pattern, size - size % |pattern|)
    decreases size - j
  {
    var n := |pattern|;
    if size - j < n {
      ModUnique(size, n, j / n, size - j);
    } else {
      ModUnique(j + n, n, j / n + 1, 0);
      MultipleBelow(size, n, j + n);
      PatternFilled(m, now, dst, pattern, j);
      FillFrom(m, Write(now, d, pattern), dst, Add(d, n), pattern, size, j + n);
    }
  }

  /** What a fill leaves at every address: whole patterns, and an untouched tail. */
  lemma FillEffect(m: Memory, dst: Word, pattern: seq<byte>, size: Word)
    requires pattern != [] && FillDefined(m, dst, size - size % |pattern|)
    ensures FillResult(m, dst, pattern, size).0
    ensures Filled(m, FillResult(m, dst, pattern, size).1, dst, pattern, size - size % |pattern|)
  {
    assert Filled(m, m, dst, pattern, 0);
    FillFrom(m, m, dst, dst, pattern, size, 0);
  }

  lemma {:induction false} FillMapped(m: Memory, dst: Word, pattern: seq<byte>, size: Word)
    requires pattern != [] && |pattern| <= size && dst + (size - size % |pattern|) <= TWO64
    requires FillResult(m, dst, pattern, size).0
    ensures Mapped(m, dst, size - size % |pattern|)
    decreases size
  {
    var n := |pattern|;
    ModUnique(size - n, n, size / n - 1, size % n);
    if size - n >= n {
      FillMapped(Write(m, dst, pattern), Add(dst, n), pattern, size - n);
    } else {
      ModUnique(size, n, 1, size - n);
    }
  }

  /** A fill whose whole patterns do not wrap succeeds exactly if they are all mapped. */
  lemma FillSucceedsExactly(m: Memory, dst: Word, pattern: seq<byte>, size: Word)
    requires pattern != [] && dst + (size - size % |pattern|) <= TWO64
    ensures FillResult(m, dst, pattern, size).0 <==>
              size < |pattern| || Mapped(m, dst, size - size % |pattern|)
  {
    if size >= |pattern| {
      if FillResult(m, dst, pattern, size).0 {
        FillMapped(m, dst, pattern, size);
      } else if Mapped(m, dst, size - size % |pattern|) {
        FillEffect(m, dst, pattern, size);
      }
    }
  }

  /** All `size` bytes receive the repeated pattern, whatever memory holds. */
  ghost predicate FillsAnyMemory(dst: Word, pattern: seq<byte>, size: Word)
    requires pattern != []
  {
    forall m: Memory | FillDefined(m, dst, size) ::
      Filled(m, FillResult(m, dst, pattern, size).1, dst, pattern, size)
  }

  /** The documented "size is the total number of bytes to be written" holds exactly
      when the pattern length divides the size; otherwise the tail keeps its old bytes. */
  lemma FillsExactly(dst: Word, pattern: seq<byte>, size: Word)
    requires pattern != [] && dst + size <= TWO64
    ensures FillsAnyMemory(dst, pattern, size) <==> size % |pattern| == 0
  {
    if size % |pattern| == 0 {
      forall m: Memory | FillDefined(m, dst, size)
        ensures Filled(m, FillResult(m, dst, pattern, size).1, dst, pattern, size)
      {
        FillEffect(m, dst, pattern, size);
      }
    } else {
      FillLeavesTail(dst, pattern, size);
    }
  }

  lemma TailKept(m: Memory, dst: Word, pattern: seq<byte>, size: Word, x: int)
    requires pattern != [] && FillDefined(m, dst, size) && dst + size - size % |pattern| <= x < dst + size
    ensures |FillResult(m, dst, pattern, size).1| == |m| && FillResult(m, dst, pattern, size).1[x] == m[x]
  {
    FillEffect(m, dst, pattern, size);
    assert FilledByte(m, dst, pattern, size - size % |pattern|, x) == m[x];
  }

  lemma FillLeavesTail(dst: Word, pattern: seq<byte>, size: Word)
    requires pattern != [] && dst + size <= TWO64 && size % |pattern| != 0
    ensures !FillsAnyMemory(dst, pattern, size)
  {
    var last := dst + size - 1;
    var byte' := pattern[(size - 1) % |pattern|];
    var other: byte := if byte' == 0 then 1 else 0;
    var m := Everywhere(a => other, dst + size);
    TailKept(m, dst, pattern, size, last);
    assert last - dst == size - 1;
    assert FilledByte(m, dst, pattern, size, last) == byte';
  }

  // ---------------------------------------------------------------- the device

  class Device {
    var mem: Memory

    constructor (initial: Memory)
      ensures mem == initial
    {
      mem := initial;
    }

    method MemRead(src: Word, size: nat) returns (ok: bool, data: seq<byte>)
      ensures ok == Mapped(mem, src, size)
      ensures data == if ok then Read(mem, src, size) else []
    {
      ok := Mapped(mem, src, size);
      data := if ok then Read(mem, src, size) else [];
    }

    method MemWrite(dst: Word, src: seq<byte>) returns (ok: bool)
      modifies this
      ensures ok == Mapped(old(mem), dst, |src|)
      ensures mem == if ok then Write(old(mem), dst, src) else old(mem)
    {
      ok := Mapped(mem, dst, |src|);
      if ok {
        mem := Write(mem, dst, src);
      }
    }

    method MemCopy(dst: Word, src: Word, size: Word) returns (ok: bool)
      modifies this
      ensures (ok, mem) == CopyResult(old(mem), dst, src, size)
    {
      var d: Word, s: Word, left := dst, src, size;
      while left > 0
        invariant 0 <= left
        invariant CopyResult(mem, d, s, left) == CopyResult(old(mem), dst, src, size)
      {
        var n := Min(left, CHUNK);
        var read, temp := MemRead(s, n);
        if !read {
          return false;
        }
        var written := MemWrite(d, temp);
        if !written {
          return false;
        }
        d, s, left := Add(d, n), Add(s, n), left - n;
      }
      return true;
    }

    method MemFill(dst: Word, pattern: Option<seq<byte>>, size: Word) returns (ok: bool)
      requires pattern.Some? ==> pattern.value != []
      modifies this
      ensures pattern.None? ==> !ok && mem == old(mem)
      ensures pattern.Some? ==> (ok, mem) == FillResult(old(mem), dst, pattern.value, size)
    {
      if pattern.None? {
        return false;
      }
      var p := pattern.value;
      var d: Word, left := dst, size;
      while left >= |p|
        invariant 0 <= left
        invariant FillResult(mem, d, p, left) == FillResult(old(mem), dst, p, size)
      {
        var written := MemWrite(d, p);
        if !written {
          return false;
        }
        left, d := left - |p|, Add(d, |p|);
      }
      return true;
    }
  }
}
