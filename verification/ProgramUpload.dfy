/** Loading an ELF program into device memory, one PT_LOAD segment after the other. */
module ProgramUpload {
  import opened Words
  import opened Options
  import opened DeviceMemory

  const PT_LOAD: nat := 1

  /** The fields of a program header that the loader reads. */
  datatype Phdr = Phdr(kind: nat, offset: nat, vaddr: Word, filesz: Word, memsz: Word) {
    function ToCopy(): Word {
      if memsz <= filesz then memsz else filesz
    }

    /** Bytes written in all: the longer of the two sizes. */
    function Extent(): Word {
      if memsz <= filesz then filesz else memsz
    }
  }

  /** The bytes to be copied lie in the file, and the addresses written do not wrap. */
  ghost predicate WellPlaced(ph: Phdr, file: seq<byte>) {
    ph.kind == PT_LOAD ==> ph.offset + ph.ToCopy() <= |file| && ph.vaddr + ph.Extent() <= TWO64
  }

  ghost predicate AllPlaced(phs: seq<Phdr>, file: seq<byte>) {
    forall i :: 0 <= i < |phs| ==> WellPlaced(phs[i], file)
  }

  // ------------------------------------------------ what one segment does

  function CopySection(m: Memory, file: seq<byte>, ph: Phdr): (bool, Memory)
    requires ph.offset + ph.ToCopy() <= |file|
  {
    if ph.ToCopy() == 0 then (true, m)
    else if !Mapped(m, ph.vaddr, ph.ToCopy()) then (false, m)
    else (true, Write(m, ph.vaddr, file[ph.offset..ph.offset + ph.ToCopy()]))
  }

  function ZeroSection(m: Memory, ph: Phdr): (bool, Memory) {
    if ph.Extent() - ph.ToCopy() == 0 then (true, m)
    else FillResult(m, Add(ph.vaddr, ph.ToCopy()), [0], ph.Extent() - ph.ToCopy())
  }

  function UploadSegment(m: Memory, file: seq<byte>, ph: Phdr): (bool, Memory)
    requires ph.offset + ph.ToCopy() <= |file|
  {
    var (copied, m') := CopySection(m, file, ph);
    if !copied then (false, m') else ZeroSection(m', ph)
  }

  ghost function UploadHeader(m: Memory, file: seq<byte>, ph: Phdr): (bool, Memory)
    requires WellPlaced(ph, file)
  {
    if ph.kind == PT_LOAD then UploadSegment(m, file, ph) else (true, m)
  }

  /** Everything the loader does to memory, stopping at the first failure. */
  ghost function UploadAll(m: Memory, file: seq<byte>, phs: seq<Phdr>): (bool, Memory)
    requires AllPlaced(phs, file)
  {
    if phs == [] then (true, m)
    else
      var n := |phs| - 1;
      var (ok, m') := UploadAll(m, file, phs[..n]);
      if !ok then (ok, m') else UploadHeader(m', file, phs[n])
  }

  // ------------------------------------------------ the intended image

  /** The byte `ph` puts at `x`, if `x` is among the addresses it writes. */
  ghost function SegmentByte(file: seq<byte>, ph: Phdr, x: int): Option<byte> {
    var k := x - ph.vaddr;
    if ph.kind != PT_LOAD || k < 0 || k >= ph.Extent() then None
    else if k < ph.ToCopy() && ph.offset + k < |file| then Some(file[ph.offset + k])
    else Some(0)
  }

  /** The byte the last segment that writes `x` puts there, else what memory held. */
  ghost function Image(m: Memory, file: seq<byte>, phs: seq<Phdr>, x: int): byte
    requires 0 <= x < |m|
  {
    if phs == [] then m[x]
    else
      match SegmentByte(file, phs[|phs| - 1], x)
      case Some(b) => b
      case None => Image(m, file, phs[..|phs| - 1], x)
  }

  /** A fill with a single byte that succeeds had all of its range mapped. */
  lemma {:induction false} ByteFillMapped(m: Memory, dst: Word, b: byte, n: Word)
    requires dst + n <= TWO64 && n > 0 && FillResult(m, dst, [b], n).0
    ensures Mapped(m, dst, n)
    decreases n
  {
    if n > 1 {
      ByteFillMapped(Write(m, dst, [b]), Add(dst, 1), b, n - 1);
    }
  }

  lemma ZeroSectionEffect(m: Memory, ph: Phdr, x: int)
    requires ph.vaddr + ph.Extent() <= TWO64 && ZeroSection(m, ph).0 && 0 <= x < |m|
    ensures |ZeroSection(m, ph).1| == |m|
    ensures ZeroSection(m, ph).1[x] == if ph.vaddr + ph.ToCopy() <= x < ph.vaddr + ph.Extent() then 0 else m[x]
  {
    var n := ph.Extent() - ph.ToCopy();
    if n > 0 {
      var dst := Add(ph.vaddr, ph.ToCopy());
      ByteFillMapped(m, dst, 0, n);
      assert n % 1 == 0;
      FillEffect(m, dst, [0], n);
      assert FilledByte(m, dst, [0], n, x) == if dst <= x < dst + n then 0 else m[x];
    }
  }

  lemma SegmentEffect(m: Memory, file: seq<byte>, ph: Phdr, x: int)
    requires ph.kind == PT_LOAD && WellPlaced(ph, file) && UploadSegment(m, file, ph).0 && 0 <= x < |m|
    ensures |UploadSegment(m, file, ph).1| == |m|
    ensures UploadSegment(m, file, ph).1[x] == match SegmentByte(file, ph, x) case Some(b) => b case None => m[x]
  {
    var m' := CopySection(m, file, ph).1;
    assert |m'| == |m|;
    ZeroSectionEffect(m', ph, x);
  }

  /** When the upload succeeds, every byte of device memory is the one the image prescribes. */
  lemma {:induction false} UploadLoadsImage(m: Memory, file: seq<byte>, phs: seq<Phdr>, x: int)
    requires AllPlaced(phs, file)
    requires UploadAll(m, file, phs).0 && 0 <= x < |m|
    ensures |UploadAll(m, file, phs).1| == |m| && UploadAll(m, file, phs).1[x] == Image(m, file, phs, x)
  {
    if phs != [] {
      var n := |phs| - 1;
      UploadLoadsImage(m, file, phs[..n], x);
      var m' := UploadAll(m, file, phs[..n]).1;
      if phs[n].kind == PT_LOAD {
        SegmentEffect(m', file, phs[n], x);
      }
    }
  }

  lemma SegmentSucceeds(m: Memory, file: seq<byte>, ph: Phdr)
    requires ph.kind == PT_LOAD && WellPlaced(ph, file)
    ensures UploadSegment(m, file, ph).0 <==> ph.Extent() == 0 || Mapped(m, ph.vaddr, ph.Extent())
    ensures |CopySection(m, file, ph).1| == |m|
  {
    var m' := CopySection(m, file, ph).1;
    var n := ph.Extent() - ph.ToCopy();
    if CopySection(m, file, ph).0 && n > 0 {
      var dst := Add(ph.vaddr, ph.ToCopy());
      assert n % 1 == 0;
      if Mapped(m', dst, n) {
        FillEffect(m', dst, [0], n);
      } else if FillResult(m', dst, [0], n).0 {
        ByteFillMapped(m', dst, 0, n);
      }
    }
  }

  /** The upload succeeds exactly when the whole extent of every PT_LOAD segment is mapped. */
  lemma {:induction false} UploadSucceedsExactly(m: Memory, file: seq<byte>, phs: seq<Phdr>)
    requires AllPlaced(phs, file)
    ensures UploadAll(m, file, phs).0 <==>
              forall i :: 0 <= i < |phs| && phs[i].kind == 1 && phs[i].Extent() > 0 ==>
                Mapped(m, phs[i].vaddr, phs[i].Extent())
    ensures UploadAll(m, file, phs).0 ==> |UploadAll(m, file, phs).1| == |m|
  {
    if phs != [] {
      var n := |phs| - 1;
      UploadSucceedsExactly(m, file, phs[..n]);
      var m' := UploadAll(m, file, phs[..n]).1;
      if phs[n].kind == PT_LOAD && UploadAll(m, file, phs[..n]).0 {
        SegmentSucceeds(m', file, phs[n]);
        if |m| > 0 && UploadSegment(m', file, phs[n]).0 {
          SegmentEffect(m', file, phs[n], 0);
        }
      }
    }
  }

  ghost predicate Apart(a: Phdr, b: Phdr) {
    a.kind == PT_LOAD && b.kind == PT_LOAD ==>
      a.vaddr + a.Extent() <= b.vaddr || b.vaddr + b.Extent() <= a.vaddr
  }

  lemma {:induction false} ImageOfSegment(m: Memory, file: seq<byte>, phs: seq<Phdr>, i: nat, x: int)
    requires 0 <= x < |m| && i < |phs| && SegmentByte(file, phs[i], x).Some?
    requires forall j, k :: 0 <= j < k < |phs| ==> Apart(phs[j], phs[k])
    ensures Image(m, file, phs, x) == SegmentByte(file, phs[i], x).value
  {
    var n := |phs| - 1;
    if i < n {
      assert Apart(phs[i], phs[n]);
      ImageOfSegment(m, file, phs[..n], i, x);
    }
  }

  lemma {:induction false} ImageElsewhere(m: Memory, file: seq<byte>, phs: seq<Phdr>, x: int)
    requires 0 <= x < |m| && forall i :: 0 <= i < |phs| ==> SegmentByte(file, phs[i], x).None?
    ensures Image(m, file, phs, x) == m[x]
  {
    if phs != [] {
      ImageElsewhere(m, file, phs[..|phs| - 1], x);
    }
  }

  /** With disjoint segments and filesz <= memsz, a successful upload leaves in each segment its
      file bytes followed by zeros up to memsz, and nothing else changed. */
  lemma UploadPlacesSegments(m: Memory, file: seq<byte>, phs: seq<Phdr>, i: nat, x: int)
    requires AllPlaced(phs, file)
    requires forall j :: 0 <= j < |phs| && phs[j].kind == 1 ==> phs[j].filesz <= phs[j].memsz
    requires forall j, k :: 0 <= j < k < |phs| ==> Apart(phs[j], phs[k])
    requires UploadAll(m, file, phs).0 && 0 <= x < |m| && i < |phs|
    ensures |UploadAll(m, file, phs).1| == |m|
    ensures phs[i].kind == 1 && phs[i].vaddr <= x < phs[i].vaddr + phs[i].memsz ==>
              UploadAll(m, file, phs).1[x] ==
              (var k := x - phs[i].vaddr; if k < phs[i].filesz then file[phs[i].offset + k] else 0)
    ensures (forall j :: 0 <= j < |phs| && phs[j].kind == 1 ==>
                !(phs[j].vaddr <= x < phs[j].vaddr + phs[j].memsz)) ==> UploadAll(m, file, phs).1[x] == m[x]
  {
    UploadLoadsImage(m, file, phs, x);
    if phs[i].kind == PT_LOAD && phs[i].vaddr <= x < phs[i].vaddr + phs[i].memsz {
      ImageOfSegment(m, file, phs, i, x);
    } else if forall j :: 0 <= j < |phs| && phs[j].kind == PT_LOAD ==>
        !(phs[j].vaddr <= x < phs[j].vaddr + phs[j].memsz) {
      ImageElsewhere(m, file, phs, x);
    }
  }

  /** A successful upload of the segment leaves the byte at `x` alone if it is outside the
      segment's memory size. */
  ghost predicate KeepsOutside(m: Memory, file: seq<byte>, ph: Phdr, x: int)
    requires ph.offset + ph.ToCopy() <= |file|
  {
    var (ok, m') := UploadSegment(m, file, ph);
    ok && 0 <= x < |m| && !(ph.vaddr <= x < ph.vaddr + ph.memsz) ==> |m'| == |m| && m'[x] == m[x]
  }

  /** Whatever memory holds, a segment changes only bytes inside its own memory size, exactly
      when filesz <= memsz: a longer file part is not copied, but as many bytes after the
      segment are zeroed. */
  lemma StaysInsideExactly(file: seq<byte>, ph: Phdr)
    requires ph.kind == PT_LOAD && WellPlaced(ph, file)
    ensures (forall m: Memory, x: int :: KeepsOutside(m, file, ph, x)) <==> ph.filesz <= ph.memsz
  {
    if ph.filesz <= ph.memsz {
      forall m: Memory, x: int ensures KeepsOutside(m, file, ph, x) {
        if UploadSegment(m, file, ph).0 && 0 <= x < |m| {
          SegmentEffect(m, file, ph, x);
        }
      }
    } else {
      var ones := Everywhere(a => 1, ph.vaddr + ph.Extent());
      SegmentSucceeds(ones, file, ph);
      SegmentEffect(ones, file, ph, ph.vaddr + ph.memsz);
      assert !KeepsOutside(ones, file, ph, ph.vaddr + ph.memsz);
    }
  }

  /** Successful or not, a segment changes nothing outside its extent. */
  lemma SegmentFrame(m: Memory, file: seq<byte>, ph: Phdr, x: int)
    requires ph.kind == PT_LOAD && WellPlaced(ph, file) && 0 <= x < |m|
    requires !(ph.vaddr <= x < ph.vaddr + ph.Extent())
    ensures |UploadSegment(m, file, ph).1| == |m| && UploadSegment(m, file, ph).1[x] == m[x]
  {
    var (copied, m') := CopySection(m, file, ph);
    assert |m'| == |m| && m'[x] == m[x];
    var n := ph.Extent() - ph.ToCopy();
    if copied && n > 0 {
      FillTouchesOnlyRange(m', Add(ph.vaddr, ph.ToCopy()), [0], n, x);
    }
  }

  /** Successful or not, an upload changes nothing outside the extents of the PT_LOAD segments. */
  lemma {:induction false} UploadFrame(m: Memory, file: seq<byte>, phs: seq<Phdr>, x: int)
    requires AllPlaced(phs, file) && 0 <= x < |m|
    requires forall i :: 0 <= i < |phs| && phs[i].kind == PT_LOAD ==>
               !(phs[i].vaddr <= x < phs[i].vaddr + phs[i].Extent())
    ensures |UploadAll(m, file, phs).1| == |m| && UploadAll(m, file, phs).1[x] == m[x]
  {
    if phs != [] {
      var n := |phs| - 1;
      UploadFrame(m, file, phs[..n], x);
      var (ok, m') := UploadAll(m, file, phs[..n]);
      if ok && phs[n].kind == PT_LOAD {
        SegmentFrame(m', file, phs[n], x);
      }
    }
  }

  // ------------------------------------------------ the loader

  method UploadSectionCopy(dev: Device, file: seq<byte>, ph: Phdr) returns (ok: bool)
    requires ph.offset + ph.ToCopy() <= |file|
    modifies dev
    ensures ok == Mapped(old(dev.mem), ph.vaddr, ph.ToCopy())
    ensures dev.mem == if ok then Write(old(dev.mem), ph.vaddr, file[ph.offset..ph.offset + ph.ToCopy()]) else old(dev.mem)
  {
    ok := dev.MemWrite(ph.vaddr, file[ph.offset..ph.offset + ph.ToCopy()]);
  }

  method UploadSectionZero(dev: Device, offset: Word, count: Word, ph: Phdr) returns (ok: bool)
    modifies dev
    ensures (ok, dev.mem) == FillResult(old(dev.mem), Add(ph.vaddr, offset), [0], count)
  {
    ok := dev.MemFill(Add(ph.vaddr, offset), Some([0]), count);
  }

  method UploadOne(dev: Device, file: seq<byte>, ph: Phdr) returns (ok: bool)
    requires WellPlaced(ph, file)
    modifies dev
    ensures (ok, dev.mem) == UploadHeader(old(dev.mem), file, ph)
  {
    if ph.kind != PT_LOAD {
      return true;
    }
    var toCopy := ph.ToCopy();
    if toCopy != 0 {
      var copied := UploadSectionCopy(dev, file, ph);
      if !copied {
        return false;
      }
    }
    var toZero := ph.Extent() - toCopy;
    if toZero != 0 {
      var zeroed := UploadSectionZero(dev, toCopy, toZero, ph);
      if !zeroed {
        return false;
      }
    }
    return true;
  }

  /** `headers` is None if the file is not a valid ELF file. */
  method Upload(dev: Device, file: seq<byte>, headers: Option<seq<Phdr>>) returns (ok: bool)
    requires headers.Some? ==> AllPlaced(headers.value, file)
    modifies dev
    ensures headers.None? ==> !ok && dev.mem == old(dev.mem)
    ensures headers.Some? ==> (ok, dev.mem) == UploadAll(old(dev.mem), file, headers.value)
  {
    if headers.None? {
      return false;
    }
    var phs := headers.value;
    for p := 0 to |phs|
      invariant UploadAll(old(dev.mem), file, phs[..p]) == (true, dev.mem)
    {
      UploadStep(old(dev.mem), file, phs, p);
      var loaded := UploadOne(dev, file, phs[p]);
      if !loaded {
        UploadStops(old(dev.mem), file, phs, p + 1);
        return false;
      }
    }
    assert phs[..|phs|] == phs;
    return true;
  }

  lemma UploadStep(m: Memory, file: seq<byte>, phs: seq<Phdr>, p: nat)
    requires AllPlaced(phs, file) && p < |phs| && UploadAll(m, file, phs[..p]).0
    ensures UploadAll(m, file, phs[..p + 1]) == UploadHeader(UploadAll(m, file, phs[..p]).1, file, phs[p])
  {
    assert phs[..p + 1][..p] == phs[..p];
  }

  lemma {:induction false} UploadStops(m: Memory, file: seq<byte>, phs: seq<Phdr>, n: nat)
    requires AllPlaced(phs, file)
    requires n <= |phs| && !UploadAll(m, file, phs[..n]).0
    ensures UploadAll(m, file, phs) == UploadAll(m, file, phs[..n])
  {
    if n < |phs| {
      var k := |phs| - 1;
      assert phs[..k][..n] == phs[..n];
      UploadStops(m, file, phs[..k], n);
    } else {
      assert phs[..n] == phs;
    }
  }
}
