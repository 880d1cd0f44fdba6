/** The allocator object, and what holds over every sequence of calls on it. */
module DeviceAllocator {
  import opened Words
  import opened Allocator

  // ------------------------------------------------ the ordered set of blocks

  /** Insertion into the ordered set; a block with the same address is kept. */
  function Inserted(bs: seq<Block>, b: Block): seq<Block> {
    if bs == [] || b.addr < bs[0].addr then [b] + bs
    else if b.addr == bs[0].addr then bs
    else [bs[0]] + Inserted(bs[1..], b)
  }

  function Erased(bs: seq<Block>, i: nat): seq<Block>
    requires i < |bs|
  {
    bs[..i] + bs[i + 1..]
  }

  lemma {:induction false} LaterAddress(bs: seq<Block>, hi: Word, i: nat)
    requires Ordered(bs, hi) && 0 < i < |bs|
    ensures bs[0].addr < bs[i].addr
  {
    if i > 1 {
      LaterAddress(bs[1..], hi, i - 1);
    }
  }

  lemma InsertFirst(bs: seq<Block>, hi: Word, start: Word)
    requires Ordered(bs, hi) && start == bs[0].addr
    ensures Inserted(bs[1..], Block(start, false)) == Carve(bs, start)
  {
  }

  lemma InsertSecond(bs: seq<Block>, hi: Word, start: Word)
    requires Ordered(bs, hi) && bs[0].addr < start < HeadEnd(bs, hi)
    ensures Inserted(bs, Block(start, false)) == Carve(bs, start)
  {
    assert Inserted(bs[1..], Block(start, false)) == [Block(start, false)] + bs[1..];
  }

  /** The inserted block lands between the untouched blocks before and after it. */
  lemma {:induction false} InsertAfter(front: seq<Block>, back: seq<Block>, b: Block)
    requires forall i :: 0 <= i < |front| ==> front[i].addr < b.addr
    ensures Inserted(front + back, b) == front + Inserted(back, b)
  {
    if front == [] {
      assert front + back == back;
    } else {
      InsertAfter(front[1..], back, b);
      assert (front + back)[1..] == front[1..] + back;
      assert [front[0]] + (front[1..] + Inserted(back, b)) == front + Inserted(back, b);
    }
  }

  lemma {:induction false} EarlierAddresses(bs: seq<Block>, hi: Word, i: nat)
    requires Ordered(bs, hi) && i < |bs|
    ensures forall j :: 0 <= j < i ==> bs[j].addr < bs[i].addr
  {
    if i > 0 {
      EarlierAddresses(bs[1..], hi, i - 1);
      LaterAddress(bs, hi, i);
      forall j | 0 <= j < i ensures bs[j].addr < bs[i].addr {
        if j > 0 {
          assert bs[1..][j - 1].addr < bs[1..][i - 1].addr;
        }
      }
    }
  }

  /** Erasing a used-up block and inserting the new one gives the carved list. */
  lemma InsertCarves(bs: seq<Block>, hi: Word, i: nat, start: Word)
    requires Ordered(bs, hi) && i < |bs| && bs[i].addr <= start < HeadEnd(bs[i..], hi)
    ensures start == bs[i].addr ==> Inserted(Erased(bs, i), Block(start, false)) == bs[..i] + Carve(bs[i..], start)
    ensures start > bs[i].addr ==> Inserted(bs, Block(start, false)) == bs[..i] + Carve(bs[i..], start)
  {
    OrderedSuffix(bs, hi, i);
    EarlierAddresses(bs, hi, i);
    if start == bs[i].addr {
      InsertAfter(bs[..i], bs[i + 1..], Block(start, false));
      assert bs[i..][1..] == bs[i + 1..];
      InsertFirst(bs[i..], hi, start);
    } else {
      InsertAfter(bs[..i], bs[i..], Block(start, false));
      assert bs[..i] + bs[i..] == bs;
      InsertSecond(bs[i..], hi, start);
    }
  }

  lemma {:induction false} InsertMarks(bs: seq<Block>, hi: Word, i: nat)
    requires Ordered(bs, hi) && i < |bs|
    ensures Inserted(Erased(bs, i), Block(bs[i].addr, true)) == MarkFree(bs, bs[i].addr)
  {
    if i == 0 {
      assert Erased(bs, 0) == bs[1..];
    } else {
      LaterAddress(bs, hi, i);
      InsertMarks(bs[1..], hi, i - 1);
      assert Erased(bs, i)[1..] == Erased(bs[1..], i - 1);
    }
  }

  lemma {:induction false} OrderedSuffix(bs: seq<Block>, hi: Word, i: nat)
    requires Ordered(bs, hi) && i < |bs|
    ensures Ordered(bs[i..], hi)
  {
    if i > 0 {
      OrderedSuffix(bs[1..], hi, i - 1);
      assert bs[1..][i - 1..] == bs[i..];
    } else {
      assert bs[0..] == bs;
    }
  }

  lemma AllocateSkips(bs: seq<Block>, hi: Word, size: Word, alignment: Word, i: nat)
    requires i < |bs| && !Fits(bs[i], HeadEnd(bs[i..], hi), size, alignment)
    ensures Allocate(bs[i..], hi, size, alignment).0 == Allocate(bs[i + 1..], hi, size, alignment).0
    ensures bs[..i] + Allocate(bs[i..], hi, size, alignment).1
         == bs[..i + 1] + Allocate(bs[i + 1..], hi, size, alignment).1
  {
    assert bs[i..][1..] == bs[i + 1..];
  }

  lemma InsertAllocates(bs: seq<Block>, hi: Word, size: Word, alignment: Word, i: nat)
    requires Ordered(bs, hi) && i < |bs| && size > 0 && IsPow2(alignment)
    requires Fits(bs[i], HeadEnd(bs[i..], hi), size, alignment)
    ensures var start := Placed(HeadEnd(bs[i..], hi), size, alignment);
            && Allocate(bs[i..], hi, size, alignment).0 == start
            && Inserted(if start == bs[i].addr then Erased(bs, i) else bs, Block(start, false))
               == bs[..i] + Allocate(bs[i..], hi, size, alignment).1
  {
    OrderedSuffix(bs, hi, i);
    var end := HeadEnd(bs[i..], hi);
    PlacedMeaning(end, size, alignment, 0);
    InsertCarves(bs, hi, i, Placed(end, size, alignment));
  }

  class HalAllocator {
    const addrLo: Word
    const addrHi: Word
    var blocks: seq<Block>

    ghost predicate Sound()
      reads this
    {
      Valid(blocks, addrLo, addrHi)
    }

    constructor (base: Word, size: Word)
      requires base != 0 && size != 0 && base + size < TWO64
      ensures addrLo == base && addrHi == base + size
      ensures Sound() && blocks == [Block(base, true)]
    {
      addrLo, addrHi := base, Add(base, size);
      blocks := [Block(base, true)];
    }

    method Reset()
      requires addrLo != 0 && addrLo < addrHi
      modifies this
      ensures Sound() && blocks == [Block(addrLo, true)]
    {
      blocks := Inserted([], Block(addrLo, true));
    }

    method BlockEnd(i: nat) returns (end: Word)
      requires i < |blocks|
      ensures end == HeadEnd(blocks[i..], addrHi)
    {
      end := addrHi;
      if i + 1 < |blocks| {
        end := blocks[i + 1].addr;
      }
    }

    /** The search of `alloc`: the first free block with room, and where to place the
        allocation in it; the end of the list if there is none. */
    method FirstFit(n: Word, alignment: Word) returns (i: nat, start: Word)
      ensures i <= |blocks| && (i < |blocks| ==> Fits(blocks[i], HeadEnd(blocks[i..], addrHi), n, alignment))
      ensures i < |blocks| ==> start == Placed(HeadEnd(blocks[i..], addrHi), n, alignment)
      ensures Allocate(blocks, addrHi, n, alignment).0 == Allocate(blocks[i..], addrHi, n, alignment).0
      ensures Allocate(blocks, addrHi, n, alignment).1
           == blocks[..i] + Allocate(blocks[i..], addrHi, n, alignment).1
    {
      i, start := 0, 0;
      assert blocks[0..] == blocks;
      while i < |blocks|
        invariant i <= |blocks|
        invariant Allocate(blocks, addrHi, n, alignment).0 == Allocate(blocks[i..], addrHi, n, alignment).0
        invariant Allocate(blocks, addrHi, n, alignment).1
               == blocks[..i] + Allocate(blocks[i..], addrHi, n, alignment).1
      {
        if blocks[i].free {
          var end := BlockEnd(i);
          start := And(Sub(end, n), Not(Sub(alignment, 1)));
          if !(start < blocks[i].addr || end < n) {
            return;
          }
        }
        AllocateSkips(blocks, addrHi, n, alignment, i);
        i := i + 1;
      }
    }

    method Alloc(size: Word, alignment: Word) returns (p: Word)
      requires Sound() && alignment != 0 && And(alignment, alignment - 1) == 0
      modifies this
      ensures Sound()
      ensures (p, blocks) == Allocate(old(blocks), addrHi, if size == 0 then 1 else size, alignment)
    {
      PowerOfTwoTest(alignment);
      var n := if size == 0 then 1 else size;
      AllocateKeepsOrder(blocks, addrHi, n, alignment);
      AllocateHead(blocks, addrHi, n, alignment);
      var i, start := FirstFit(n, alignment);
      if i == |blocks| {
        assert blocks[..i] + [] == blocks;
        return 0;
      }
      InsertAllocates(blocks, addrHi, n, alignment, i);
      if start == blocks[i].addr {
        blocks := Erased(blocks, i);
      }
      blocks := Inserted(blocks, Block(start, false));
      return start;
    }

    method Find(p: Word) returns (i: nat)
      ensures i <= |blocks| && (i < |blocks| <==> Has(blocks, p))
      ensures i < |blocks| ==> blocks[i].addr == p
    {
      i := 0;
      while i < |blocks| && blocks[i].addr != p
        invariant i <= |blocks| && (Has(blocks, p) <==> Has(blocks[i..], p))
      {
        assert blocks[i..][1..] == blocks[i + 1..];
        i := i + 1;
      }
    }

    method Free(p: Word)
      requires Sound()
      modifies this
      ensures Sound() && blocks == Release(old(blocks), p)
    {
      ReleaseFrees(blocks, addrLo, addrHi, p, 0, 0);
      if p == 0 {
        return;
      }
      var i := Find(p);
      if i < |blocks| {
        InsertMarks(blocks, addrHi, i);
        blocks := Erased(blocks, i);
        blocks := Inserted(blocks, Block(p, true));
        Consolidate();
      }
    }

    method Consolidate()
      requires blocks != []
      modifies this
      ensures blocks == Merge(old(blocks))
    {
      var i := 0;
      while i + 1 < |blocks|
        invariant i < |blocks|
        invariant blocks[..i] + Merge(blocks[i..]) == Merge(old(blocks))
        decreases |blocks| - i
      {
        ghost var rest := blocks[i..];
        if !blocks[i].free || !blocks[i + 1].free {
          assert rest[1..] == blocks[i + 1..];
          assert blocks[..i] + ([blocks[i]] + Merge(blocks[i + 1..])) == blocks[..i + 1] + Merge(blocks[i + 1..]);
          i := i + 1;
        } else {
          ghost var before := blocks;
          blocks := Erased(blocks, i + 1);
          assert blocks[i..] == [rest[0]] + rest[2..];
          assert blocks[..i] == before[..i];
        }
      }
      assert blocks[..i] + blocks[i..] == blocks;
    }

    method AvailableBytes() returns (sum: Word)
      requires Sound()
      ensures sum == Available(blocks, addrHi)
    {
      Conservation(blocks, addrHi);
      var total := 0;
      var i := 0;
      while i < |blocks|
        invariant i <= |blocks|
        invariant total + Available(blocks[i..], addrHi) == Available(blocks, addrHi)
      {
        assert blocks[i..][1..] == blocks[i + 1..];
        if blocks[i].free {
          var end := BlockEnd(i);
          total := total + (end - blocks[i].addr);
        }
        i := i + 1;
      }
      sum := total;
    }
  }

  // ------------------------------------------------ every sequence of calls

  datatype Request = Request(size: Word, alignment: Word)

  datatype Op = AllocCall(request: Request) | FreeCall(p: Word)

  /** The allocator and the allocations its user holds: pointer to effective request. */
  datatype Heap = Heap(blocks: seq<Block>, live: map<Word, Request>)

  ghost function Step(h: Heap, hi: Word, op: Op): Heap {
    match op
    case AllocCall(r) =>
      var n := if r.size == 0 then 1 else r.size;
      var (p, bs) := Allocate(h.blocks, hi, n, r.alignment);
      Heap(bs, if p == 0 then h.live else h.live[p := Request(n, r.alignment)])
    case FreeCall(p) => Heap(Release(h.blocks, p), h.live - {p})
  }

  ghost function Run(h: Heap, hi: Word, ops: seq<Op>): Heap
    decreases |ops|
  {
    if ops == [] then h else Run(Step(h, hi, ops[0]), hi, ops[1..])
  }

  ghost predicate LegalOp(op: Op) {
    op.AllocCall? ==> IsPow2(op.request.alignment)
  }

  /** The live pointers are exactly the taken blocks, and each has what was asked for. */
  ghost predicate Held(h: Heap, lo: Word, hi: Word, p: Word) {
    && (p in h.live <==> TakenEnd(h.blocks, hi, p) != 0)
    && (p in h.live ==>
          && lo <= p && h.live[p].alignment > 0 && p % h.live[p].alignment == 0
          && p + h.live[p].size <= TakenEnd(h.blocks, hi, p) <= hi)
  }

  ghost predicate Sane(h: Heap, lo: Word, hi: Word) {
    Valid(h.blocks, lo, hi) && forall p: Word :: Held(h, lo, hi, p)
  }

  lemma StepSane(h: Heap, lo: Word, hi: Word, op: Op)
    requires Sane(h, lo, hi) && LegalOp(op)
    ensures Sane(Step(h, hi, op), lo, hi)
  {
    var h' := Step(h, hi, op);
    match op
    case AllocCall(r) =>
      var n := if r.size == 0 then 1 else r.size;
      AllocateKeepsOrder(h.blocks, hi, n, r.alignment);
      AllocateHead(h.blocks, hi, n, r.alignment);
      var p := Allocate(h.blocks, hi, n, r.alignment).0;
      forall q: Word
        ensures Held(h', lo, hi, q)
      {
        assert Held(h, lo, hi, q);
        if p != 0 {
          AllocateTakes(h.blocks, hi, n, r.alignment, 0, q);
        } else {
          FailureKeeps(h.blocks, hi, n, r.alignment);
        }
      }
    case FreeCall(p) =>
      ReleaseFrees(h.blocks, lo, hi, p, 0, 0);
      forall q: Word
        ensures Held(h', lo, hi, q)
      {
        assert Held(h, lo, hi, q);
        ReleaseFrees(h.blocks, lo, hi, p, 0, q);
      }
  }

  lemma {:induction false} FailureKeeps(bs: seq<Block>, hi: Word, size: Word, alignment: Word)
    requires Ordered(bs, hi) && bs[0].addr > 0 && Allocate(bs, hi, size, alignment).0 == 0
    ensures Allocate(bs, hi, size, alignment).1 == bs
  {
    if |bs| > 1 {
      FailureKeeps(bs[1..], hi, size, alignment);
    }
  }

  lemma {:induction false} TakenApart(bs: seq<Block>, hi: Word, p: Word, q: Word)
    requires Ordered(bs, hi) && TakenEnd(bs, hi, p) != 0 && TakenEnd(bs, hi, q) != 0 && p < q
    ensures TakenEnd(bs, hi, p) <= q
  {
    if bs[0] == Block(p, false) {
      if |bs| > 1 && q < bs[1].addr {
        TakenAbove(bs[1..], hi, q);
      }
    } else {
      if bs[0] == Block(q, false) {
        TakenAbove(bs, hi, p);
      }
      TakenApart(bs[1..], hi, p, q);
    }
  }

  lemma {:induction false} RunSane(h: Heap, lo: Word, hi: Word, ops: seq<Op>)
    requires Sane(h, lo, hi) && forall op :: op in ops ==> LegalOp(op)
    ensures Sane(Run(h, hi, ops), lo, hi)
    decreases |ops|
  {
    if ops != [] {
      StepSane(h, lo, hi, ops[0]);
      RunSane(Step(h, hi, ops[0]), lo, hi, ops[1..]);
    }
  }

  /** Over every sequence of calls, each live allocation is non-null, aligned, inside the
      range, as large as requested, made of bytes that are not free, and disjoint from every
      other; free and taken bytes add up to the range. */
  lemma LiveAllocationsSafe(lo: Word, hi: Word, ops: seq<Op>, p: Word, q: Word, x: int)
    requires 0 < lo < hi && forall op :: op in ops ==> LegalOp(op)
    ensures var h := Run(Heap([Block(lo, true)], map[]), hi, ops);
            && Valid(h.blocks, lo, hi)
            && Available(h.blocks, hi) + Taken(h.blocks, hi) == hi - lo
            && (p in h.live ==>
                  && 0 < lo <= p && p + h.live[p].size <= hi
                  && h.live[p].alignment > 0 && p % h.live[p].alignment == 0
                  && (p <= x < p + h.live[p].size ==> !FreeByte(h.blocks, hi, x))
                  && (q in h.live && p < q ==> p + h.live[p].size <= q))
  {
    var start := Heap([Block(lo, true)], map[]);
    assert Sane(start, lo, hi) by {
      forall r: Word ensures Held(start, lo, hi, r) {}
    }
    RunSane(start, lo, hi, ops);
    var h := Run(start, hi, ops);
    Conservation(h.blocks, hi);
    assert Held(h, lo, hi, p) && Held(h, lo, hi, q);
    if p in h.live {
      TakenNotFree(h.blocks, hi, p, x);
      if q in h.live && p < q {
        TakenApart(h.blocks, hi, p, q);
      }
    }
  }

  lemma {:induction false} TakenNotFree(bs: seq<Block>, hi: Word, p: Word, x: int)
    requires Ordered(bs, hi) && TakenEnd(bs, hi, p) != 0
    ensures p <= x < TakenEnd(bs, hi, p) ==> !FreeByte(bs, hi, x)
  {
    if bs[0] != Block(p, false) {
      TakenNotFree(bs[1..], hi, p, x);
      if p < bs[1].addr {
        TakenAbove(bs[1..], hi, p);
      }
    }
  }
}
