/** The HAL device memory allocator: an ordered set of block starts, each block running
    to the next start or to the end of the range. */
module Allocator {
  import opened Words

  datatype Block = Block(addr: Word, free: bool)

  /** End of the first block of a (suffix of a) block list. */
  function HeadEnd(bs: seq<Block>, hi: Word): Word {
    if |bs| > 1 then bs[1].addr else hi
  }

  ghost predicate Ordered(bs: seq<Block>, hi: Word) {
    bs != [] && bs[0].addr < HeadEnd(bs, hi) && (|bs| > 1 ==> Ordered(bs[1..], hi))
  }

  /** No two neighbouring blocks are both free. */
  ghost predicate Coalesced(bs: seq<Block>) {
    |bs| > 1 ==> !(bs[0].free && bs[1].free) && Coalesced(bs[1..])
  }

  ghost predicate Valid(bs: seq<Block>, lo: Word, hi: Word) {
    0 < lo && Ordered(bs, hi) && bs[0].addr == lo && Coalesced(bs)
  }

  /** The byte at `x` belongs to a free block. */
  ghost predicate FreeByte(bs: seq<Block>, hi: Word, x: int) {
    bs != [] && if x < HeadEnd(bs, hi) then bs[0].addr <= x && bs[0].free else FreeByte(bs[1..], hi, x)
  }

  ghost predicate FreeRun(bs: seq<Block>, hi: Word, p: int, n: nat) {
    p + n <= hi && forall x :: p <= x < p + n ==> FreeByte(bs, hi, x)
  }

  /** The end of the taken block that starts at `p`, or 0 if there is none. */
  ghost function TakenEnd(bs: seq<Block>, hi: Word, p: Word): Word {
    if bs == [] then 0
    else if bs[0] == Block(p, false) then HeadEnd(bs, hi)
    else TakenEnd(bs[1..], hi, p)
  }

  function Available(bs: seq<Block>, hi: Word): int {
    if bs == [] then 0
    else (if bs[0].free then HeadEnd(bs, hi) - bs[0].addr else 0) + Available(bs[1..], hi)
  }

  ghost function Taken(bs: seq<Block>, hi: Word): int {
    if bs == [] then 0
    else (if bs[0].free then 0 else HeadEnd(bs, hi) - bs[0].addr) + Taken(bs[1..], hi)
  }

  // ------------------------------------------------ allocation

  /** Where an allocation is placed below `end`: `(end - size) & ~(alignment - 1)`. */
  function Placed(end: Word, size: Word, alignment: Word): Word {
    And(Sub(end, size), Not(Sub(alignment, 1)))
  }

  lemma PlacedMeaning(end: Word, size: Word, alignment: Word, p: nat)
    requires IsPow2(alignment) && size <= end
    ensures Placed(end, size, alignment) % alignment == 0
    ensures end - size - alignment < Placed(end, size, alignment) <= end - size
    ensures p % alignment == 0 && p + size <= end ==> p <= Placed(end, size, alignment)
  {
    AlignDown(end - size, alignment);
    MultipleBelow(end - size, alignment, 0);
    if p % alignment == 0 && p + size <= end {
      MultipleBelow(end - size, alignment, p);
    }
  }

  predicate Fits(b: Block, end: Word, size: Word, alignment: Word) {
    b.free && size <= end && b.addr <= Placed(end, size, alignment)
  }

  /** The block list with the top of its first block given out from `start` on. */
  function Carve(bs: seq<Block>, start: Word): seq<Block>
    requires bs != []
  {
    (if start == bs[0].addr then [Block(start, false)] else [bs[0], Block(start, false)]) + bs[1..]
  }

  /** The address handed out (0 if none) and the new block list. */
  function Allocate(bs: seq<Block>, hi: Word, size: Word, alignment: Word): (Word, seq<Block>) {
    if bs == [] then (0, bs)
    else if Fits(bs[0], HeadEnd(bs, hi), size, alignment) then
      var start := Placed(HeadEnd(bs, hi), size, alignment);
      (start, Carve(bs, start))
    else
      var (p, rest) := Allocate(bs[1..], hi, size, alignment);
      (p, [bs[0]] + rest)
  }

  /** A successful allocation is an aligned run of free bytes, taken up to the end of its
      block and nothing else; every other taken block is as it was. */
  lemma {:induction false} AllocateTakes(bs: seq<Block>, hi: Word, size: Word, alignment: Word, x: int, q: Word)
    requires Ordered(bs, hi) && bs[0].addr > 0 && size > 0 && IsPow2(alignment)
    requires Allocate(bs, hi, size, alignment).0 != 0
    ensures var (p, bs') := Allocate(bs, hi, size, alignment);
            && bs[0].addr <= p && p % alignment == 0
            && p + size <= TakenEnd(bs', hi, p) <= hi && TakenEnd(bs', hi, p) < p + size + alignment
            && (p <= x < TakenEnd(bs', hi, p) ==> FreeByte(bs, hi, x))
            && (FreeByte(bs', hi, x) <==> FreeByte(bs, hi, x) && !(p <= x < TakenEnd(bs', hi, p)))
            && (q != p ==> TakenEnd(bs', hi, q) == TakenEnd(bs, hi, q))
            && TakenEnd(bs, hi, p) == 0
  {
    var (p, bs') := Allocate(bs, hi, size, alignment);
    var end := HeadEnd(bs, hi);
    if Fits(bs[0], end, size, alignment) {
      PlacedMeaning(end, size, alignment, 0);
      CarveTakes(bs, hi, p, x, q);
      OrderedBelow(bs, hi);
    } else {
      AllocateTakes(bs[1..], hi, size, alignment, x, q);
      assert bs'[1..] == Allocate(bs[1..], hi, size, alignment).1;
      AllocateHead(bs[1..], hi, size, alignment);
    }
  }

  lemma {:induction false} OrderedBelow(bs: seq<Block>, hi: Word)
    requires Ordered(bs, hi)
    ensures HeadEnd(bs, hi) <= hi
  {
    if |bs| > 1 {
      OrderedBelow(bs[1..], hi);
    }
  }

  /** A taken block starts no earlier than the list. */
  lemma {:induction false} TakenAbove(bs: seq<Block>, hi: Word, p: Word)
    requires Ordered(bs, hi) && p < bs[0].addr
    ensures TakenEnd(bs, hi, p) == 0
  {
    if |bs| > 1 {
      TakenAbove(bs[1..], hi, p);
    }
  }

  lemma CarveTakes(bs: seq<Block>, hi: Word, start: Word, x: int, q: Word)
    requires Ordered(bs, hi) && bs[0].free && bs[0].addr <= start < HeadEnd(bs, hi)
    ensures var bs' := Carve(bs, start);
            && TakenEnd(bs', hi, start) == HeadEnd(bs, hi)
            && (start <= x < HeadEnd(bs, hi) ==> FreeByte(bs, hi, x))
            && (FreeByte(bs', hi, x) <==> FreeByte(bs, hi, x) && !(start <= x < HeadEnd(bs, hi)))
            && (q != start ==> TakenEnd(bs', hi, q) == TakenEnd(bs, hi, q))
            && TakenEnd(bs, hi, start) == 0
  {
    var bs' := Carve(bs, start);
    if |bs| > 1 {
      TakenAbove(bs[1..], hi, start);
    }
    if start == bs[0].addr {
      assert bs'[1..] == bs[1..];
    } else {
      assert bs'[1..] == [Block(start, false)] + bs[1..];
      assert bs'[1..][1..] == bs[1..];
    }
  }

  lemma AllocateHead(bs: seq<Block>, hi: Word, size: Word, alignment: Word)
    requires bs != []
    ensures var bs' := Allocate(bs, hi, size, alignment).1;
            bs' != [] && bs'[0].addr == bs[0].addr && (bs'[0].free ==> bs[0].free)
  {
  }

  lemma {:induction false} AllocateKeepsOrder(bs: seq<Block>, hi: Word, size: Word, alignment: Word)
    requires Ordered(bs, hi) && Coalesced(bs) && size > 0 && IsPow2(alignment)
    ensures Ordered(Allocate(bs, hi, size, alignment).1, hi)
    ensures Coalesced(Allocate(bs, hi, size, alignment).1)
  {
    var bs' := Allocate(bs, hi, size, alignment).1;
    var end := HeadEnd(bs, hi);
    if Fits(bs[0], end, size, alignment) {
      PlacedMeaning(end, size, alignment, 0);
      if bs'[0].free {
        assert bs'[1..][1..] == bs[1..];
      } else {
        assert bs'[1..] == bs[1..];
      }
    } else if |bs| > 1 {
      AllocateKeepsOrder(bs[1..], hi, size, alignment);
      AllocateHead(bs[1..], hi, size, alignment);
      assert bs'[1..] == Allocate(bs[1..], hi, size, alignment).1;
    }
  }

  /** A run of free bytes that starts in the first block lies inside it. */
  lemma RunInFirstBlock(bs: seq<Block>, hi: Word, p: int, n: nat)
    requires Ordered(bs, hi) && Coalesced(bs) && n > 0 && FreeRun(bs, hi, p, n) && p < HeadEnd(bs, hi)
    ensures bs[0].free && bs[0].addr <= p && p + n <= HeadEnd(bs, hi)
  {
    assert FreeByte(bs, hi, p);
    if p + n > HeadEnd(bs, hi) {
      SecondFree(bs, hi);
    }
  }

  lemma SecondFree(bs: seq<Block>, hi: Word)
    requires Ordered(bs, hi) && |bs| > 1 && FreeByte(bs, hi, bs[1].addr)
    ensures bs[1].free
  {
    assert FreeByte(bs[1..], hi, bs[1].addr);
  }

  lemma RunInLaterBlock(bs: seq<Block>, hi: Word, p: int, n: nat)
    requires bs != [] && FreeRun(bs, hi, p, n) && p >= HeadEnd(bs, hi)
    ensures FreeRun(bs[1..], hi, p, n)
  {
    forall x | p <= x < p + n
      ensures FreeByte(bs[1..], hi, x)
    {
      assert FreeByte(bs, hi, x);
    }
  }

  /** If any aligned run of `size` free bytes exists, the allocation succeeds; it takes the
      topmost one of the lowest block that has one. */
  lemma {:induction false} RunFound(bs: seq<Block>, hi: Word, size: Word, alignment: Word, p: nat)
    requires Ordered(bs, hi) && Coalesced(bs) && bs[0].addr > 0 && size > 0 && IsPow2(alignment)
    requires p % alignment == 0 && FreeRun(bs, hi, p, size)
    ensures var (start, bs') := Allocate(bs, hi, size, alignment);
            && start != 0
            && (p <= start || TakenEnd(bs', hi, start) <= p)
            && (p < start ==> FreeRun(bs, hi, p, start - p))
  {
    var (start, bs') := Allocate(bs, hi, size, alignment);
    var end := HeadEnd(bs, hi);
    OrderedBelow(bs, hi);
    if Fits(bs[0], end, size, alignment) {
      PlacedMeaning(end, size, alignment, p);
      CarveTakes(bs, hi, start, 0, 0);
      if p < end {
        RunInFirstBlock(bs, hi, p, size);
      }
    } else {
      if p < end {
        RunInFirstBlock(bs, hi, p, size);
        PlacedMeaning(end, size, alignment, p);
        assert false;
      }
      RunInLaterBlock(bs, hi, p, size);
      RunFound(bs[1..], hi, size, alignment, p);
      AllocateTakes(bs[1..], hi, size, alignment, 0, 0);
      assert bs'[1..] == Allocate(bs[1..], hi, size, alignment).1;
      if p < start {
        LaterRun(bs, hi, p, start - p);
      }
    }
  }

  lemma LaterRun(bs: seq<Block>, hi: Word, p: int, n: nat)
    requires bs != [] && FreeRun(bs[1..], hi, p, n) && p >= HeadEnd(bs, hi)
    ensures FreeRun(bs, hi, p, n)
  {
    forall x | p <= x < p + n
      ensures FreeByte(bs, hi, x)
    {
      assert FreeByte(bs[1..], hi, x);
    }
  }

  /** alloc returns 0 exactly when no aligned run of `size` free bytes exists anywhere. */
  lemma AllocateFailsExactly(bs: seq<Block>, lo: Word, hi: Word, size: Word, alignment: Word)
    requires Valid(bs, lo, hi) && size > 0 && IsPow2(alignment)
    ensures Allocate(bs, hi, size, alignment).0 == 0
       <==> !exists p: nat :: p % alignment == 0 && FreeRun(bs, hi, p, size)
  {
    var (start, bs') := Allocate(bs, hi, size, alignment);
    if start != 0 {
      forall x ensures start <= x < start + size ==> FreeByte(bs, hi, x) {
        AllocateTakes(bs, hi, size, alignment, x, 0);
      }
      AllocateTakes(bs, hi, size, alignment, 0, 0);
      assert start % alignment == 0 && FreeRun(bs, hi, start, size);
    } else {
      forall p: nat | p % alignment == 0 && FreeRun(bs, hi, p, size)
        ensures false
      {
        RunFound(bs, hi, size, alignment, p);
      }
    }
  }

  // ------------------------------------------------ release

  function MarkFree(bs: seq<Block>, p: Word): seq<Block> {
    if bs == [] then bs
    else if bs[0].addr == p then [Block(p, true)] + bs[1..]
    else [bs[0]] + MarkFree(bs[1..], p)
  }

  /** Neighbouring free blocks merged, front to back. */
  function Merge(bs: seq<Block>): seq<Block>
    decreases |bs|
  {
    if |bs| <= 1 then bs
    else if bs[0].free && bs[1].free then Merge([bs[0]] + bs[2..])
    else [bs[0]] + Merge(bs[1..])
  }

  predicate Has(bs: seq<Block>, p: Word) {
    bs != [] && (bs[0].addr == p || Has(bs[1..], p))
  }

  function Release(bs: seq<Block>, p: Word): seq<Block> {
    if p == 0 || !Has(bs, p) then bs else Merge(MarkFree(bs, p))
  }

  lemma {:induction false} MergeHead(bs: seq<Block>)
    requires bs != []
    ensures Merge(bs) != [] && Merge(bs)[0] == bs[0]
    decreases |bs|
  {
    if |bs| > 1 && bs[0].free && bs[1].free {
      MergeHead([bs[0]] + bs[2..]);
    }
  }

  /** Merging changes neither which bytes are free nor any taken block, and leaves no two
      free neighbours. */
  lemma {:induction false} MergeKeeps(bs: seq<Block>, hi: Word, x: int, q: Word)
    requires Ordered(bs, hi)
    ensures Ordered(Merge(bs), hi) && Coalesced(Merge(bs))
    ensures FreeByte(Merge(bs), hi, x) <==> FreeByte(bs, hi, x)
    ensures TakenEnd(Merge(bs), hi, q) == TakenEnd(bs, hi, q)
    ensures Available(Merge(bs), hi) == Available(bs, hi)
    decreases |bs|
  {
    if |bs| > 1 {
      if bs[0].free && bs[1].free {
        var shorter := [bs[0]] + bs[2..];
        assert shorter[1..] == bs[1..][1..] == bs[2..];
        MergeKeeps(shorter, hi, x, q);
      } else {
        MergeKeeps(bs[1..], hi, x, q);
        MergeHead(bs[1..]);
        var merged := Merge(bs);
        assert merged[1..] == Merge(bs[1..]);
      }
    }
  }

  lemma {:induction false} MergeOfCoalesced(bs: seq<Block>)
    requires Coalesced(bs)
    ensures Merge(bs) == bs
  {
    if |bs| > 1 {
      MergeOfCoalesced(bs[1..]);
    }
  }

  lemma {:induction false} MarkFreeKeeps(bs: seq<Block>, hi: Word, p: Word, x: int, q: Word)
    requires Ordered(bs, hi) && TakenEnd(bs, hi, p) != 0
    ensures Has(bs, p) && MarkFree(bs, p) != [] && MarkFree(bs, p)[0].addr == bs[0].addr
    ensures Ordered(MarkFree(bs, p), hi)
    ensures FreeByte(MarkFree(bs, p), hi, x) <==> FreeByte(bs, hi, x) || p <= x < TakenEnd(bs, hi, p)
    ensures TakenEnd(MarkFree(bs, p), hi, q) == if q == p then 0 else TakenEnd(bs, hi, q)
    ensures p < TakenEnd(bs, hi, p) && bs[0].addr <= p
    ensures Available(MarkFree(bs, p), hi) == Available(bs, hi) + TakenEnd(bs, hi, p) - p
  {
    var bs' := MarkFree(bs, p);
    if bs[0].addr == p {
      assert bs'[1..] == bs[1..];
      if |bs| > 1 {
        TakenAbove(bs[1..], hi, p);
      }
    } else {
      MarkFreeKeeps(bs[1..], hi, p, x, q);
      assert bs'[1..] == MarkFree(bs[1..], p);
    }
  }

  /** Freeing a live pointer gives back exactly its bytes; anything else changes nothing. */
  lemma ReleaseFrees(bs: seq<Block>, lo: Word, hi: Word, p: Word, x: int, q: Word)
    requires Valid(bs, lo, hi)
    ensures Valid(Release(bs, p), lo, hi)
    ensures FreeByte(Release(bs, p), hi, x) <==> FreeByte(bs, hi, x) || p <= x < TakenEnd(bs, hi, p)
    ensures TakenEnd(Release(bs, p), hi, q) == if q == p then 0 else TakenEnd(bs, hi, q)
    ensures TakenEnd(bs, hi, p) == 0 ==> Release(bs, p) == bs
    ensures TakenEnd(bs, hi, p) != 0 ==>
              lo <= p && Available(Release(bs, p), hi) == Available(bs, hi) + TakenEnd(bs, hi, p) - p
  {
    if TakenEnd(bs, hi, p) != 0 {
      MarkFreeKeeps(bs, hi, p, x, q);
      MergeKeeps(MarkFree(bs, p), hi, x, q);
      MergeHead(MarkFree(bs, p));
    } else {
      MarkFreeOfFree(bs, hi, p);
      MergeOfCoalesced(bs);
    }
  }

  lemma {:induction false} MarkFreeOfFree(bs: seq<Block>, hi: Word, p: Word)
    requires Ordered(bs, hi) && TakenEnd(bs, hi, p) == 0
    ensures MarkFree(bs, p) == bs
  {
    if bs[0].addr != p && |bs| > 1 {
      MarkFreeOfFree(bs[1..], hi, p);
    }
  }

  // ------------------------------------------------ round trips and conservation

  lemma FirstCarveUndone(bs: seq<Block>, hi: Word, size: Word, alignment: Word)
    requires Ordered(bs, hi) && Coalesced(bs) && bs[0].addr > 0 && size > 0 && IsPow2(alignment)
    requires Allocate(bs, hi, size, alignment).0 != 0 && Fits(bs[0], HeadEnd(bs, hi), size, alignment)
    ensures var (p, bs') := Allocate(bs, hi, size, alignment);
            && Has(bs', p) && MarkFree(bs', p)[0] == bs[0] && Merge(MarkFree(bs', p)) == bs
  {
    var (p, bs') := Allocate(bs, hi, size, alignment);
    PlacedMeaning(HeadEnd(bs, hi), size, alignment, 0);
    MergeOfCoalesced(bs);
    var marked := MarkFree(bs', p);
    if p == bs[0].addr {
      assert marked == bs;
    } else {
      assert bs'[1..] == [Block(p, false)] + bs[1..];
      assert bs'[1..][1..] == bs[1..];
      assert MarkFree(bs'[1..], p) == [Block(p, true)] + bs[1..];
      assert marked == [bs[0]] + MarkFree(bs'[1..], p);
      assert [marked[0]] + marked[2..] == bs;
    }
  }

  lemma {:induction false} CarveUndone(bs: seq<Block>, hi: Word, size: Word, alignment: Word)
    requires Ordered(bs, hi) && Coalesced(bs) && bs[0].addr > 0 && size > 0 && IsPow2(alignment)
    requires Allocate(bs, hi, size, alignment).0 != 0
    ensures var (p, bs') := Allocate(bs, hi, size, alignment);
            && Has(bs', p) && MarkFree(bs', p)[0] == bs[0] && Merge(MarkFree(bs', p)) == bs
  {
    if Fits(bs[0], HeadEnd(bs, hi), size, alignment) {
      FirstCarveUndone(bs, hi, size, alignment);
    } else {
      var (p, bs') := Allocate(bs, hi, size, alignment);
      CarveUndone(bs[1..], hi, size, alignment);
      AllocateTakes(bs[1..], hi, size, alignment, 0, 0);
      assert bs'[1..] == Allocate(bs[1..], hi, size, alignment).1;
      var marked := MarkFree(bs', p);
      assert marked[1..] == MarkFree(bs'[1..], p);
      assert marked[0] == bs[0] && marked[1] == bs[1];
    }
  }

  /** Freeing the pointer just returned restores exactly the previous block set. */
  lemma FreeUndoesAlloc(bs: seq<Block>, lo: Word, hi: Word, size: Word, alignment: Word)
    requires Valid(bs, lo, hi) && size > 0 && IsPow2(alignment)
    requires Allocate(bs, hi, size, alignment).0 != 0
    ensures Release(Allocate(bs, hi, size, alignment).1, Allocate(bs, hi, size, alignment).0) == bs
  {
    CarveUndone(bs, hi, size, alignment);
  }

  /** Free bytes and the extents of taken blocks always add up to the whole range. */
  lemma {:induction false} Conservation(bs: seq<Block>, hi: Word)
    requires Ordered(bs, hi)
    ensures Available(bs, hi) + Taken(bs, hi) == hi - bs[0].addr
    ensures 0 <= Available(bs, hi) <= hi - bs[0].addr
  {
    if |bs| > 1 {
      Conservation(bs[1..], hi);
    } else {
      assert bs[1..] == [];
    }
  }

  /** An allocation lowers the free total by what it was given: at least the size asked for,
      and less than size plus alignment. */
  lemma {:induction false} AllocateCost(bs: seq<Block>, hi: Word, size: Word, alignment: Word)
    requires Ordered(bs, hi) && bs[0].addr > 0 && size > 0 && IsPow2(alignment)
    requires Allocate(bs, hi, size, alignment).0 != 0
    ensures var (p, bs') := Allocate(bs, hi, size, alignment);
            && Available(bs', hi) == Available(bs, hi) - (TakenEnd(bs', hi, p) - p)
            && size <= TakenEnd(bs', hi, p) - p < size + alignment
  {
    AllocateTakes(bs, hi, size, alignment, 0, 0);
    var (p, bs') := Allocate(bs, hi, size, alignment);
    var end := HeadEnd(bs, hi);
    if Fits(bs[0], end, size, alignment) {
      PlacedMeaning(end, size, alignment, 0);
      if p == bs[0].addr {
        assert bs'[1..] == bs[1..];
      } else {
        assert bs'[1..][1..] == bs[1..];
      }
    } else {
      AllocateCost(bs[1..], hi, size, alignment);
      AllocateTakes(bs[1..], hi, size, alignment, 0, 0);
      AllocateHead(bs[1..], hi, size, alignment);
      assert bs'[1..] == Allocate(bs[1..], hi, size, alignment).1;
    }
  }

  /** With nothing taken, the block set is the single free block `reset` creates. */
  lemma NothingTaken(bs: seq<Block>, lo: Word, hi: Word)
    requires Valid(bs, lo, hi) && forall p: Word :: TakenEnd(bs, hi, p) == 0
    ensures bs == [Block(lo, true)]
  {
    assert TakenEnd(bs, hi, bs[0].addr) == 0;
    if |bs| > 1 && !bs[1].free {
      SecondTaken(bs, hi);
    }
  }

  lemma SecondTaken(bs: seq<Block>, hi: Word)
    requires Ordered(bs, hi) && |bs| > 1 && !bs[1].free
    ensures TakenEnd(bs, hi, bs[1].addr) != 0
  {
    assert TakenEnd(bs[1..], hi, bs[1].addr) == HeadEnd(bs[1..], hi);
  }

  ghost function ReleaseAll(bs: seq<Block>, ps: seq<Word>): seq<Block>
    decreases |ps|
  {
    if ps == [] then bs else ReleaseAll(Release(bs, ps[0]), ps[1..])
  }

  /** Freeing every live pointer, in any order, returns to the state after `reset`. */
  lemma {:induction false} FreeAllResets(bs: seq<Block>, lo: Word, hi: Word, ps: seq<Word>)
    requires Valid(bs, lo, hi) && forall p: Word :: TakenEnd(bs, hi, p) != 0 ==> p in ps
    ensures ReleaseAll(bs, ps) == [Block(lo, true)]
    decreases |ps|
  {
    if ps == [] {
      NothingTaken(bs, lo, hi);
    } else {
      var bs' := Release(bs, ps[0]);
      forall p: Word
        ensures Valid(bs', lo, hi) && (TakenEnd(bs', hi, p) != 0 ==> p in ps[1..])
      {
        ReleaseFrees(bs, lo, hi, ps[0], 0, p);
      }
      assert Valid(bs', lo, hi) by {
        ReleaseFrees(bs, lo, hi, ps[0], 0, 0);
      }
      FreeAllResets(bs', lo, hi, ps[1..]);
    }
  }
}
