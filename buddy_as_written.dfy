/** Four places where `alloc`, `dealloc` and `FreeBlock::split` of
    alarm-buddy/src/lib.rs, as written, do not do what their documentation
    and comments describe. Each is a function here that follows the code,
    with a lemma that exhibits the difference on a small heap: a minimum
    block of 4 KiB (`m` = 12), two orders and two frames (8 KiB), so that
    the order-1 block is the whole heap. The rest of the model (`BuddyPool`
    and the `Heap` class) follows the documentation instead. */
module BuddyAsWritten {
  import opened Results
  import opened Bits
  import opened BuddySizes
  import opened BuddyPool
  import opened FrameCache

  /** The minimum block size's log2 of the small heap. */
  const M: nat := 12

  /** The small heap right after two refills merged into one order-1 block
      at offset 0: that block is free. */
  function WholeFree(): Pool
  {
    Pool(M, 8192, [[], [0]], map[0 := 1], map[0 := 8192])
  }

  /** The small heap with its lower 4 KiB block handed out and the upper
      one, at 4096, free. */
  function LowerOwned(): Pool
  {
    Pool(M, 8192, [[4096], []], map[4096 := 0], map[4096 := 4096])
  }

  /** The small heap with no free block and no header written in it. */
  function NothingFree(): Pool
  {
    Pool(M, 8192, [[], []], map[], map[])
  }

  /** A 4 KiB request, and a 100-byte one; both need an order-0 block. */
  const PAGE := Layout(4096, 1)
  const SMALL := Layout(100, 1)

  /** `block_order` puts both requests at order 0 on the small heap. */
  lemma SmallRequestsOrderZero()
    ensures BlockOrder(M, 8192, PAGE) == Success(0)
    ensures BlockOrder(M, 8192, SMALL) == Success(0)
  {
    PageSizes();
    assert Wanted(M, PAGE) == 4096 && Wanted(M, SMALL) == 4096;
    assert NextPowerOfTwo(4096) == 4096 by {
      Pow2IsPow2(12);
      LeastPow2IsLeast(NextPowerOfTwo(4096), 4096);
    }
    assert BlockSize(M, 8192, PAGE) == Success(4096);
    assert BlockSize(M, 8192, SMALL) == Success(4096);
    OrderFromSizeInverse(M, 0);
    assert OrderFromSize(M, 4096) == 0;
  }

  /** The sizes of the small heap: a frame and an order-0 block are 4 KiB,
      an order-1 block is 8 KiB. */
  lemma PageSizes()
    ensures Pow2(12) == 4096 && FRAME_SIZE == 4096
    ensures OrderSize(M, 0) == 4096 && OrderSize(M, 1) == 8192
  {
    assert Pow2(4) == 16;
    assert Pow2(8) == 256 by { Pow2Add(4, 4); }
    assert Pow2(12) == 4096 by { Pow2Add(8, 4); }
    assert Pow2(13) == 8192;
  }

  // ===== (a) the split loop of `alloc` =====

  /** The orders the split loop of `alloc` visits as written,
      `current_order..min_order`, rising from `current_order`. Since the
      loop runs only on a block found at `current_order >= min_order`,
      the range is always empty. */
  function SplitOrdersAsWritten(current: nat, min: nat): (r: seq<nat>)
    ensures current >= min ==> r == []
    ensures forall i :: 0 <= i < |r| ==> current <= r[i] < min
  {
    seq(if current < min then min - current else 0, i => current + i)
  }

  /** Splitting `block` at each order of `orders` in turn, each upper half
      going on the free list of that order. */
  function SplitAlong(p: Pool, block: nat, orders: seq<nat>): (q: Pool)
    requires forall i :: 0 <= i < |orders| ==> orders[i] < |p.lists|
    ensures |q.lists| == |p.lists|
    decreases |orders|
  {
    if orders == [] then p else SplitAlong(SplitOff(p, block, orders[0]), block, orders[1..])
  }

  /** The block-taking part of `alloc` as written: pops the front block of
      the free list of order `c` and runs the split loop over
      `c..min_order`. */
  function AllocAsWritten(p: Pool, c: nat, min: nat): (q: Pool)
    requires min <= c < |p.lists| && p.lists[c] != []
  {
    SplitAlong(PopFront(p, c), p.lists[c][0], SplitOrdersAsWritten(c, min))
  }

  /** As written, `alloc` never splits: the block keeps the order of the
      list it came from, whatever the order of the request. */
  lemma AllocAsWrittenNeverSplits(p: Pool, c: nat, min: nat)
    requires min <= c < |p.lists| && p.lists[c] != []
    ensures AllocAsWritten(p, c, min) == PopFront(p, c)
  {
  }

  /** A heap whose only free block is `b`, of order `o`, alone on its
      free list and placed as its order asks, keeps the invariant. */
  lemma OneFreeInv(p: Pool, b: nat, o: nat)
    requires ParamsOk(p.m, |p.lists|) && p.heapSize % FRAME_SIZE == 0
    requires p.free == map[b := o] && o < |p.lists| && p.lists[o] == [b]
    requires forall k :: 0 <= k < |p.lists| && k != o ==> p.lists[k] == []
    requires Placed(p, b, o)
    ensures Inv(p)
  {
    assert NoDup(p.lists[o]);
  }

  /** The small heap with its whole 8 KiB free keeps the invariant. */
  lemma WholeFreeInv()
    ensures Inv(WholeFree())
  {
    PageSizes();
    var p := WholeFree();
    assert Placed(p, 0, 1);
    OneFreeInv(p, 0, 1);
  }

  /** Popping the 8 KiB block leaves no free block; its header stays. */
  lemma PopWholeFree()
    ensures PopFront(WholeFree(), 1) == Pool(M, 8192, [[], []], map[], map[0 := 8192])
  {
    var p := WholeFree();
    assert p.lists[1][0] == 0;
    assert p.free - {0} == map[];
  }

  /** Splitting the popped 8 KiB block once, as documented, puts its upper
      half on the free list of order 0 and leaves two 4 KiB headers. */
  lemma SplitPopped()
    ensures SplitFrom(Pool(M, 8192, [[], []], map[], map[0 := 8192]), 0, 1, 0)
            == Pool(M, 8192, [[4096], []], map[4096 := 0], map[0 := 4096, 4096 := 4096])
  {
    var p := Pool(M, 8192, [[], []], map[], map[0 := 8192]);
    assert SplitFrom(p, 0, 1, 1) == p;
    assert HeaderAt(p, 0) == 8192;
    var h := Halve(p, 0);
    assert h == p.(headers := map[0 := 4096, 4096 := 4096]);
    assert SplitFrom(p, 0, 1, 0) == SplitOff(p, 0, 0) == PushOrder(h, 4096, 0);
    var ls := h.lists[0 := [4096] + h.lists[0]];
    assert |ls| == 2 && ls[0] == [4096] && ls[1] == [];
    assert ls == [[4096], []];
  }

  /** A 4 KiB request on the small heap with its whole 8 KiB free: as
      written it is handed the whole 8 KiB block, whose header says 8 KiB,
      and no free memory is left. */
  lemma AllocAsWrittenLosesHalf()
    ensures Inv(WholeFree())
    ensures BlockOrder(M, 8192, PAGE) == Success(0) && FirstNonEmpty(WholeFree().lists, 0) == 1
    ensures var q := AllocAsWritten(WholeFree(), 1, 0);
            q.lists == [[], []] && q.free == map[] && HeaderAt(q, 0) == 8192
  {
    SmallRequestsOrderZero();
    WholeFreeInv();
    var p := WholeFree();
    assert FirstNonEmpty(p.lists, 1) == 1;
    AllocAsWrittenNeverSplits(p, 1, 0);
    PopWholeFree();
  }

  /** The same request split as documented: the request gets the lower
      half, with a 4 KiB header, and the upper half stays free on the list
      of order 0. */
  lemma AllocSplitKeepsHalf()
    ensures var q := SplitFrom(PopFront(WholeFree(), 1), 0, 1, 0);
            && q.lists == [[4096], []] && q.free == map[4096 := 0]
            && Inv(q) && Held(q, 0, 0)
  {
    WholeFreeInv();
    var p := WholeFree();
    assert p.lists[1][0] == 0;
    PopKeeps(p, 1);
    SplitFromKeeps(PopFront(p, 1), 0, 1, 0);
    PopWholeFree();
    SplitPopped();
  }

  // ===== (b) and (c): the merge loop and the header of `dealloc` =====

  /** Taking an element out of a list it is in shortens the list. */
  lemma RemoveFirstShrinks(s: seq<nat>, x: nat)
    requires x in s
    ensures |RemoveFirst(s, x)| == |s| - 1
  {
  }

  /** The merge loop of `dealloc` as written: `order` never changes, so
      each merged block is looked for among the buddies of the original
      order again. It ends because each round takes a block off the list of
      that order. */
  function CoalesceAsWritten(p: Pool, block: nat, o: nat): (r: (Pool, nat))
    requires o < |p.lists|
    ensures |r.0.lists| == |p.lists|
    decreases |p.lists[o]|
  {
    match GetBuddy(p.m, p.heapSize, block, o)
    case None => (p, block)
    case Some(buddy) =>
      if buddy in p.lists[o] then
        RemoveFirstShrinks(p.lists[o], buddy);
        CoalesceAsWritten(MergeWith(p, block, buddy, o), if block < buddy then block else buddy, o)
      else (p, block)
  }

  /** `dealloc` as written: a header holding `layout.size()` is written at
      `ptr`, the block is merged by the loop above and pushed on the list
      of the layout's order. A refused layout makes the source panic; it is
      an error here. */
  function DeallocAsWritten(p: Pool, ptr: nat, layout: Layout): (r: Result<Pool, BuddyErr>)
    requires BlockOrder(p.m, p.heapSize, layout).Success? ==> BlockOrder(p.m, p.heapSize, layout).value < |p.lists|
    ensures r.Failure? <==> BlockOrder(p.m, p.heapSize, layout).Failure?
    ensures r.Success? ==> |r.value.lists| == |p.lists|
  {
    match BlockOrder(p.m, p.heapSize, layout)
    case Failure(e) => Failure(e)
    case Success(o) =>
      var c := CoalesceAsWritten(WriteHeader(p, ptr, layout.size), ptr, o);
      Success(PushOrder(c.0, c.1, o))
  }

  /** On the small heap the buddy of the order-0 block at 0 is the one at
      4096. */
  lemma BuddyOfLowerHalf()
    ensures GetBuddy(M, 8192, 0, 0) == Some(4096)
  {
    PageSizes();
  }

  /** The small heap with its upper half free keeps the invariant, and its
      lower half is owned. */
  lemma LowerOwnedInv()
    ensures Inv(LowerOwned()) && Owned(LowerOwned(), 0, 0)
  {
    PageSizes();
    var p := LowerOwned();
    assert Placed(p, 4096, 0);
    OneFreeInv(p, 4096, 0);
  }

  /** The small heap with nothing free keeps the invariant, and its lower
      half is owned. */
  lemma NothingFreeInv()
    ensures Inv(NothingFree()) && Owned(NothingFree(), 0, 0)
  {
    PageSizes();
  }

  /** Writing the 4 KiB header at 0 and merging with the free upper half
      takes that half off its list and leaves an 8 KiB header at 0. */
  lemma MergeLowerHalf()
    ensures MergeWith(WriteHeader(LowerOwned(), 0, 4096), 0, 4096, 0)
            == Pool(M, 8192, [[], []], map[], map[4096 := 4096, 0 := 8192])
  {
    var w := WriteHeader(LowerOwned(), 0, 4096);
    assert w == Pool(M, 8192, [[4096], []], map[4096 := 0], map[4096 := 4096, 0 := 4096]);
    assert IndexOf([4096], 4096) == 0;
    assert RemoveFirst([4096], 4096) == [];
    var ls := w.lists[0 := []];
    assert |ls| == 2 && ls[0] == [] && ls[1] == [];
    assert ls == [[], []];
    assert w.free - {4096} == map[];
  }

  /** The block merged from the two halves, pushed on the list of order
      `o`. */
  function MergedAt(o: nat): Pool
    requires o < 2
  {
    PushOrder(Pool(M, 8192, [[], []], map[], map[4096 := 4096, 0 := 8192]), 0, o)
  }

  /** The merged block on the list of order 0 or 1. */
  lemma MergedAtLists()
    ensures MergedAt(0).lists == [[0], []] && MergedAt(0).free == map[0 := 0]
    ensures MergedAt(1).lists == [[], [0]]
    ensures HeaderAt(MergedAt(0), 0) == 8192 && HeaderAt(MergedAt(1), 0) == 8192
  {
    assert [0] + [] == [0];
    var ls0 := [[], []][0 := [0]];
    assert |ls0| == 2 && ls0[0] == [0] && ls0[1] == [];
    assert ls0 == [[0], []];
    var ls1 := [[], []][1 := [0]];
    assert |ls1| == 2 && ls1[0] == [] && ls1[1] == [0];
    assert ls1 == [[], [0]];
  }

  /** A free block of order 0 whose header does not hold 4 KiB breaks the
      invariant of the small heap. */
  lemma WrongHeaderBreaksInv(q: Pool)
    requires q.m == M && 0 in q.free && q.free[0] == 0 && HeaderAt(q, 0) != 4096
    ensures !Inv(q)
  {
    PageSizes();
    assert !Placed(q, 0, 0);
  }

  /** `dealloc` as written, for a layout of order `o`, in its steps. */
  lemma DeallocAsWrittenSteps(p: Pool, ptr: nat, layout: Layout, o: nat)
    requires BlockOrder(p.m, p.heapSize, layout) == Success(o) && o < |p.lists|
    ensures var c := CoalesceAsWritten(WriteHeader(p, ptr, layout.size), ptr, o);
            DeallocAsWritten(p, ptr, layout) == Success(PushOrder(c.0, c.1, o))
  {
  }

  /** `Freed` as its steps, when the merge loop stops at `(q, block, o)`. */
  lemma FreedSteps(p: Pool, ptr: nat, o: nat, q: Pool, block: nat, top: nat)
    requires o < |p.lists| && Coalesce(WriteHeader(p, ptr, OrderSize(p.m, o)), ptr, o) == (q, block, top)
    ensures top < |q.lists| && Freed(p, ptr, o) == PushOrder(q, block, top)
  {
  }

  /** Giving back the lower 4 KiB block while the upper one is free: as
      written, the two are merged into the 8 KiB block but that block goes
      on the list of 4 KiB blocks, where the invariant no longer holds (a
      later `alloc` of 4 KiB would hand out all 8 KiB). */
  lemma MergeAsWrittenStaysAtOrder()
    ensures Inv(LowerOwned()) && Owned(LowerOwned(), 0, 0)
    ensures BlockOrder(M, 8192, PAGE) == Success(0)
    ensures var r := DeallocAsWritten(LowerOwned(), 0, PAGE);
            && r.Success? && r.value.lists == [[0], []] && HeaderAt(r.value, 0) == 8192
            && !Inv(r.value)
  {
    SmallRequestsOrderZero();
    LowerOwnedInv();
    PageSizes();
    BuddyOfLowerHalf();
    MergeLowerHalf();
    MergedAtLists();
    var p := LowerOwned();
    var w := WriteHeader(p, 0, 4096);
    var merged := MergeWith(w, 0, 4096, 0);
    assert 4096 in w.lists[0];
    assert CoalesceAsWritten(merged, 0, 0) == (merged, 0);
    assert CoalesceAsWritten(w, 0, 0) == (merged, 0);
    DeallocAsWrittenSteps(p, 0, PAGE, 0);
    WrongHeaderBreaksInv(MergedAt(0));
  }

  /** The same block merged as documented: the merged 8 KiB block goes on
      the list of order 1 and the invariant holds. */
  lemma MergeAsDocumentedRaisesOrder()
    ensures var q := Freed(LowerOwned(), 0, 0);
            q.lists == [[], [0]] && HeaderAt(q, 0) == 8192 && Inv(q)
  {
    LowerOwnedInv();
    PageSizes();
    BuddyOfLowerHalf();
    MergeLowerHalf();
    MergedAtLists();
    var p := LowerOwned();
    var w := WriteHeader(p, 0, 4096);
    var merged := MergeWith(w, 0, 4096, 0);
    assert 4096 in w.lists[0];
    assert Coalesce(merged, 0, 1) == (merged, 0, 1);
    assert Coalesce(w, 0, 0) == (merged, 0, 1);
    FreedSteps(p, 0, 0, merged, 0, 1);
    FreedKeeps(p, 0, 0);
  }

  /** The small heap with one order-0 block at 0 whose header holds
      `size`. */
  function OneBlock(size: nat): Pool
  {
    Pool(M, 8192, [[0], []], map[0 := 0], map[0 := size])
  }

  /** Pushing the block at 0 with a header of `size` on the list of order
      0 of the empty small heap gives `OneBlock(size)`. */
  lemma PushOneBlock(size: nat)
    ensures PushOrder(WriteHeader(NothingFree(), 0, size), 0, 0) == OneBlock(size)
  {
    var ls := [[], []][0 := [0] + []];
    assert |ls| == 2 && ls[0] == [0] && ls[1] == [];
    assert ls == [[0], []];
  }

  /** Giving back a 100-byte block: as written, its header says 100 bytes
      though the block is 4 KiB, and a block of order 0 with that header
      breaks the invariant. */
  lemma HeaderAsWrittenHoldsLayoutSize()
    ensures Inv(NothingFree()) && Owned(NothingFree(), 0, 0)
    ensures BlockOrder(M, 8192, SMALL) == Success(0)
    ensures var r := DeallocAsWritten(NothingFree(), 0, SMALL);
            && r.Success? && r.value.lists == [[0], []] && HeaderAt(r.value, 0) == 100
            && !Inv(r.value)
  {
    SmallRequestsOrderZero();
    NothingFreeInv();
    BuddyOfLowerHalf();
    var p := NothingFree();
    var w := WriteHeader(p, 0, 100);
    assert CoalesceAsWritten(w, 0, 0) == (w, 0);
    DeallocAsWrittenSteps(p, 0, SMALL, 0);
    PushOneBlock(100);
    WrongHeaderBreaksInv(OneBlock(100));
  }

  /** The same block given back as documented: its header holds the 4 KiB
      of its order and the invariant holds. */
  lemma HeaderAsDocumentedHoldsBlockSize()
    ensures var q := Freed(NothingFree(), 0, 0);
            q.lists == [[0], []] && HeaderAt(q, 0) == 4096 && Inv(q)
  {
    NothingFreeInv();
    PageSizes();
    BuddyOfLowerHalf();
    var p := NothingFree();
    var w := WriteHeader(p, 0, 4096);
    assert Coalesce(w, 0, 0) == (w, 0, 0);
    FreedSteps(p, 0, 0, w, 0, 0);
    PushOneBlock(4096);
    FreedKeeps(p, 0, 0);
  }

  // ===== (d) the offset of the split-off half =====

  /** `FreeBlock::split` as written: `block.offset(size)` on a pointer to
      `FreeBlock` moves `size` headers, that is `size * headerSize` bytes,
      with `headerSize` the size of a `FreeBlock`. The result is the pool
      with both headers written and the offset of the new one. */
  function SplitAsWritten(p: Pool, block: nat, headerSize: nat): (r: (Pool, nat))
    ensures r.1 == block + (HeaderAt(p, block) / 2) * headerSize
    ensures HeaderAt(r.0, r.1) == HeaderAt(p, block) / 2
  {
    var half := HeaderAt(p, block) / 2;
    var split := block + half * headerSize;
    (WriteHeader(WriteHeader(p, block, half), split, half), split)
  }

  /** A `FreeBlock` holds a `usize` and two links, so it is at least two
      bytes long; then, as written, the header of the split-off half is
      written at or past the end of the block being split, outside it,
      where the comments place it at the block's middle. */
  lemma SplitAsWrittenMissesMiddle(p: Pool, block: nat, headerSize: nat)
    requires 2 <= headerSize && 2 <= HeaderAt(p, block) && HeaderAt(p, block) % 2 == 0
    ensures SplitAsWritten(p, block, headerSize).1 >= block + HeaderAt(p, block)
    ensures Halve(p, block).headers[block + HeaderAt(p, block) / 2] == HeaderAt(p, block) / 2
  {
    var half := HeaderAt(p, block) / 2;
    MulAtLeastTwice(half, headerSize);
  }

  /** `half * k >= 2 * half` for `k >= 2`. */
  lemma MulAtLeastTwice(half: nat, k: nat)
    requires 2 <= k
    ensures half * k >= 2 * half
  {
    assert half * k == 2 * half + half * (k - 2);
  }
}
