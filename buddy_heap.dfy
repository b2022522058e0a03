/** The buddy-block heap of alarm-buddy/src/lib.rs as a class whose methods
    update the free lists, the heap size and the block headers in place.
    Offsets are relative to the base of the heap; the free lists hold
    offsets; `headers` holds the `size` field of every block header written
    so far, and the ghost map `free` the order of every free block. The
    frame provider is a frame cache. Each method is specified by the
    value-level function of `BuddyPool` it performs on `State()`.

    The code departs from its own documentation in four places, and this
    class follows the documentation:
      - `alloc` splits a larger block down to the order it needs, from the
        order below the block's down to the needed one (as written, the
        split range `current_order..min_order` is empty);
      - `dealloc` goes one order up after each merge (as written, `order`
        never changes);
      - `dealloc` writes the header with the block size of the layout's
        order (as written, with `layout.size()`);
      - `split` writes the upper half's header `half` bytes past the block
        (as written, `block.offset(size)` counts in header-sized units).
    Module `BuddyAsWritten` shows what each of these does as written. */
module BuddyHeap {
  import opened Results
  import opened Bits
  import opened BuddySizes
  import opened BuddyPool
  import opened FrameCache

  class Heap {
    /** `min_block_size_log2`: the minimum block size is `2^m`. */
    const m: nat
    /** `free_lists`: one free list per order, front first. */
    const freeLists: array<seq<nat>>
    /** `heap_size`: the number of bytes in the heap. */
    var heapSize: nat
    /** The `size` fields of the block headers in memory, by offset. */
    var headers: map<nat, nat>
    /** The order of every free block. */
    ghost var free: map<nat, nat>
    /** `frames`: the frame provider. */
    const frames: Cache<nat>

    /** The free memory as a value. */
    ghost function State(): Pool
      reads this, freeLists
    {
      Pool(m, heapSize, freeLists[..], free, headers)
    }

    ghost predicate Valid()
      reads this, freeLists, frames
    {
      Inv(State()) && frames.Valid()
    }

    /** An empty heap: no free block and a heap size of 0, over the given
        frame provider. */
    constructor (m: nat, orders: nat, frames: Cache<nat>)
      requires ParamsOk(m, orders) && frames.Valid()
      ensures Valid() && fresh(freeLists) && this.frames == frames
      ensures State() == Pool(m, 0, seq(orders, _ => []), map[], map[])
    {
      this.m := m;
      this.frames := frames;
      freeLists := new seq<nat>[orders](_ => []);
      heapSize := 0;
      headers := map[];
      free := map[];
    }

    /** `FreeBlock::from_ptr_size`: writes a header of `size` at `ptr` and
        returns `ptr`. */
    method FromPtrSize(ptr: nat, size: nat) returns (block: nat)
      modifies this
      ensures block == ptr && State() == WriteHeader(old(State()), ptr, size)
    {
      headers := headers[ptr := size];
      block := ptr;
    }

    /** `FreeBlock::split`: halves the size in the header at `block` and
        writes a header of the halved size at `block` plus that size, which
        it returns. */
    method Split(block: nat) returns (split: nat)
      modifies this
      ensures split == block + HeaderAt(old(State()), block) / 2
      ensures State() == Halve(old(State()), block)
    {
      var half := (if block in headers then headers[block] else 0) / 2;
      headers := headers[block := half];
      split := FromPtrSize(block + half, half);
    }

    /** `FreeBlock::merge`: the lower of the two offsets, with a header
        holding the sum of the two sizes. */
    method Merge(a: nat, b: nat) returns (block: nat)
      modifies this
      ensures block == if a < b then a else b
      ensures State() == old(State()).(headers := old(State()).headers[block := HeaderAt(old(State()), a) + HeaderAt(old(State()), b)])
    {
      block := if a < b then a else b;
      var sizeA := if a in headers then headers[a] else 0;
      var sizeB := if b in headers then headers[b] else 0;
      headers := headers[block := sizeA + sizeB];
    }

    /** `find_and_remove` on a cursor over the free list of `order`: takes
        the first occurrence of `buddy` off that list, and reports whether
        there was one; without one nothing changes. */
    method FindAndRemove(order: nat, buddy: nat) returns (found: bool)
      requires order < freeLists.Length
      modifies this, freeLists
      ensures found <==> buddy in old(freeLists[order])
      ensures found ==> State() == old(State()).(lists := old(State()).lists[order := RemoveFirst(old(State()).lists[order], buddy)],
                                                  free := old(State()).free - {buddy})
      ensures !found ==> State() == old(State())
    {
      found := buddy in freeLists[order];
      if found {
        freeLists[order] := RemoveFirst(freeLists[order], buddy);
        free := free - {buddy};
      }
    }

    /** A round of the merge loop of `dealloc`: takes the buddy off the free
        list of the block's order and, if it was there, merges the two. The
        round is a step of `Coalesce`; without the buddy nothing changes. */
    method MergeBuddy(block: nat, order: nat, buddy: nat) returns (found: bool, merged: nat)
      requires order + 1 < freeLists.Length
      requires GetBuddy(m, heapSize, block, order) == Some(buddy)
      modifies this, freeLists
      ensures found <==> buddy in old(freeLists[order])
      ensures !found ==> State() == old(State())
      ensures found ==>
                && merged == (if block < buddy then block else buddy)
                && Coalesce(State(), merged, order + 1) == Coalesce(old(State()), block, order)
    {
      found := FindAndRemove(order, buddy);
      merged := block;
      if found {
        ghost var taken := State();
        merged := Merge(block, buddy);
        MergeRound(old(State()), block, order, buddy, taken, merged, State());
      }
    }

    /** `push_block_order`: puts `block` at the front of the free list of
        `order`. */
    method PushBlockOrder(block: nat, order: nat)
      requires order < freeLists.Length
      modifies this, freeLists
      ensures State() == PushOrder(old(State()), block, order)
    {
      freeLists[order] := [block] + freeLists[order];
      free := free[block := order];
    }

    /** `push_block`: puts `block` on the free list of the order its header
        gives. The source's `usize` subtraction in `order_from_size` and its
        indexing of `free_lists` need the size to lie between the minimum
        block size and the largest order. */
    method PushBlock(block: nat)
      requires Pow2(m) <= HeaderAt(State(), block)
      requires OrderFromSize(m, HeaderAt(State(), block)) < freeLists.Length
      modifies this, freeLists
      ensures State() == PushOrder(old(State()), block, OrderFromSize(m, HeaderAt(old(State()), block)))
    {
      var order := OrderFromSize(m, if block in headers then headers[block] else 0);
      PushBlockOrder(block, order);
    }

    /** `refill`: takes a frame from the provider and adds it to the heap as
        one free block at the end of the heap. When the provider has no
        frame its error is returned and nothing else changes. */
    method Refill() returns (r: Result<(), BuddyErr>)
      requires Valid()
      modifies this, freeLists, frames.slots
      ensures Valid()
      ensures FirstFull(old(frames.slots[..])) == SLOTS ==>
                && r == Failure(FrameErr(Exhausted(Layout(FRAME_SIZE, FRAME_SIZE))))
                && State() == old(State()) && frames.slots[..] == old(frames.slots[..])
      ensures FirstFull(old(frames.slots[..])) < SLOTS ==>
                && r == Success(())
                && State() == Refilled(old(State()))
                && |Frames(frames.slots[..])| + 1 == |Frames(old(frames.slots[..]))|
    {
      var frame := frames.Alloc();
      if frame.Failure? {
        return Failure(FrameErr(frame.error));
      }
      var block := FromPtrSize(heapSize, FRAME_SIZE);
      ghost var written := State();
      ghost var frameOrder := FrameOrder(m);
      PushBlock(block);
      ghost var pushed := State();
      heapSize := heapSize + FRAME_SIZE;
      RefillSteps(old(State()), written, pushed, State());
      return Success(());
    }

    /** `Alloc::alloc`: a layout `block_order` refuses is refused with
        nothing changed. Otherwise the front block of the lowest non-empty
        free list from the layout's order up is taken and split down to that
        order, each upper half going on the free list of its order; with no
        such block the heap is refilled, and the request retried, until the
        provider runs out of frames. The result and the new free memory are
        `AllocOutcome` of the old free memory and the number of frames the
        provider holds. A block handed out is owned, aligned to its order
        and overlaps no free block; every block owned before the call stays
        owned, and the new block overlaps none of them. */
    method Alloc(layout: Layout) returns (r: Result<nat, BuddyErr>)
      requires Valid()
      modifies this, freeLists, frames.slots
      ensures Valid()
      ensures (r, State()) == AllocOutcome(old(State()), layout, |Frames(old(frames.slots[..]))|)
      ensures BlockOrder(m, old(heapSize), layout).Failure? ==>
                && r == Failure(InvalidLayout)
                && State() == old(State()) && frames.slots[..] == old(frames.slots[..])
      ensures var mo := BlockOrder(m, old(heapSize), layout);
              var c := if mo.Success? then FirstNonEmpty(old(freeLists[..]), mo.value) else 0;
              mo.Success? && c < freeLists.Length ==>
                && r == Success(old(freeLists[c][0]))
                && State() == SplitFrom(PopFront(old(State()), c), old(freeLists[c][0]), c, mo.value)
                && frames.slots[..] == old(frames.slots[..])
      ensures var mo := BlockOrder(m, old(heapSize), layout);
              mo.Success? && FirstNonEmpty(old(freeLists[..]), mo.value) >= freeLists.Length
              && FirstFull(old(frames.slots[..])) == SLOTS ==>
                && r == Failure(FrameErr(Exhausted(Layout(FRAME_SIZE, FRAME_SIZE))))
                && State() == old(State())
      ensures r.Success? ==>
                && BlockOrder(m, heapSize, layout).Success?
                && BlockOrder(m, heapSize, layout).value < freeLists.Length
                && Held(State(), r.value, BlockOrder(m, heapSize, layout).value)
      ensures KeepsOwned(old(State()), State())
      ensures r.Success? ==>
                ApartFromOwned(old(State()), r.value, OrderSize(m, BlockOrder(m, old(heapSize), layout).value))
      decreases |Frames(frames.slots[..])|
    {
      ghost var start, k0 := State(), |Frames(frames.slots[..])|;
      var mo := BlockOrder(m, heapSize, layout);
      if mo.Failure? {
        r := Failure(mo.error);
      } else {
        var taken := TakeFree(mo.value);
        if taken.Some? {
          r := Success(taken.value);
        } else {
          FramesCount(frames.slots[..]);
          var refilled := Refill();
          if refilled.Failure? {
            SearchExhausted(start, mo.value);
            r := Failure(refilled.error);
          } else {
            AllocRetries(start, layout, k0);
            r := Alloc(layout);
          }
        }
      }
      AllocKeepsAllOwned(start, layout, k0);
    }

    /** The search loop of `alloc`: pops the front block of the lowest
        non-empty free list from order `minOrder` up and splits it down to
        `minOrder`. With every such list empty there is no block and nothing
        changes. */
    method TakeFree(minOrder: nat) returns (r: Option<nat>)
      requires Inv(State())
      modifies this, freeLists
      ensures var c := FirstNonEmpty(old(freeLists[..]), minOrder);
              c >= freeLists.Length ==> r == None && State() == old(State())
      ensures var c := FirstNonEmpty(old(freeLists[..]), minOrder);
              c < freeLists.Length ==>
                && r == Some(old(freeLists[c][0]))
                && State() == SplitFrom(PopFront(old(State()), c), old(freeLists[c][0]), c, minOrder)
      ensures Inv(State())
      ensures r.Some? ==> minOrder < freeLists.Length && Held(State(), r.value, minOrder)
    {
      ghost var start := State();
      var current := minOrder;
      while current < freeLists.Length
        invariant minOrder <= current && (current > freeLists.Length ==> current == minOrder)
        invariant forall o :: minOrder <= o < current && o < freeLists.Length ==> freeLists[o] == []
        invariant State() == start
      {
        var popped := PopFrontNode(current);
        if popped.Some? {
          FoundFirst(start, minOrder, current);
          PoolsAgree(PopFront(start, current), State(), popped.value, current);
          SplitDown(popped.value, current, minOrder);
          return popped;
        }
        current := current + 1;
      }
      FirstNonEmptyAt(freeLists[..], minOrder, current);
      return None;
    }

    /** `pop_front_node` on the free list of order `c`: the front block,
        taken off the list, or nothing when the list is empty. */
    method PopFrontNode(c: nat) returns (r: Option<nat>)
      requires c < freeLists.Length
      modifies this, freeLists
      ensures old(freeLists[c]) == [] ==> r == None && State() == old(State())
      ensures old(freeLists[c]) != [] ==> r == Some(old(freeLists[c][0])) && State() == PopFront(old(State()), c)
    {
      if freeLists[c] == [] {
        return None;
      }
      var block := freeLists[c][0];
      freeLists[c] := freeLists[c][1..];
      free := free - {block};
      r := Some(block);
    }

    /** The split loop of `alloc`: splits the block of order `hi` down to
        order `lo`, pushing each upper half on the free list of its order,
        from order `hi - 1` down. The block stays held, now of order `lo`. */
    method SplitDown(block: nat, hi: nat, lo: nat)
      requires Inv(State()) && lo <= hi < freeLists.Length && Held(State(), block, hi)
      modifies this, freeLists
      ensures State() == SplitFrom(old(State()), block, hi, lo)
      ensures Inv(State()) && Held(State(), block, lo)
    {
      ghost var start := State();
      var o := hi;
      while o > lo
        invariant lo <= o <= hi
        invariant State() == SplitFrom(start, block, hi, o)
      {
        var splitOrder := o - 1;
        ghost var before := State();
        var split := Split(block);
        ghost var mid := State();
        PushBlockOrder(split, splitOrder);
        SplitRound(start, block, hi, o, before, mid, split, State());
        o := splitOrder;
      }
      SplitFromKeeps(start, block, hi, lo);
      PoolsAgree(SplitFrom(start, block, hi, lo), State(), block, lo);
    }

    /** `Alloc::dealloc`: a layout `block_order` refuses is refused with
        nothing changed (the source panics). Otherwise the block at `ptr`
        gets a header of its order's size and is merged with its buddy for
        as long as the buddy is on the free list of the block's order,
        going one order up each time, and the merged block is pushed on the
        free list of its order. The caller gives back a block that `alloc`
        handed out for this layout: owned, of the layout's order. Every
        other owned block that does not overlap it stays owned. */
    method Dealloc(ptr: nat, layout: Layout) returns (r: Result<(), BuddyErr>)
      requires Valid()
      requires BlockOrder(m, heapSize, layout).Success? ==>
                 && BlockOrder(m, heapSize, layout).value < freeLists.Length
                 && Owned(State(), ptr, BlockOrder(m, heapSize, layout).value)
      modifies this, freeLists
      ensures Valid()
      ensures BlockOrder(m, old(heapSize), layout).Failure? ==>
                r == Failure(InvalidLayout) && State() == old(State())
      ensures BlockOrder(m, old(heapSize), layout).Success? ==>
                && r == Success(())
                && State() == Freed(old(State()), ptr, BlockOrder(m, old(heapSize), layout).value)
      ensures BlockOrder(m, old(heapSize), layout).Success? ==>
                forall x, o ::
                  && Owned(old(State()), x, o)
                  && Disjoint(ptr, OrderSize(m, BlockOrder(m, old(heapSize), layout).value), x, OrderSize(m, o))
                  ==> Owned(State(), x, o)
    {
      var mo := BlockOrder(m, heapSize, layout);
      if mo.Failure? {
        return Failure(mo.error);
      }
      ghost var start := State();
      forall x, o | Owned(start, x, o) && Disjoint(ptr, OrderSize(m, mo.value), x, OrderSize(m, o))
        ensures Owned(Freed(start, ptr, mo.value), x, o)
      {
        FreedKeepsOwned(start, ptr, mo.value, x, o);
      }
      var order := mo.value;
      var block := FromPtrSize(ptr, OrderSize(m, order));
      block, order := MergeUp(block, order);
      PushBlockOrder(block, order);
      FreedKeeps(old(State()), ptr, mo.value);
      PoolsAgree(Freed(old(State()), ptr, mo.value), State(), block, order);
      return Success(());
    }

    /** The merge loop of `dealloc`: while the block's buddy is on the free
        list of the block's order, merges the two and goes one order up;
        it stops at the highest order. This is `Coalesce`. */
    method MergeUp(block: nat, order: nat) returns (merged: nat, top: nat)
      requires order < freeLists.Length
      modifies this, freeLists
      ensures (State(), merged, top) == Coalesce(old(State()), block, order)
      ensures top < freeLists.Length
    {
      ghost var start := State();
      ghost var target := Coalesce(start, block, order);
      merged, top := block, order;
      while true
        invariant order <= top < freeLists.Length
        invariant Coalesce(State(), merged, top) == target
        decreases freeLists.Length - top
      {
        if top + 1 == freeLists.Length {
          CoalesceStops(State(), merged, top);
          break;
        }
        var buddy := GetBuddy(m, heapSize, merged, top);
        if buddy.None? {
          CoalesceStops(State(), merged, top);
          break;
        }
        var found, next := MergeBuddy(merged, top, buddy.value);
        if !found {
          CoalesceStops(State(), merged, top);
          break;
        }
        merged, top := next, top + 1;
      }
    }
  }
}
