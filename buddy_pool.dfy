/** The free memory of a buddy heap as values: the free lists, one per
    order, of block offsets; the heap size; the block headers written in
    memory; and, as bookkeeping, the order of every free block. `Inv` is
    what the allocator keeps true between calls, and each step of
    alarm-buddy/src/lib.rs that changes the free memory is a function here
    with a lemma saying it keeps `Inv`. */
module BuddyPool {
  import opened Results
  import opened Bits
  import opened BuddySizes
  import opened FrameCache

  /** `m` is the heap's `min_block_size_log2`, `lists[o]` the free list of
      order `o` from front to back, `free` maps every free block to its
      order, and `headers` holds the `size` field of each block header
      written so far. */
  datatype Pool = Pool(m: nat, heapSize: nat, lists: seq<seq<nat>>, free: map<nat, nat>, headers: map<nat, nat>)

  /** The `size` field of the header at `b`; memory never written as a
      header reads as 0 here. */
  function HeaderAt(p: Pool, b: nat): nat
  {
    if b in p.headers then p.headers[b] else 0
  }

  /** The parameters the allocator needs: a minimum block no larger than a
      frame, and a free list for the order of a whole frame. */
  predicate ParamsOk(m: nat, orders: nat)
  {
    m <= FRAME_LOG2 && FRAME_LOG2 - m < orders
  }

  /** The order of a block as large as a frame, which `order_from_size`
      gives for a frame once a frame holds a minimum-size block. */
  function FrameOrder(m: nat): (o: nat)
    requires m <= FRAME_LOG2
    ensures o == FRAME_LOG2 - m && OrderSize(m, o) == FRAME_SIZE
    ensures Pow2(m) <= FRAME_SIZE && OrderFromSize(m, FRAME_SIZE) == o
  {
    Pow2Monotonic(m, FRAME_LOG2);
    OrderFromSizeInverse(m, FRAME_LOG2 - m);
    OrderFromSize(m, FRAME_SIZE)
  }

  /** `[a, a + sa)` and `[b, b + sb)` do not overlap. */
  predicate Disjoint(a: nat, sa: nat, b: nat, sb: nat)
  {
    a + sa <= b || b + sb <= a
  }

  /** No offset occurs twice in a free list. */
  ghost predicate NoDup(s: seq<nat>)
  {
    forall i, j :: 0 <= i < j < |s| ==> s[i] != s[j]
  }

  /** The free lists hold exactly the free blocks, each once, on the list
      of its order. */
  ghost predicate Listed(p: Pool)
  {
    && (forall o, i :: 0 <= o < |p.lists| && 0 <= i < |p.lists[o]| ==>
          p.lists[o][i] in p.free && p.free[p.lists[o][i]] == o)
    && (forall b :: b in p.free ==> p.free[b] < |p.lists| && b in p.lists[p.free[b]])
    && (forall o :: 0 <= o < |p.lists| ==> NoDup(p.lists[o]))
  }

  /** A block of order `o` at `b` is aligned to its size, lies in the heap
      and carries a header holding its size. */
  ghost predicate Placed(p: Pool, b: nat, o: nat)
  {
    && b % OrderSize(p.m, o) == 0
    && b + OrderSize(p.m, o) <= p.heapSize
    && HeaderAt(p, b) == OrderSize(p.m, o)
  }

  /** What the allocator keeps true: every block on the free list of order
      `o` has the size of that order, is aligned to it and lies in the heap,
      and no two free blocks overlap. */
  ghost predicate Inv(p: Pool)
  {
    && ParamsOk(p.m, |p.lists|)
    && p.heapSize % FRAME_SIZE == 0
    && Listed(p)
    && (forall b :: b in p.free ==> Placed(p, b, p.free[b]))
    && (forall b, c :: b in p.free && c in p.free && b != c ==>
          Disjoint(b, OrderSize(p.m, p.free[b]), c, OrderSize(p.m, p.free[c])))
  }

  /** A block of order `o` at `block` that is not free: aligned to its size,
      in the heap and overlapping no free block. A block handed out by
      `alloc`, and one given back to `dealloc`, is one of these. */
  ghost predicate Owned(p: Pool, block: nat, o: nat)
  {
    && block % OrderSize(p.m, o) == 0
    && block + OrderSize(p.m, o) <= p.heapSize
    && (forall b :: b in p.free ==> Disjoint(b, OrderSize(p.m, p.free[b]), block, OrderSize(p.m, o)))
  }

  /** An owned block whose header holds its size. */
  ghost predicate Held(p: Pool, block: nat, o: nat)
  {
    Owned(p, block, o) && HeaderAt(p, block) == OrderSize(p.m, o)
  }

  /** `FreeBlock::from_ptr_size`: writes a header of the given size at
      `block`. */
  function WriteHeader(p: Pool, block: nat, size: nat): (q: Pool)
    ensures HeaderAt(q, block) == size
    ensures forall b :: b != block ==> HeaderAt(q, b) == HeaderAt(p, b)
  {
    p.(headers := p.headers[block := size])
  }

  /** `push_block_order`: puts `block` at the front of the free list of
      order `o`. */
  function PushOrder(p: Pool, block: nat, o: nat): (q: Pool)
    requires o < |p.lists|
    ensures q.m == p.m && q.heapSize == p.heapSize && |q.lists| == |p.lists|
    ensures q.lists[o] == [block] + p.lists[o]
    ensures forall k :: 0 <= k < |p.lists| && k != o ==> q.lists[k] == p.lists[k]
  {
    p.(lists := p.lists[o := [block] + p.lists[o]], free := p.free[block := o])
  }

  /** `pop_front_node` on the free list of order `c`: takes its front
      block off. */
  function PopFront(p: Pool, c: nat): (q: Pool)
    requires c < |p.lists| && p.lists[c] != []
    ensures q.m == p.m && q.heapSize == p.heapSize && |q.lists| == |p.lists|
    ensures q.lists[c] == p.lists[c][1..]
    ensures forall k :: 0 <= k < |p.lists| && k != c ==> q.lists[k] == p.lists[k]
  {
    p.(lists := p.lists[c := p.lists[c][1..]], free := p.free - {p.lists[c][0]})
  }

  /** `FreeBlock::split` followed by `push_block_order(split, o)`: halves
      the size in the header at `block`, writes a header of the halved size
      at `block` plus that size, and puts that upper half on the free list
      of order `o`. */
  function SplitOff(p: Pool, block: nat, o: nat): (q: Pool)
    requires o < |p.lists|
  {
    PushOrder(Halve(p, block), block + HeaderAt(p, block) / 2, o)
  }

  /** `FreeBlock::split`: halves the size in the header at `block` and
      writes a header of the halved size at `block` plus that size. */
  function Halve(p: Pool, block: nat): (q: Pool)
  {
    var half := HeaderAt(p, block) / 2;
    WriteHeader(WriteHeader(p, block, half), block + half, half)
  }

  /** The split loop of `alloc` on a block taken from the free list of
      order `hi`: splits it at each order from `hi - 1` down to `lo`. */
  function SplitFrom(p: Pool, block: nat, hi: nat, lo: nat): (q: Pool)
    requires lo <= hi <= |p.lists|
    ensures q.m == p.m && q.heapSize == p.heapSize && |q.lists| == |p.lists|
    decreases hi - lo
  {
    if lo == hi then p else SplitOff(SplitFrom(p, block, hi, lo + 1), block, lo)
  }

  /** A round of the split loop, `FreeBlock::split` and then pushing the
      upper half on the free list of order `k - 1`, takes the loop from
      order `k` to order `k - 1`. */
  lemma SplitRound(p: Pool, block: nat, hi: nat, k: nat, before: Pool, mid: Pool, split: nat, q: Pool)
    requires 0 < k <= hi <= |p.lists| && before == SplitFrom(p, block, hi, k)
    requires mid == Halve(before, block) && split == block + HeaderAt(before, block) / 2
    requires k - 1 < |mid.lists| && q == PushOrder(mid, split, k - 1)
    ensures q == SplitFrom(p, block, hi, k - 1)
  {
  }

  /** The position of the first occurrence of `x` in `s`, or `|s|` when
      there is none. */
  function IndexOf(s: seq<nat>, x: nat): (i: nat)
    ensures i <= |s|
    ensures i < |s| ==> s[i] == x
    ensures forall k :: 0 <= k < i ==> s[k] != x
  {
    if s == [] then 0 else if s[0] == x then 0 else 1 + IndexOf(s[1..], x)
  }

  /** The free list with the first occurrence of `x` taken out, as
      `remove_first_node` with an equality test leaves it. */
  function RemoveFirst(s: seq<nat>, x: nat): seq<nat>
  {
    var i := IndexOf(s, x);
    if i == |s| then s else s[..i] + s[i + 1..]
  }

  /** Taking the only occurrence of `x` out of a list without duplicates
      leaves exactly the other elements, still without duplicates. */
  lemma RemoveFirstElements(s: seq<nat>, x: nat)
    requires NoDup(s) && x in s
    ensures forall y :: y in RemoveFirst(s, x) <==> y in s && y != x
    ensures NoDup(RemoveFirst(s, x))
  {
    var i := IndexOf(s, x);
    var r := RemoveFirst(s, x);
    assert |r| == |s| - 1;
    assert forall k :: 0 <= k < |r| ==> r[k] == if k < i then s[k] else s[k + 1];
    forall y | y in s && y != x
      ensures y in r
    {
      var k :| 0 <= k < |s| && s[k] == y;
      if k < i {
        assert r[k] == y;
      } else {
        assert k != i;
        assert r[k - 1] == y;
      }
    }
  }

  /** One round of the merge loop of `dealloc`: takes `buddy` off the free
      list of order `o` and merges it with `block` by `FreeBlock::merge`,
      which keeps the lower of the two addresses and gives it a header
      holding the sum of the two sizes. */
  function MergeWith(p: Pool, block: nat, buddy: nat, o: nat): (q: Pool)
    requires o < |p.lists|
  {
    var low := if block < buddy then block else buddy;
    p.(lists := p.lists[o := RemoveFirst(p.lists[o], buddy)],
       free := p.free - {buddy},
       headers := p.headers[low := HeaderAt(p, block) + HeaderAt(p, buddy)])
  }

  /** The merge loop of `dealloc`: while the block's buddy is on the free
      list of the block's order, takes it off, merges and goes one order
      up. It stops at the highest order, whose blocks have no list above
      them. The result is the pool, the merged block and its order. */
  function Coalesce(p: Pool, block: nat, o: nat): (r: (Pool, nat, nat))
    requires o < |p.lists|
    ensures r.0.m == p.m && |r.0.lists| == |p.lists| && o <= r.2 < |p.lists|
    decreases |p.lists| - o
  {
    if o + 1 == |p.lists| then (p, block, o)
    else
      match GetBuddy(p.m, p.heapSize, block, o)
      case None => (p, block, o)
      case Some(buddy) =>
        if buddy in p.lists[o] then
          Coalesce(MergeWith(p, block, buddy, o), if block < buddy then block else buddy, o + 1)
        else (p, block, o)
  }

  /** `refill`: writes a frame-sized header at the end of the heap, puts
      that block on the free list of the frame's order (`FrameOrder(p.m)`,
      which is `FRAME_LOG2 - p.m`) and grows the heap by a frame.
      `RefillSteps` shows this is `WriteHeader`, then `PushOrder`, then the
      growth. */
  function Refilled(p: Pool): (q: Pool)
    requires ParamsOk(p.m, |p.lists|)
    ensures q.m == p.m && |q.lists| == |p.lists| && q.heapSize == p.heapSize + FRAME_SIZE
  {
    var h, o := p.heapSize, FRAME_LOG2 - p.m;
    p.(lists := p.lists[o := [h] + p.lists[o]], free := p.free[h := o],
       headers := p.headers[h := FRAME_SIZE], heapSize := h + FRAME_SIZE)
  }

  /** The block of order `o + 1` is twice as large as that of order `o`. */
  lemma OrderSizeNext(m: nat, o: nat)
    ensures OrderSize(m, o + 1) == 2 * OrderSize(m, o)
  {
  }

  /** The lower half of a block is aligned to the order below, and so is
      the upper half. */
  lemma HalvesPlaced(m: nat, block: nat, o: nat)
    requires block % OrderSize(m, o + 1) == 0
    ensures block % OrderSize(m, o) == 0 && (block + OrderSize(m, o)) % OrderSize(m, o) == 0
  {
    HalvesAligned(block, m + o);
  }

  /** Adding the divisor to a multiple gives a multiple. */
  lemma AddMultiple(h: nat, d: nat)
    requires d > 0 && h % d == 0
    ensures (h + d) % d == 0
  {
    var q := h / d;
    DivModUnique(h + d, d, q + 1, 0);
  }

  /** Taking the front block off a free list keeps the lists and the order
      map in agreement. */
  lemma PopListed(p: Pool, c: nat)
    requires Listed(p) && c < |p.lists| && p.lists[c] != []
    ensures Listed(PopFront(p, c))
  {
    var q := PopFront(p, c);
    forall o, i | 0 <= o < |q.lists| && 0 <= i < |q.lists[o]|
      ensures q.lists[o][i] in q.free && q.free[q.lists[o][i]] == o
    {
      if o == c {
        assert q.lists[o][i] == p.lists[c][i + 1];
        assert NoDup(p.lists[c]);
      }
      assert q.lists[o][i] in p.free && p.free[q.lists[o][i]] == o;
    }
    forall b | b in q.free
      ensures q.free[b] < |q.lists| && b in q.lists[q.free[b]]
    {
      var o := p.free[b];
      assert b in p.lists[o];
      if o == c {
        var i :| 0 <= i < |p.lists[c]| && p.lists[c][i] == b;
        assert i != 0;
        assert q.lists[c][i - 1] == b;
      }
    }
    forall o | 0 <= o < |q.lists|
      ensures NoDup(q.lists[o])
    {
      assert NoDup(p.lists[o]);
    }
  }

  /** Taking the front block of a non-empty free list keeps the invariant
      and hands out that block, which is now owned and carries its header. */
  lemma PopKeeps(p: Pool, c: nat)
    requires Inv(p) && c < |p.lists| && p.lists[c] != []
    ensures Inv(PopFront(p, c))
    ensures Held(PopFront(p, c), p.lists[c][0], c)
  {
    var q := PopFront(p, c);
    var x := p.lists[c][0];
    assert x in p.free && p.free[x] == c;
    PopListed(p, c);
    forall b | b in q.free
      ensures Placed(q, b, q.free[b])
    {
      assert Placed(p, b, p.free[b]);
    }
    assert Placed(p, x, c);
    forall b | b in q.free
      ensures Disjoint(b, OrderSize(q.m, q.free[b]), x, OrderSize(q.m, c))
    {
      assert b != x;
    }
  }

  /** Putting a block that is not free at the front of a free list keeps
      the lists and the order map in agreement. */
  lemma PushListed(p: Pool, block: nat, o: nat)
    requires Listed(p) && o < |p.lists| && block !in p.free
    ensures Listed(PushOrder(p, block, o))
  {
    var q := PushOrder(p, block, o);
    forall k, i | 0 <= k < |q.lists| && 0 <= i < |q.lists[k]|
      ensures q.lists[k][i] in q.free && q.free[q.lists[k][i]] == k
    {
      if k == o && i > 0 {
        assert q.lists[k][i] == p.lists[k][i - 1];
      }
    }
    forall b | b in q.free
      ensures q.free[b] < |q.lists| && b in q.lists[q.free[b]]
    {
      if b != block {
        var k := p.free[b];
        assert b in p.lists[k];
        if k == o {
          var i :| 0 <= i < |p.lists[k]| && p.lists[k][i] == b;
          assert q.lists[k][i + 1] == b;
        }
      } else {
        assert q.lists[o][0] == block;
      }
    }
    forall k | 0 <= k < |q.lists|
      ensures NoDup(q.lists[k])
    {
      assert NoDup(p.lists[k]);
      if k == o {
        forall i, j | 0 <= i < j < |q.lists[k]|
          ensures q.lists[k][i] != q.lists[k][j]
        {
          if i == 0 {
            assert q.lists[k][j] == p.lists[k][j - 1];
            assert p.lists[k][j - 1] in p.free;
          }
        }
      }
    }
  }

  /** Putting an owned block with its header on the free list of its order
      keeps the invariant. */
  lemma PushKeeps(p: Pool, block: nat, o: nat)
    requires Inv(p) && o < |p.lists| && Held(p, block, o)
    ensures Inv(PushOrder(p, block, o))
  {
    var q := PushOrder(p, block, o);
    forall b | b in p.free
      ensures b != block
    {
      assert Disjoint(b, OrderSize(p.m, p.free[b]), block, OrderSize(p.m, o));
    }
    PushListed(p, block, o);
    forall b | b in q.free
      ensures Placed(q, b, q.free[b])
    {
      if b != block {
        assert Placed(p, b, p.free[b]);
      }
    }
    forall b, c | b in q.free && c in q.free && b != c
      ensures Disjoint(b, OrderSize(q.m, q.free[b]), c, OrderSize(q.m, q.free[c]))
    {
      if b == block {
        assert Disjoint(c, OrderSize(p.m, p.free[c]), block, OrderSize(p.m, o));
      } else if c == block {
        assert Disjoint(b, OrderSize(p.m, p.free[b]), block, OrderSize(p.m, o));
      }
    }
  }

  /** Writing the header of an owned block keeps the invariant, since no
      free block starts there, and makes the block held. */
  lemma HeaderKeeps(p: Pool, block: nat, o: nat)
    requires Inv(p) && Owned(p, block, o)
    ensures Inv(WriteHeader(p, block, OrderSize(p.m, o)))
    ensures Held(WriteHeader(p, block, OrderSize(p.m, o)), block, o)
  {
    var q := WriteHeader(p, block, OrderSize(p.m, o));
    forall b | b in q.free
      ensures Placed(q, b, q.free[b])
    {
      assert Disjoint(b, OrderSize(p.m, p.free[b]), block, OrderSize(p.m, o));
      assert Placed(p, b, p.free[b]);
    }
    assert Listed(q) by {
      assert q.lists == p.lists && q.free == p.free;
    }
  }

  /** Growing the heap by a frame keeps the invariant, and the new frame at
      the old end of the heap is owned: aligned because the heap is a whole
      number of frames, and overlapping nothing because every free block
      ends inside the old heap. */
  lemma GrowKeeps(p: Pool)
    requires Inv(p)
    ensures Inv(p.(heapSize := p.heapSize + FRAME_SIZE))
    ensures Owned(p.(heapSize := p.heapSize + FRAME_SIZE), p.heapSize, FrameOrder(p.m))
  {
    GrowInv(p, p.(heapSize := p.heapSize + FRAME_SIZE));
    FrameOwned(p);
  }

  /** The invariant part of `GrowKeeps`: the free blocks stay placed in the
      larger heap, whose size stays a whole number of frames. */
  lemma GrowInv(p: Pool, p2: Pool)
    requires Inv(p) && p2 == p.(heapSize := p.heapSize + FRAME_SIZE)
    ensures Inv(p2)
  {
    assert p2.m == p.m && p2.lists == p.lists && p2.free == p.free;
    forall b | b in p2.free
      ensures Placed(p2, b, p2.free[b])
    {
      assert Placed(p, b, p.free[b]);
    }
    assert Listed(p2);
    assert p2.heapSize % FRAME_SIZE == 0 by {
      AddMultiple(p.heapSize, FRAME_SIZE);
    }
  }

  /** The frame added at the old end of the heap is owned once the heap
      has grown by it. */
  lemma FrameOwned(p: Pool)
    requires Inv(p)
    ensures Owned(p.(heapSize := p.heapSize + FRAME_SIZE), p.heapSize, FrameOrder(p.m))
  {
    var h := p.heapSize;
    var p2 := p.(heapSize := h + FRAME_SIZE);
    var o := FrameOrder(p.m);
    assert OrderSize(p2.m, o) == FRAME_SIZE;
    AddMultiple(h, FRAME_SIZE);
    forall b | b in p2.free
      ensures Disjoint(b, OrderSize(p2.m, p2.free[b]), h, OrderSize(p2.m, o))
    {
      assert Placed(p, b, p.free[b]);
    }
  }

  /** Refilling keeps the invariant. */
  lemma RefillKeeps(p: Pool)
    requires Inv(p)
    ensures Inv(Refilled(p))
  {
    var h := p.heapSize;
    var o := FrameOrder(p.m);
    var p2 := p.(heapSize := h + FRAME_SIZE);
    GrowKeeps(p);
    HeaderKeeps(p2, h, o);
    PushKeeps(WriteHeader(p2, h, FRAME_SIZE), h, o);
    assert Refilled(p) == PushOrder(WriteHeader(p2, h, FRAME_SIZE), h, o);
  }

  /** The steps of `refill`, `FreeBlock::from_ptr_size` on a frame-sized
      block at the end of the heap, `push_block` and growing the heap size,
      give `Refilled` and keep the invariant. */
  lemma RefillSteps(p: Pool, written: Pool, pushed: Pool, q: Pool)
    requires Inv(p)
    requires written == WriteHeader(p, p.heapSize, FRAME_SIZE)
    requires FrameOrder(p.m) < |written.lists|
    requires pushed == PushOrder(written, p.heapSize, FrameOrder(p.m))
    requires q == pushed.(heapSize := p.heapSize + FRAME_SIZE)
    ensures q == Refilled(p) && Inv(q)
  {
    RefillKeeps(p);
  }

  /** Both halves of an owned block are owned blocks of the order below:
      the lower half at the block's own offset, the upper half right after
      it. */
  lemma HalvesOwned(p: Pool, block: nat, o: nat)
    requires Owned(p, block, o + 1)
    ensures Owned(p, block, o) && Owned(p, block + OrderSize(p.m, o), o)
  {
    OrderSizeNext(p.m, o);
    HalvesPlaced(p.m, block, o);
  }

  /** Splitting an owned block of order `o + 1` whose header holds its size
      keeps the invariant: the upper half goes on the free list of order
      `o`, and the lower half stays owned with a header of half the size. */
  lemma SplitOffKeeps(p: Pool, block: nat, o: nat)
    requires Inv(p) && o < |p.lists| && Held(p, block, o + 1)
    ensures Inv(SplitOff(p, block, o)) && Held(SplitOff(p, block, o), block, o)
  {
    var half := HeaderAt(p, block) / 2;
    OrderSizeNext(p.m, o);
    assert half == OrderSize(p.m, o);
    HalvesOwned(p, block, o);
    HeaderKeeps(p, block, o);
    var p1 := WriteHeader(p, block, half);
    var s := block + half;
    assert Owned(p1, s, o) by {
      assert p1.free == p.free && p1.heapSize == p.heapSize;
    }
    HeaderKeeps(p1, s, o);
    var p2 := WriteHeader(p1, s, half);
    WriteKeepsHeld(p1, s, half, block, o);
    PushKeeps(p2, s, o);
    PushKeepsHeld(p2, s, o, block, o);
    SplitOffSteps(p, block, o);
    PoolsAgree(SplitOff(p, block, o), PushOrder(p2, s, o), block, o);
  }

  /** Writing a header somewhere else leaves a held block held. */
  lemma WriteKeepsHeld(p: Pool, x: nat, size: nat, block: nat, o: nat)
    requires Held(p, block, o) && x != block
    ensures Held(WriteHeader(p, x, size), block, o)
  {
    var q := WriteHeader(p, x, size);
    assert q.free == p.free && q.heapSize == p.heapSize && q.m == p.m;
  }

  /** Freeing a block that does not overlap a held block leaves that block
      held. */
  lemma PushKeepsHeld(p: Pool, s: nat, o: nat, block: nat, ob: nat)
    requires o < |p.lists| && Held(p, block, ob)
    requires Disjoint(s, OrderSize(p.m, o), block, OrderSize(p.m, ob))
    ensures Held(PushOrder(p, s, o), block, ob)
  {
  }

  /** `SplitOff` as its three steps. */
  lemma SplitOffSteps(p: Pool, block: nat, o: nat)
    requires o < |p.lists|
    ensures var half := HeaderAt(p, block) / 2;
            SplitOff(p, block, o) == PushOrder(WriteHeader(WriteHeader(p, block, half), block + half, half), block + half, o)
  {
  }

  /** Equal pools agree on the invariant and on which blocks are held;
      stated once so that a proof moves both across an equation in one
      step. */
  lemma PoolsAgree(x: Pool, y: Pool, block: nat, o: nat)
    requires x == y
    ensures Inv(x) == Inv(y) && Held(x, block, o) == Held(y, block, o)
  {
  }

  /** The whole split loop keeps the invariant and leaves the block owned,
      now of order `lo`, with its header. */
  lemma {:induction false} SplitFromKeeps(p: Pool, block: nat, hi: nat, lo: nat)
    requires Inv(p) && lo <= hi < |p.lists| && Held(p, block, hi)
    ensures Inv(SplitFrom(p, block, hi, lo)) && Held(SplitFrom(p, block, hi, lo), block, lo)
    decreases hi - lo
  {
    if lo < hi {
      SplitFromKeeps(p, block, hi, lo + 1);
      SplitOffKeeps(SplitFrom(p, block, hi, lo + 1), block, lo);
    }
  }

  /** Taking a block off the free list of its order keeps the lists and the
      order map in agreement. */
  lemma RemoveListed(p: Pool, buddy: nat, o: nat, q: Pool)
    requires Listed(p) && o < |p.lists| && buddy in p.lists[o]
    requires q.lists == p.lists[o := RemoveFirst(p.lists[o], buddy)] && q.free == p.free - {buddy}
    ensures Listed(q)
  {
    assert NoDup(p.lists[o]);
    RemoveFirstElements(p.lists[o], buddy);
    var jb :| 0 <= jb < |p.lists[o]| && p.lists[o][jb] == buddy;
    assert p.free[buddy] == o;
    forall k, i | 0 <= k < |q.lists| && 0 <= i < |q.lists[k]|
      ensures q.lists[k][i] in q.free && q.free[q.lists[k][i]] == k
    {
      var y := q.lists[k][i];
      assert y in q.lists[k];
      if k == o {
        assert y in p.lists[o];
      }
      var j :| 0 <= j < |p.lists[k]| && p.lists[k][j] == y;
      assert y in p.free && p.free[y] == k;
    }
    forall b | b in q.free
      ensures q.free[b] < |q.lists| && b in q.lists[q.free[b]]
    {
      assert b in p.lists[p.free[b]];
    }
    forall k | 0 <= k < |q.lists|
      ensures NoDup(q.lists[k])
    {
      assert NoDup(p.lists[k]);
    }
  }

  /** One merge round keeps the invariant: the buddy leaves its free list,
      and the two adjacent halves form an owned block of the next order,
      at the lower of their offsets, with a header holding its size. */
  lemma MergeKeeps(p: Pool, block: nat, o: nat)
    requires Inv(p) && o + 1 < |p.lists| && Held(p, block, o)
    requires GetBuddy(p.m, p.heapSize, block, o).Some?
    requires GetBuddy(p.m, p.heapSize, block, o).value in p.lists[o]
    ensures var buddy := GetBuddy(p.m, p.heapSize, block, o).value;
            var low := if block < buddy then block else buddy;
            Inv(MergeWith(p, block, buddy, o)) && Held(MergeWith(p, block, buddy, o), low, o + 1)
  {
    var buddy := GetBuddy(p.m, p.heapSize, block, o).value;
    var j :| 0 <= j < |p.lists[o]| && p.lists[o][j] == buddy;
    assert buddy in p.free && p.free[buddy] == o;
    MergeInv(p, block, buddy, o);
    MergeHeld(p, block, buddy, o);
  }

  /** The merge loop stops at the highest order, at a block without a
      buddy, and at a block whose buddy is not free. */
  lemma CoalesceStops(p: Pool, block: nat, o: nat)
    requires o < |p.lists|
    requires || o + 1 == |p.lists|
             || GetBuddy(p.m, p.heapSize, block, o).None?
             || GetBuddy(p.m, p.heapSize, block, o).value !in p.lists[o]
    ensures Coalesce(p, block, o) == (p, block, o)
  {
  }

  /** A round of the merge loop of `dealloc`, taking the buddy off its free
      list and then `FreeBlock::merge`, is one step of `Coalesce`: the rest
      of the loop ends where it would have from the round's start. */
  lemma MergeRound(p: Pool, block: nat, o: nat, buddy: nat, taken: Pool, low: nat, q: Pool)
    requires o + 1 < |p.lists|
    requires GetBuddy(p.m, p.heapSize, block, o) == Some(buddy) && buddy in p.lists[o]
    requires taken == p.(lists := p.lists[o := RemoveFirst(p.lists[o], buddy)], free := p.free - {buddy})
    requires low == if block < buddy then block else buddy
    requires q == taken.(headers := taken.headers[low := HeaderAt(taken, block) + HeaderAt(taken, buddy)])
    ensures o + 1 < |q.lists| && Coalesce(q, low, o + 1) == Coalesce(p, block, o)
  {
    assert q == MergeWith(p, block, buddy, o);
  }

  /** The free blocks other than the buddy stay where they were, with
      their headers. */
  lemma MergeInv(p: Pool, block: nat, buddy: nat, o: nat)
    requires Inv(p) && o < |p.lists| && Held(p, block, o)
    requires buddy in p.lists[o] && buddy in p.free && p.free[buddy] == o
    ensures Inv(MergeWith(p, block, buddy, o))
  {
    var size := OrderSize(p.m, o);
    var q := MergeWith(p, block, buddy, o);
    RemoveListed(p, buddy, o, q);
    forall b | b in q.free
      ensures Placed(q, b, q.free[b])
    {
      assert Disjoint(b, OrderSize(p.m, p.free[b]), block, size);
      MergeLeavesOthers(p, block, buddy, o, b);
      assert Placed(p, b, p.free[b]);
    }
  }

  /** The merged block is aligned to its doubled size, lies in the heap,
      overlaps no free block and has a header holding its size. */
  lemma MergeHeld(p: Pool, block: nat, buddy: nat, o: nat)
    requires Inv(p) && o < |p.lists| && Held(p, block, o)
    requires GetBuddy(p.m, p.heapSize, block, o) == Some(buddy)
    requires buddy in p.lists[o] && buddy in p.free && p.free[buddy] == o
    ensures var low := if block < buddy then block else buddy;
            Held(MergeWith(p, block, buddy, o), low, o + 1)
  {
    var size := OrderSize(p.m, o);
    var q := MergeWith(p, block, buddy, o);
    assert Placed(p, buddy, o);
    BuddyIsAdjacent(p.m, p.heapSize, block, o);
    OrderSizeNext(p.m, o);
    forall b | b in q.free
      ensures Disjoint(b, OrderSize(q.m, q.free[b]), if block < buddy then block else buddy, OrderSize(q.m, o + 1))
    {
      UnionDisjoint(b, OrderSize(p.m, p.free[b]), block, buddy, size);
    }
  }

  /** A merge round changes no header but the merged block's. */
  lemma MergeLeavesOthers(p: Pool, block: nat, buddy: nat, o: nat, b: nat)
    requires o < |p.lists| && b != block && b != buddy
    ensures HeaderAt(MergeWith(p, block, buddy, o), b) == HeaderAt(p, b)
  {
  }

  /** A non-empty range that overlaps neither of two adjacent blocks of
      one size overlaps not their union either. */
  lemma UnionDisjoint(b: nat, sb: nat, x: nat, y: nat, size: nat)
    requires sb > 0 && Disjoint(b, sb, x, size) && Disjoint(b, sb, y, size)
    requires x + size == y || y + size == x
    ensures Disjoint(b, sb, if x < y then x else y, 2 * size)
  {
  }

  /** The whole merge loop keeps the invariant; it ends with an owned block
      carrying its header that contains the block it started from. */
  lemma {:induction false} CoalesceKeeps(p: Pool, block: nat, o: nat)
    requires Inv(p) && o < |p.lists| && Held(p, block, o)
    ensures var r := Coalesce(p, block, o);
            && Inv(r.0) && Held(r.0, r.1, r.2)
            && r.1 <= block && block + OrderSize(p.m, o) <= r.1 + OrderSize(p.m, r.2)
    decreases |p.lists| - o
  {
    var g := if o + 1 < |p.lists| then GetBuddy(p.m, p.heapSize, block, o) else None;
    if g.Some? && g.value in p.lists[o] {
      var buddy := g.value;
      var low := if block < buddy then block else buddy;
      MergeKeeps(p, block, o);
      BuddyIsAdjacent(p.m, p.heapSize, block, o);
      OrderSizeNext(p.m, o);
      var q := MergeWith(p, block, buddy, o);
      CoalesceKeeps(q, low, o + 1);
      CoalesceStep(p, block, o, buddy);
    } else {
      CoalesceStops(p, block, o);
    }
  }

  /** The lowest order from `from` on whose free list is not empty, or the
      number of orders when there is none (or `from` itself, if that is
      already past the last order). */
  function FirstNonEmpty(lists: seq<seq<nat>>, from: nat): (c: nat)
    ensures from <= c
    ensures from <= |lists| ==> c <= |lists|
    ensures c < |lists| ==> lists[c] != []
    ensures forall o :: from <= o < c && o < |lists| ==> lists[o] == []
    decreases |lists| - from
  {
    if from >= |lists| then from
    else if lists[from] != [] then from
    else FirstNonEmpty(lists, from + 1)
  }

  /** The first non-empty free list found by a scan from `from` is
      `FirstNonEmpty`. */
  lemma {:induction false} FirstNonEmptyAt(lists: seq<seq<nat>>, from: nat, c: nat)
    requires from <= c && (c < |lists| ==> lists[c] != [])
    requires c >= |lists| ==> c == from || c == |lists|
    requires forall o :: from <= o < c && o < |lists| ==> lists[o] == []
    ensures FirstNonEmpty(lists, from) == c
    decreases c - from
  {
    if from < c {
      FirstNonEmptyAt(lists, from + 1, c);
    }
  }

  /** The search of `alloc` stops at the first non-empty free list from
      `from` up, and popping its front block keeps the invariant and leaves
      that block held at the list's order. */
  lemma FoundFirst(p: Pool, from: nat, c: nat)
    requires Inv(p) && from <= c < |p.lists| && p.lists[c] != []
    requires forall o :: from <= o < c ==> p.lists[o] == []
    ensures FirstNonEmpty(p.lists, from) == c
    ensures Inv(PopFront(p, c)) && Held(PopFront(p, c), p.lists[c][0], c)
  {
    FirstNonEmptyAt(p.lists, from, c);
    PopKeeps(p, c);
  }

  /** What `dealloc` does to the free memory for a block of order `o` at
      `ptr`: writes its header, merges it with free buddies as far as they
      go, and pushes the merged block on the free list of its order. */
  function Freed(p: Pool, ptr: nat, o: nat): (q: Pool)
    requires o < |p.lists|
  {
    var c := Coalesce(WriteHeader(p, ptr, OrderSize(p.m, o)), ptr, o);
    PushOrder(c.0, c.1, c.2)
  }

  /** Freeing an owned block keeps the invariant, and afterwards the whole
      of it lies inside a free block: the merged block, on the free list of
      its order. */
  lemma FreedKeeps(p: Pool, ptr: nat, o: nat)
    requires Inv(p) && o < |p.lists| && Owned(p, ptr, o)
    ensures Inv(Freed(p, ptr, o))
    ensures var c := Coalesce(WriteHeader(p, ptr, OrderSize(p.m, o)), ptr, o);
            && c.1 in Freed(p, ptr, o).free && Freed(p, ptr, o).free[c.1] == c.2
            && c.1 in Freed(p, ptr, o).lists[c.2]
            && c.1 <= ptr && ptr + OrderSize(p.m, o) <= c.1 + OrderSize(p.m, c.2)
  {
    var w := WriteHeader(p, ptr, OrderSize(p.m, o));
    HeaderKeeps(p, ptr, o);
    CoalesceKeeps(w, ptr, o);
    var c := Coalesce(w, ptr, o);
    PushKeeps(c.0, c.1, c.2);
    assert Freed(p, ptr, o).lists[c.2][0] == c.1;
  }

  /** A multiple of a multiple of `e` is a multiple of `e`. */
  lemma MultipleOfMultiple(a: nat, d: nat, e: nat)
    requires d > 0 && e > 0 && a % d == 0 && d % e == 0
    ensures a % e == 0
  {
    var x := a / d;
    var y := d / e;
    assert a == x * d;
    assert d == y * e;
    assert a == (x * y) * e by {
      assert x * d == x * (y * e);
    }
    DivModUnique(a, e, x * y, 0);
  }

  /** A block held at the order `block_order` gives a layout serves that
      layout: its offset is aligned as the layout asks, the requested bytes
      lie in the heap, and they overlap no free block. */
  lemma HeldFitsLayout(p: Pool, block: nat, layout: Layout)
    requires BlockOrder(p.m, p.heapSize, layout).Success?
    requires Held(p, block, BlockOrder(p.m, p.heapSize, layout).value)
    ensures block % layout.align == 0 && block + layout.size <= p.heapSize
    ensures forall b :: b in p.free ==> Disjoint(b, OrderSize(p.m, p.free[b]), block, layout.size)
  {
    var o := BlockOrder(p.m, p.heapSize, layout).value;
    BlockOrderFits(p.m, p.heapSize, layout);
    assert layout.align > 0 by {
      assert IsPow2(layout.align);
    }
    MultipleOfMultiple(block, OrderSize(p.m, o), layout.align);
    forall b | b in p.free
      ensures Disjoint(b, OrderSize(p.m, p.free[b]), block, layout.size)
    {
      assert Disjoint(b, OrderSize(p.m, p.free[b]), block, OrderSize(p.m, o));
    }
  }

  /** `alloc` on the free memory `p` with `k` frames left in the provider.
      A layout `block_order` refuses is refused with nothing changed;
      otherwise the search, refill and retry loop `AllocFrom` runs from the
      order `block_order` gives. The result comes with the free memory
      afterwards. */
  function AllocOutcome(p: Pool, layout: Layout, k: nat): (r: (Result<nat, BuddyErr>, Pool))
    requires ParamsOk(p.m, |p.lists|)
    ensures r.1.m == p.m && |r.1.lists| == |p.lists|
    ensures BlockOrder(p.m, p.heapSize, layout).Failure? ==> r == (Failure(InvalidLayout), p)
  {
    match BlockOrder(p.m, p.heapSize, layout)
    case Failure(e) => (Failure(e), p)
    case Success(mo) => AllocFrom(p, mo, k)
  }

  /** The search of `alloc` from order `mo` with `k` frames left: the front
      block of the lowest non-empty free list from `mo` up is handed out,
      split down to `mo`. With no such block and no frame left, the
      provider's `Exhausted` error comes back with nothing changed.
      Otherwise the heap is refilled and the search retried. The source
      retries by calling `alloc` again, which takes `block_order` on the
      grown heap; `BlockOrderGrows` shows that gives `mo` again. */
  function AllocFrom(p: Pool, mo: nat, k: nat): (r: (Result<nat, BuddyErr>, Pool))
    requires ParamsOk(p.m, |p.lists|)
    ensures r.1.m == p.m && |r.1.lists| == |p.lists|
    decreases k
  {
    var c := FirstNonEmpty(p.lists, mo);
    if c < |p.lists| then
      (Success(p.lists[c][0]), SplitFrom(PopFront(p, c), p.lists[c][0], c, mo))
    else if k == 0 then
      (Failure(FrameErr(Exhausted(Layout(FRAME_SIZE, FRAME_SIZE)))), p)
    else AllocFrom(Refilled(p), mo, k - 1)
  }

  /** `block_order` of a layout does not change as the heap grows, once
      the layout fits. */
  lemma BlockOrderGrows(m: nat, h: nat, h2: nat, layout: Layout)
    requires h <= h2 && BlockOrder(m, h, layout).Success?
    ensures BlockOrder(m, h2, layout) == BlockOrder(m, h, layout)
  {
  }

  /** With no free block to serve the layout and a frame left, `alloc` is
      `alloc` again on the refilled pool, `block_order` included. */
  lemma AllocRetries(p: Pool, layout: Layout, k: nat)
    requires ParamsOk(p.m, |p.lists|) && k > 0 && BlockOrder(p.m, p.heapSize, layout).Success?
    requires FirstNonEmpty(p.lists, BlockOrder(p.m, p.heapSize, layout).value) >= |p.lists|
    ensures AllocOutcome(p, layout, k) == AllocOutcome(Refilled(p), layout, k - 1)
  {
    BlockOrderGrows(p.m, p.heapSize, Refilled(p).heapSize, layout);
  }

  /** The free memory after `j` refills. */
  function Refills(p: Pool, j: nat): (q: Pool)
    requires ParamsOk(p.m, |p.lists|)
    ensures q.m == p.m && |q.lists| == |p.lists|
    decreases j
  {
    if j == 0 then p else Refills(Refilled(p), j - 1)
  }

  /** Refilling keeps the invariant, however many times. */
  lemma {:induction false} RefillsKeep(p: Pool, j: nat)
    requires Inv(p)
    ensures Inv(Refills(p, j))
    decreases j
  {
    if j > 0 {
      RefillKeeps(p);
      RefillsKeep(Refilled(p), j - 1);
    }
  }

  /** The search refills `j` times, for some `j` up to `k`, and then either
      finds a block or has no frame left. */
  lemma {:induction false} SearchRefills(p: Pool, mo: nat, k: nat) returns (j: nat)
    requires ParamsOk(p.m, |p.lists|)
    ensures j <= k
    ensures AllocFrom(p, mo, k) == AllocFrom(Refills(p, j), mo, k - j)
    ensures FirstNonEmpty(Refills(p, j).lists, mo) < |p.lists| || j == k
    decreases k
  {
    if FirstNonEmpty(p.lists, mo) < |p.lists| || k == 0 {
      j := 0;
      assert Refills(p, j) == p;
    } else {
      SearchStep(p, mo, k);
      var i := SearchRefills(Refilled(p), mo, k - 1);
      j := i + 1;
      RefillsUnfold(p, i);
      var q := Refills(Refilled(p), i);
      var n := k - 1 - i;
      assert k - j == n;
      assert Refills(p, j) == q;
      assert AllocFrom(Refilled(p), mo, k - 1) == AllocFrom(q, mo, n);
    }
  }

  /** A search that finds no block at or above `mo` refills once and
      searches again with one refill fewer. */
  lemma SearchStep(p: Pool, mo: nat, k: nat)
    requires ParamsOk(p.m, |p.lists|) && 0 < k && FirstNonEmpty(p.lists, mo) >= |p.lists|
    ensures AllocFrom(p, mo, k) == AllocFrom(Refilled(p), mo, k - 1)
  { }

  /** `j + 1` refills are one refill followed by `j` more. */
  lemma RefillsUnfold(p: Pool, j: nat)
    requires ParamsOk(p.m, |p.lists|)
    ensures Refills(p, j + 1) == Refills(Refilled(p), j)
  { }

  /** Whatever path the search takes, the invariant holds afterwards, and
      a block it hands out is held at order `mo`. */
  lemma AllocFromKeeps(p: Pool, mo: nat, k: nat)
    requires Inv(p)
    ensures Inv(AllocFrom(p, mo, k).1)
    ensures AllocFrom(p, mo, k).0.Success? ==>
              mo < |p.lists| && Held(AllocFrom(p, mo, k).1, AllocFrom(p, mo, k).0.value, mo)
  {
    var j := SearchRefills(p, mo, k);
    var q := Refills(p, j);
    RefillsKeep(p, j);
    if FirstNonEmpty(q.lists, mo) < |q.lists| {
      AllocFoundKeeps(q, mo, k - j);
    } else {
      SearchExhausted(q, mo);
    }
  }

  /** With no free block from order `mo` up and no frame left, the search
      fails and changes nothing. */
  lemma SearchExhausted(p: Pool, mo: nat)
    requires ParamsOk(p.m, |p.lists|) && FirstNonEmpty(p.lists, mo) >= |p.lists|
    ensures AllocFrom(p, mo, 0) == (Failure(FrameErr(Exhausted(Layout(FRAME_SIZE, FRAME_SIZE)))), p)
  {
  }

  /** The block the search finds on a free list keeps the invariant once
      it is split down, and is held at order `mo`. */
  lemma AllocFoundKeeps(p: Pool, mo: nat, k: nat)
    requires Inv(p) && FirstNonEmpty(p.lists, mo) < |p.lists|
    ensures var r := AllocFrom(p, mo, k);
            Inv(r.1) && r.0.Success? && mo < |p.lists| && Held(r.1, r.0.value, mo)
  {
    var c := FirstNonEmpty(p.lists, mo);
    FoundFirst(p, mo, c);
    SplitFromKeeps(PopFront(p, c), p.lists[c][0], c, mo);
  }

  /** Whatever path `alloc` takes, the invariant holds afterwards, and a
      block it hands out is held at the order `block_order` gives. */
  lemma AllocOutcomeKeeps(p: Pool, layout: Layout, k: nat)
    requires Inv(p)
    ensures var r := AllocOutcome(p, layout, k);
            && Inv(r.1)
            && (r.0.Success? ==>
                  && BlockOrder(p.m, p.heapSize, layout).Success?
                  && BlockOrder(p.m, p.heapSize, layout).value < |p.lists|
                  && Held(r.1, r.0.value, BlockOrder(p.m, p.heapSize, layout).value))
  {
    if BlockOrder(p.m, p.heapSize, layout).Success? {
      AllocFromKeeps(p, BlockOrder(p.m, p.heapSize, layout).value, k);
    }
  }

  /** With a frame left, `alloc` of a layout of at most a frame succeeds
      once `block_order` accepts it: if no free list serves it, the free
      block the refill adds does. */
  lemma AllocWithFrameSucceeds(p: Pool, layout: Layout, k: nat)
    requires Inv(p) && 1 <= k && layout.size <= FRAME_SIZE
    requires BlockOrder(p.m, p.heapSize, layout).Success?
    ensures AllocOutcome(p, layout, k).0.Success?
  {
    var mo := BlockOrder(p.m, p.heapSize, layout).value;
    var f := FrameOrder(p.m);
    BlockFitsFrame(p.m, p.heapSize, layout);
    if FirstNonEmpty(p.lists, mo) >= |p.lists| {
      var q := Refilled(p);
      assert AllocOutcome(p, layout, k) == AllocFrom(q, mo, k - 1);
      assert q.lists[f] != [];
      assert FirstNonEmpty(q.lists, mo) <= f;
    }
  }

  /** A layout of at most a frame that `block_order` accepts gets a block
      of at most a frame. */
  lemma BlockFitsFrame(m: nat, h: nat, layout: Layout)
    requires m <= FRAME_LOG2 && layout.size <= FRAME_SIZE
    requires BlockOrder(m, h, layout).Success?
    ensures BlockOrder(m, h, layout).value <= FrameOrder(m)
  {
    var mo := BlockOrder(m, h, layout).value;
    var f := FrameOrder(m);
    BlockSizeAtMostFrame(m, h, layout);
    assert OrderSize(m, mo) <= OrderSize(m, f);
    if f < mo {
      Pow2StrictlyMonotonic(m + f, m + mo);
    }
  }

  /** The block size of a layout of at most a frame is at most a frame. */
  lemma BlockSizeAtMostFrame(m: nat, h: nat, layout: Layout)
    requires m <= FRAME_LOG2 && layout.size <= FRAME_SIZE
    requires BlockSize(m, h, layout).Success?
    ensures BlockSize(m, h, layout).value <= FRAME_SIZE
  {
    var size := BlockSize(m, h, layout).value;
    var w := Wanted(m, layout);
    assert layout.align <= FRAME_SIZE;
    Pow2Monotonic(m, FRAME_LOG2);
    assert w <= FRAME_SIZE;
    Pow2IsPow2(FRAME_LOG2);
    LeastPow2IsLeast(size, w);
  }

  /** `block_size` compares the rounded size with the heap size before
      `alloc` ever refills, so a heap of size 0 refuses every request, with
      frames left or not. */
  lemma EmptyHeapRefusesAll(p: Pool, layout: Layout, k: nat)
    requires ParamsOk(p.m, |p.lists|) && p.heapSize == 0
    ensures AllocOutcome(p, layout, k) == (Failure(InvalidLayout), p)
  {
    assert !IsPow2(0);
  }

  /** The bytes `[b, b + s)` were not in use in `p`: they lie inside a
      free block of `p`, or at or past the end of its heap. */
  ghost predicate WasFree(p: Pool, b: nat, s: nat)
  {
    || p.heapSize <= b
    || exists a :: a in p.free && a <= b && b + s <= a + OrderSize(p.m, p.free[a])
  }

  /** Every free block of `q` was free memory in `p`: going from `p` to `q`
      frees nothing that was in use, so a block handed out in `p` is still
      out in `q`. */
  ghost predicate FreesNothing(p: Pool, q: Pool)
  {
    && q.m == p.m && p.heapSize <= q.heapSize
    && forall b :: b in q.free ==> WasFree(p, b, OrderSize(q.m, q.free[b]))
  }

  /** A free block was free memory. */
  lemma FreeWasFree(p: Pool, b: nat)
    requires b in p.free
    ensures WasFree(p, b, OrderSize(p.m, p.free[b]))
  {
    assert b <= b && b + OrderSize(p.m, p.free[b]) <= b + OrderSize(p.m, p.free[b]);
  }

  /** Part of free memory was free memory. */
  lemma WasFreeInside(p: Pool, a: nat, sa: nat, b: nat, sb: nat)
    requires WasFree(p, a, sa) && a <= b && b + sb <= a + sa
    ensures WasFree(p, b, sb)
  {
  }

  /** Memory that was free does not overlap a block that is owned. */
  lemma WasFreeDisjoint(p: Pool, b: nat, s: nat, x: nat, o: nat)
    requires WasFree(p, b, s) && Owned(p, x, o)
    ensures Disjoint(b, s, x, OrderSize(p.m, o))
  {
    if b < p.heapSize {
      var a :| a in p.free && a <= b && b + s <= a + OrderSize(p.m, p.free[a]);
      assert Disjoint(a, OrderSize(p.m, p.free[a]), x, OrderSize(p.m, o));
    }
  }

  /** Going from `p` to `q` without freeing anything in use keeps every
      block owned in `p` owned in `q`. */
  lemma FreesNothingKeepsOwned(p: Pool, q: Pool, x: nat, o: nat)
    requires FreesNothing(p, q) && Owned(p, x, o)
    ensures Owned(q, x, o)
  {
    forall b | b in q.free
      ensures Disjoint(b, OrderSize(q.m, q.free[b]), x, OrderSize(q.m, o))
    {
      WasFreeDisjoint(p, b, OrderSize(q.m, q.free[b]), x, o);
    }
  }

  /** Memory free in `q` was free in `p` when going from `p` to `q` frees
      nothing in use. */
  lemma WasFreeBefore(p: Pool, q: Pool, b: nat, s: nat)
    requires FreesNothing(p, q) && WasFree(q, b, s)
    ensures WasFree(p, b, s)
  {
    if b < q.heapSize {
      var a :| a in q.free && a <= b && b + s <= a + OrderSize(q.m, q.free[a]);
      WasFreeInside(p, a, OrderSize(q.m, q.free[a]), b, s);
    }
  }

  /** Two steps that free nothing in use free nothing in use together. */
  lemma FreesNothingTrans(p: Pool, q: Pool, r: Pool)
    requires FreesNothing(p, q) && FreesNothing(q, r)
    ensures FreesNothing(p, r)
  {
    forall b | b in r.free
      ensures WasFree(p, b, OrderSize(r.m, r.free[b]))
    {
      WasFreeBefore(p, q, b, OrderSize(r.m, r.free[b]));
    }
  }

  /** Taking a block off a free list frees nothing. */
  lemma PopFreesNothing(p: Pool, c: nat)
    requires c < |p.lists| && p.lists[c] != []
    ensures FreesNothing(p, PopFront(p, c))
  {
    var q := PopFront(p, c);
    forall b | b in q.free
      ensures WasFree(p, b, OrderSize(q.m, q.free[b]))
    {
      FreeWasFree(p, b);
    }
  }

  /** A refill frees only the new frame, which lies past the old heap. */
  lemma RefillFreesNothing(p: Pool)
    requires ParamsOk(p.m, |p.lists|)
    ensures FreesNothing(p, Refilled(p))
  {
    var q := Refilled(p);
    forall b | b in q.free
      ensures WasFree(p, b, OrderSize(q.m, q.free[b]))
    {
      if b != p.heapSize {
        FreeWasFree(p, b);
      }
    }
  }

  /** Any number of refills frees only memory past the old heap. */
  lemma {:induction false} RefillsFreeNothing(p: Pool, j: nat)
    requires ParamsOk(p.m, |p.lists|)
    ensures FreesNothing(p, Refills(p, j))
    decreases j
  {
    if j == 0 {
      forall b | b in p.free
        ensures WasFree(p, b, OrderSize(p.m, p.free[b]))
      {
        FreeWasFree(p, b);
      }
    } else {
      RefillFreesNothing(p);
      RefillsFreeNothing(Refilled(p), j - 1);
      RefillsUnfold(p, j - 1);
      FreesNothingTrans(p, Refilled(p), Refills(p, j));
    }
  }

  /** Splitting a taken block whose memory was free in `p0` frees only part
      of that block. */
  lemma SplitOffFreesNothing(p0: Pool, q: Pool, block: nat, o: nat)
    requires FreesNothing(p0, q) && o < |q.lists|
    requires HeaderAt(q, block) == OrderSize(q.m, o + 1)
    requires WasFree(p0, block, OrderSize(q.m, o + 1))
    ensures FreesNothing(p0, SplitOff(q, block, o))
  {
    var half := OrderSize(q.m, o);
    OrderSizeNext(q.m, o);
    SplitOffSteps(q, block, o);
    var s := SplitOff(q, block, o);
    assert s.free == q.free[block + half := o];
    WasFreeInside(p0, block, OrderSize(q.m, o + 1), block + half, half);
  }

  /** The split loop leaves the block with a header holding the size of
      the order it stops at. */
  lemma {:induction false} SplitFromHeader(q: Pool, block: nat, hi: nat, lo: nat)
    requires lo <= hi <= |q.lists| && HeaderAt(q, block) == OrderSize(q.m, hi)
    ensures HeaderAt(SplitFrom(q, block, hi, lo), block) == OrderSize(q.m, lo)
    decreases hi - lo
  {
    if lo < hi {
      SplitFromHeader(q, block, hi, lo + 1);
      OrderSizeNext(q.m, lo);
      SplitOffSteps(SplitFrom(q, block, hi, lo + 1), block, lo);
    }
  }

  /** The whole split loop on a taken block whose memory was free in `p0`
      frees only parts of that block. */
  lemma {:induction false} SplitFromFreesNothing(p0: Pool, q: Pool, block: nat, hi: nat, lo: nat)
    requires lo <= hi < |q.lists| && HeaderAt(q, block) == OrderSize(q.m, hi)
    requires FreesNothing(p0, q) && WasFree(p0, block, OrderSize(q.m, hi))
    ensures FreesNothing(p0, SplitFrom(q, block, hi, lo))
    decreases hi - lo
  {
    if lo < hi {
      SplitFromFreesNothing(p0, q, block, hi, lo + 1);
      SplitStepFreesNothing(p0, q, block, hi, lo);
    }
  }

  /** One round of the split loop on such a block frees only part of it. */
  lemma SplitStepFreesNothing(p0: Pool, q: Pool, block: nat, hi: nat, lo: nat)
    requires lo < hi < |q.lists| && HeaderAt(q, block) == OrderSize(q.m, hi)
    requires WasFree(p0, block, OrderSize(q.m, hi))
    requires FreesNothing(p0, SplitFrom(q, block, hi, lo + 1))
    ensures FreesNothing(p0, SplitFrom(q, block, hi, lo))
  {
    var s1 := SplitFrom(q, block, hi, lo + 1);
    SplitFromHeader(q, block, hi, lo + 1);
    OrderSizeMonotonic(q.m, lo + 1, hi);
    WasFreeInside(p0, block, OrderSize(q.m, hi), block, OrderSize(q.m, lo + 1));
    SplitOffFreesNothing(p0, s1, block, lo);
  }

  /** A higher order has a block at least as large. */
  lemma OrderSizeMonotonic(m: nat, a: nat, b: nat)
    requires a <= b
    ensures OrderSize(m, a) <= OrderSize(m, b)
  {
    Pow2Monotonic(m + a, m + b);
  }

  /** Taking the front block of the free list of order `c` and splitting
      it down to order `mo` hands out memory that was free and frees nothing
      in use. */
  lemma TakeFreesNothing(p: Pool, mo: nat, c: nat)
    requires Inv(p) && mo <= c < |p.lists| && p.lists[c] != []
    ensures FreesNothing(p, SplitFrom(PopFront(p, c), p.lists[c][0], c, mo))
    ensures WasFree(p, p.lists[c][0], OrderSize(p.m, mo))
  {
    var block := p.lists[c][0];
    assert block in p.free && p.free[block] == c;
    assert Placed(p, block, c);
    TakeBlockFreesNothing(p, mo, c, block);
  }

  /** `TakeFreesNothing` for a front block known to be free at order `c`
      with its header. */
  lemma TakeBlockFreesNothing(p: Pool, mo: nat, c: nat, block: nat)
    requires mo <= c < |p.lists| && p.lists[c] != [] && block == p.lists[c][0]
    requires block in p.free && p.free[block] == c && HeaderAt(p, block) == OrderSize(p.m, c)
    ensures FreesNothing(p, SplitFrom(PopFront(p, c), block, c, mo))
    ensures WasFree(p, block, OrderSize(p.m, mo))
  {
    FreeWasFree(p, block);
    PopFreesNothing(p, c);
    SplitFromFreesNothing(p, PopFront(p, c), block, c, mo);
    OrderSizeMonotonic(p.m, mo, c);
    WasFreeInside(p, block, OrderSize(p.m, c), block, OrderSize(p.m, mo));
  }

  /** When the search finds a block, it hands out memory that was free and
      frees nothing in use. */
  lemma AllocFoundFreesNothing(p: Pool, mo: nat, k: nat)
    requires Inv(p) && FirstNonEmpty(p.lists, mo) < |p.lists|
    ensures var r := AllocFrom(p, mo, k);
            && FreesNothing(p, r.1) && r.0.Success?
            && WasFree(p, r.0.value, OrderSize(p.m, mo))
  {
    TakeFreesNothing(p, mo, FirstNonEmpty(p.lists, mo));
  }

  /** The search, with its refills, frees nothing in use, and the block it
      hands out was free memory. */
  lemma AllocFromFreesNothing(p: Pool, mo: nat, k: nat)
    requires Inv(p)
    ensures FreesNothing(p, AllocFrom(p, mo, k).1)
    ensures AllocFrom(p, mo, k).0.Success? ==>
              WasFree(p, AllocFrom(p, mo, k).0.value, OrderSize(p.m, mo))
  {
    var j := SearchRefills(p, mo, k);
    var q := Refills(p, j);
    RefillsKeep(p, j);
    RefillsFreeNothing(p, j);
    if FirstNonEmpty(q.lists, mo) < |q.lists| {
      AllocFoundFreesNothing(q, mo, k - j);
      var r := AllocFrom(q, mo, k - j);
      FreesNothingTrans(p, q, r.1);
      WasFreeBefore(p, q, r.0.value, OrderSize(p.m, mo));
    } else {
      SearchExhausted(q, mo);
    }
  }

  /** `alloc` leaves every block handed out before it handed out, and the
      block it returns overlaps none of them. */
  lemma AllocKeepsOwned(p: Pool, layout: Layout, k: nat, x: nat, o: nat)
    requires Inv(p) && Owned(p, x, o)
    ensures var r := AllocOutcome(p, layout, k);
            && Owned(r.1, x, o)
            && (r.0.Success? ==>
                  && BlockOrder(p.m, p.heapSize, layout).Success?
                  && Disjoint(r.0.value, OrderSize(p.m, BlockOrder(p.m, p.heapSize, layout).value),
                              x, OrderSize(p.m, o)))
  {
    var r := AllocOutcome(p, layout, k);
    if BlockOrder(p.m, p.heapSize, layout).Success? {
      var mo := BlockOrder(p.m, p.heapSize, layout).value;
      AllocFromFreesNothing(p, mo, k);
      FreesNothingKeepsOwned(p, r.1, x, o);
      if r.0.Success? {
        WasFreeDisjoint(p, r.0.value, OrderSize(p.m, mo), x, o);
      }
    }
  }

  /** Every block owned in `p` is still owned in `q`. */
  ghost predicate KeepsOwned(p: Pool, q: Pool)
  {
    forall x, o :: Owned(p, x, o) ==> Owned(q, x, o)
  }

  /** The `s` bytes at `b` overlap no block owned in `p`. */
  ghost predicate ApartFromOwned(p: Pool, b: nat, s: nat)
  {
    forall x, o :: Owned(p, x, o) ==> Disjoint(b, s, x, OrderSize(p.m, o))
  }

  /** `AllocKeepsOwned` for every owned block at once. */
  lemma AllocKeepsAllOwned(p: Pool, layout: Layout, k: nat)
    requires Inv(p)
    ensures var r := AllocOutcome(p, layout, k);
            && KeepsOwned(p, r.1)
            && (r.0.Success? ==>
                  && BlockOrder(p.m, p.heapSize, layout).Success?
                  && ApartFromOwned(p, r.0.value, OrderSize(p.m, BlockOrder(p.m, p.heapSize, layout).value)))
  {
    forall x, o | Owned(p, x, o)
      ensures var r := AllocOutcome(p, layout, k);
              && Owned(r.1, x, o)
              && (r.0.Success? ==>
                    Disjoint(r.0.value, OrderSize(p.m, BlockOrder(p.m, p.heapSize, layout).value), x, OrderSize(p.m, o)))
    {
      AllocKeepsOwned(p, layout, k, x, o);
    }
    if AllocOutcome(p, layout, k).0.Success? {
      AllocOutcomeKeeps(p, layout, k);
    }
  }

  /** Freeing a block and pushing it keeps owned a block it does not
      overlap. */
  lemma PushKeepsOwned(p: Pool, s: nat, o: nat, x: nat, ox: nat)
    requires o < |p.lists| && Owned(p, x, ox)
    requires Disjoint(s, OrderSize(p.m, o), x, OrderSize(p.m, ox))
    ensures Owned(PushOrder(p, s, o), x, ox)
  {
  }

  /** One merge round keeps owned a block that overlaps neither the block
      nor its free buddy, and the merged block, aligned to its size,
      overlaps it neither. */
  lemma MergeKeepsOwned(p: Pool, block: nat, buddy: nat, o: nat, x: nat, ox: nat)
    requires o < |p.lists| && Owned(p, x, ox)
    requires buddy in p.free && p.free[buddy] == o
    requires block % OrderSize(p.m, o) == 0 && GetBuddy(p.m, p.heapSize, block, o) == Some(buddy)
    requires Disjoint(block, OrderSize(p.m, o), x, OrderSize(p.m, ox))
    ensures Owned(MergeWith(p, block, buddy, o), x, ox)
    ensures var low := if block < buddy then block else buddy;
            && low % OrderSize(p.m, o + 1) == 0
            && Disjoint(low, OrderSize(p.m, o + 1), x, OrderSize(p.m, ox))
  {
    var q := MergeWith(p, block, buddy, o);
    var size := OrderSize(p.m, o);
    forall b | b in q.free
      ensures Disjoint(b, OrderSize(q.m, q.free[b]), x, OrderSize(q.m, ox))
    {
      assert b in p.free && q.free[b] == p.free[b];
    }
    assert Disjoint(buddy, size, x, OrderSize(p.m, ox));
    BuddyIsAdjacent(p.m, p.heapSize, block, o);
    OrderSizeNext(p.m, o);
    UnionDisjoint(x, OrderSize(p.m, ox), block, buddy, size);
  }

  /** The whole merge loop keeps owned a block that the block being merged
      does not overlap, and the merged block does not overlap it. */
  lemma {:induction false} CoalesceKeepsOwned(p: Pool, block: nat, o: nat, x: nat, ox: nat)
    requires Listed(p) && o < |p.lists| && block % OrderSize(p.m, o) == 0 && Owned(p, x, ox)
    requires Disjoint(block, OrderSize(p.m, o), x, OrderSize(p.m, ox))
    ensures var r := Coalesce(p, block, o);
            Owned(r.0, x, ox) && Disjoint(r.1, OrderSize(p.m, r.2), x, OrderSize(p.m, ox))
    decreases |p.lists| - o
  {
    var g := if o + 1 < |p.lists| then GetBuddy(p.m, p.heapSize, block, o) else None;
    if g.Some? && g.value in p.lists[o] {
      var buddy := g.value;
      var j :| 0 <= j < |p.lists[o]| && p.lists[o][j] == buddy;
      assert buddy in p.free && p.free[buddy] == o;
      var q := MergeWith(p, block, buddy, o);
      var low := if block < buddy then block else buddy;
      RemoveListed(p, buddy, o, q);
      MergeKeepsOwned(p, block, buddy, o, x, ox);
      CoalesceKeepsOwned(q, low, o + 1, x, ox);
      CoalesceStep(p, block, o, buddy);
    } else {
      CoalesceStops(p, block, o);
    }
  }

  /** A merge round takes the merge loop one order up. */
  lemma CoalesceStep(p: Pool, block: nat, o: nat, buddy: nat)
    requires o + 1 < |p.lists| && GetBuddy(p.m, p.heapSize, block, o) == Some(buddy)
    requires buddy in p.lists[o]
    ensures Coalesce(p, block, o)
            == Coalesce(MergeWith(p, block, buddy, o), if block < buddy then block else buddy, o + 1)
  {
  }

  /** `dealloc` of one block leaves every other block handed out, one that
      does not overlap it, handed out. */
  lemma FreedKeepsOwned(p: Pool, ptr: nat, o: nat, x: nat, ox: nat)
    requires Inv(p) && o < |p.lists| && Owned(p, ptr, o) && Owned(p, x, ox)
    requires Disjoint(ptr, OrderSize(p.m, o), x, OrderSize(p.m, ox))
    ensures Owned(Freed(p, ptr, o), x, ox)
  {
    var w := WriteHeader(p, ptr, OrderSize(p.m, o));
    HeaderKeeps(p, ptr, o);
    assert Owned(w, x, ox) by {
      assert w.free == p.free && w.heapSize == p.heapSize;
    }
    CoalesceKeepsOwned(w, ptr, o, x, ox);
    var c := Coalesce(w, ptr, o);
    PushKeepsOwned(c.0, c.1, c.2, x, ox);
  }

  /** `alloc` never shrinks the heap; only its refills grow it. */
  lemma AllocHeapGrows(p: Pool, layout: Layout, k: nat)
    requires Inv(p)
    ensures p.heapSize <= AllocOutcome(p, layout, k).1.heapSize
  {
    if BlockOrder(p.m, p.heapSize, layout).Success? {
      AllocFromFreesNothing(p, BlockOrder(p.m, p.heapSize, layout).value, k);
    }
  }

  /** Two requests in a row: the first block stays handed out, so it can be
      given back, and the second one does not overlap it. */
  lemma AllocTwiceDisjoint(p: Pool, layout: Layout, k: nat, layout2: Layout, k2: nat)
    requires Inv(p)
    requires AllocOutcome(p, layout, k).0.Success?
    ensures var r1 := AllocOutcome(p, layout, k);
            var mo := BlockOrder(p.m, p.heapSize, layout).value;
            var r2 := AllocOutcome(r1.1, layout2, k2);
            && BlockOrder(p.m, p.heapSize, layout).Success?
            && Inv(r2.1) && Owned(r2.1, r1.0.value, mo)
            && BlockOrder(p.m, r2.1.heapSize, layout) == BlockOrder(p.m, p.heapSize, layout)
            && (r2.0.Success? ==>
                  Disjoint(r2.0.value, OrderSize(p.m, BlockOrder(p.m, r1.1.heapSize, layout2).value),
                           r1.0.value, OrderSize(p.m, mo)))
  {
    var r1 := AllocOutcome(p, layout, k);
    AllocOutcomeKeeps(p, layout, k);
    var mo := BlockOrder(p.m, p.heapSize, layout).value;
    AllocOutcomeKeeps(r1.1, layout2, k2);
    AllocKeepsOwned(r1.1, layout2, k2, r1.0.value, mo);
    var r2 := AllocOutcome(r1.1, layout2, k2);
    AllocHeapGrows(p, layout, k);
    AllocHeapGrows(r1.1, layout2, k2);
    BlockOrderGrows(p.m, p.heapSize, r2.1.heapSize, layout);
  }
}
