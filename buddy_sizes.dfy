/** The size arithmetic of the buddy allocator of alarm-buddy/src/lib.rs:
    rounding a request up to a block size, turning a block size into the
    order of its free list, and finding a block's buddy. Offsets are
    relative to the base of the heap, so the base pointer is 0. The heap's
    minimum block size is `1 << m`, with `m` its `min_block_size_log2`. */
module BuddySizes {
  import opened Results
  import opened Bits
  import opened Log2
  import opened FrameCache

  /** The errors of the allocator: a request whose layout it refuses (the
      source returns a bare `AllocErr` for these), or the frame provider's
      own error, passed on unchanged by `refill`. */
  datatype BuddyErr = InvalidLayout | FrameErr(err: AllocErr)

  function Max(a: nat, b: nat): (r: nat)
    ensures r >= a && r >= b && (r == a || r == b)
  {
    if a >= b then a else b
  }

  /** The size of a block of order `o`: `min_block_size << o`. */
  function OrderSize(m: nat, o: nat): (r: nat)
    ensures IsPow2(r) && Pow2(m) <= r
  {
    Pow2IsPow2(m + o);
    Pow2Monotonic(m, m + o);
    Pow2(m + o)
  }

  /** The size a request is rounded to before any order is picked. */
  function Wanted(m: nat, layout: Layout): nat
  {
    Max(Max(layout.size, layout.align), Pow2(m))
  }

  /** `Heap::block_size`: a layout whose alignment is not a power of two,
      or exceeds a frame, is refused. Otherwise the size is the smallest
      power of two that holds the request, its alignment and the minimum
      block size; that size is refused too when it exceeds the heap, and
      only then. */
  function BlockSize(m: nat, heapSize: nat, layout: Layout): (r: Result<nat, BuddyErr>)
    ensures !IsPow2(layout.align) ==> r == Failure(InvalidLayout)
    ensures layout.align > FRAME_SIZE ==> r == Failure(InvalidLayout)
    ensures r.Failure? ==> r.error == InvalidLayout
    ensures r.Success? ==> IsLeastPow2AtLeast(r.value, Wanted(m, layout)) && r.value <= heapSize
    ensures r.Failure? && IsPow2(layout.align) && layout.align <= FRAME_SIZE ==>
              forall q :: IsPow2(q) && Wanted(m, layout) <= q ==> heapSize < q
  {
    if !IsPow2(layout.align) then Failure(InvalidLayout)
    else if layout.align > FRAME_SIZE then Failure(InvalidLayout)
    else
      var size := NextPowerOfTwo(Wanted(m, layout));
      if size > heapSize then
        LeastPow2IsLeast(size, Wanted(m, layout));
        Failure(InvalidLayout)
      else Success(size)
  }

  /** `Heap::order_from_size`: `log2(size) - m`, the order whose blocks are
      the largest that fit in `size`; for a power of two it is the order of
      exactly that size. The source's `usize` subtraction needs a size of at
      least the minimum block size. */
  function OrderFromSize(m: nat, size: nat): (o: nat)
    requires Pow2(m) <= size
    ensures OrderSize(m, o) <= size < OrderSize(m, o + 1)
    ensures IsPow2(size) ==> OrderSize(m, o) == size
  {
    FloorLog2Bounds(size);
    FloorLog2AtLeast(m, size);
    LogOfPowerOfTwo(size);
    FloorLog2(size) - m
  }

  /** `order_from_size(min_block_size << k) == k`. */
  lemma OrderFromSizeInverse(m: nat, k: nat)
    ensures OrderFromSize(m, OrderSize(m, k)) == k
  {
    Pow2Monotonic(m, m + k);
    FloorLog2OfPow2(m + k);
  }

  /** `Heap::block_order`: the order of the request's block size; a refused
      layout is refused here too, with the same error. */
  function BlockOrder(m: nat, heapSize: nat, layout: Layout): (r: Result<nat, BuddyErr>)
    ensures r.Success? <==> BlockSize(m, heapSize, layout).Success?
    ensures r.Failure? ==> r.error == BlockSize(m, heapSize, layout).error
    ensures r.Success? ==> OrderSize(m, r.value) == BlockSize(m, heapSize, layout).value
  {
    match BlockSize(m, heapSize, layout)
    case Failure(e) => Failure(e)
    case Success(size) => Success(OrderFromSize(m, size))
  }

  /** A block of the order `block_order` picks holds the request: it is at
      least as large as the layout's size, fits in the heap, and a block
      aligned to its own size is aligned as the layout asks. */
  lemma BlockOrderFits(m: nat, heapSize: nat, layout: Layout)
    requires BlockOrder(m, heapSize, layout).Success?
    ensures var s := OrderSize(m, BlockOrder(m, heapSize, layout).value);
            && layout.size <= s && layout.align <= s && Pow2(m) <= s && s <= heapSize
            && s % layout.align == 0
  {
    var s := OrderSize(m, BlockOrder(m, heapSize, layout).value);
    PowerOfTwoIsPow2OfLog(layout.align);
    PowerOfTwoIsPow2OfLog(s);
    var a := FloorLog2(layout.align);
    var b := FloorLog2(s);
    if b < a {
      Pow2StrictlyMonotonic(b, a);
    }
    Pow2Divides(a, b);
  }

  /** `Heap::get_buddy`: a block as large as the whole heap has no buddy;
      any other block of order `o` has its buddy at the offset that differs
      from its own in exactly the bit of the block size. */
  function GetBuddy(m: nat, heapSize: nat, block: nat, o: nat): (r: Option<nat>)
    ensures r.None? <==> OrderSize(m, o) == heapSize
    ensures r.Some? ==> r.value == Xor(block, OrderSize(m, o))
  {
    var size := OrderSize(m, o);
    if size == heapSize then None else Some(Xor(block, size))
  }

  /** The buddy of a block's buddy is the block itself. */
  lemma BuddyOfBuddy(m: nat, heapSize: nat, block: nat, o: nat)
    requires GetBuddy(m, heapSize, block, o).Some?
    ensures GetBuddy(m, heapSize, GetBuddy(m, heapSize, block, o).value, o) == Some(block)
  {
    XorInvolutive(block, OrderSize(m, o));
  }

  /** A block aligned to its size and its buddy are two adjacent blocks of
      that size: together they form the block of the next order that starts
      at the lower of the two, which is aligned to the doubled size. */
  lemma BuddyIsAdjacent(m: nat, heapSize: nat, block: nat, o: nat)
    requires block % OrderSize(m, o) == 0
    requires GetBuddy(m, heapSize, block, o).Some?
    ensures var buddy := GetBuddy(m, heapSize, block, o).value;
            var low := if block < buddy then block else buddy;
            && buddy != block
            && buddy % OrderSize(m, o) == 0
            && low % OrderSize(m, o + 1) == 0
            && (block < buddy ==> buddy == block + OrderSize(m, o))
            && (buddy < block ==> block == buddy + OrderSize(m, o))
  {
    var k := m + o;
    assert OrderSize(m, o) == Pow2(k);
    assert OrderSize(m, o + 1) == Pow2(k + 1);
    BuddyFacts(block, k);
  }

  /** Two powers of two: the smaller divides the larger. */
  lemma {:induction false} Pow2Divides(a: nat, b: nat)
    requires a <= b
    ensures Pow2(b) % Pow2(a) == 0
  {
    Pow2Add(a, b - a);
    DivModUnique(Pow2(b), Pow2(a), Pow2(b - a), 0);
  }

  /** A power of two is 2 to the power of its logarithm. */
  lemma LogOfPowerOfTwo(n: nat)
    ensures IsPow2(n) ==> Pow2(FloorLog2(n)) == n
  {
    if IsPow2(n) {
      PowerOfTwoIsPow2OfLog(n);
    }
  }

  /** A size of at least `2^m` has a logarithm of at least `m`. */
  lemma FloorLog2AtLeast(m: nat, size: nat)
    requires Pow2(m) <= size
    ensures m <= FloorLog2(size)
  {
    FloorLog2Bounds(size);
    if FloorLog2(size) < m {
      Pow2Monotonic(FloorLog2(size) + 1, m);
    }
  }

  /** The smallest power of two at least `n` is below every other power of
      two at least `n`. */
  lemma LeastPow2IsLeast(r: nat, n: nat)
    requires IsLeastPow2AtLeast(r, n)
    ensures forall q :: IsPow2(q) && n <= q ==> r <= q
  {
    forall q | IsPow2(q) && n <= q
      ensures r <= q
    {
      if r > 1 {
        PowerOfTwoIsPow2OfLog(r);
        PowerOfTwoIsPow2OfLog(q);
        var a := FloorLog2(r);
        var b := FloorLog2(q);
        if a <= b {
          Pow2Monotonic(a, b);
        } else {
          Pow2Monotonic(b, a - 1);
        }
      }
    }
  }
}
