# ALARM buddy allocator and intrusive collections, in Dafny

This project models the core of ALARM, the memory allocator of the SOS
kernel. It covers four parts:

- **The buddy-block heap** (`alarm-buddy`). A request's layout is rounded
  up to a power-of-two block size. The size gives an *order*, the index of
  a free list. A block is taken from the lowest non-empty free list at or
  above that order and split down to the order. A freed block is merged
  with its *buddy* (the block whose offset differs in exactly the bit of
  the block size) for as long as the buddy is free. When no list can serve
  a request, the heap is refilled with a page frame from a frame provider.
  `log2` is the table-driven bit scan that turns a size into an order.
- **The intrusive doubly-linked list** (`intruder-alarm/src/list`). Nodes
  carry their own `next`/`prev` links. The list keeps a head, a tail and a
  length. It has a read-only cursor and a mutable cursor, and the mutable
  cursor can unlink or link in nodes. The generic cursor scans
  (`remove_first_node`, `remove_all_nodes`, `map_in_place`,
  `seek_forward`, ...) are built on them.
- **The intrusive LIFO structures**: the stack and the singly-linked list.
  Both push and pop at their first node and keep a length.
- **The frame cache** (`alarm-base`): three optional frame slots, used as
  a first-fit frame allocator. It is the frame provider of the heap.

Addresses are offsets from the base of the heap, so the base pointer is 0.
Block headers are a map from offset to the header's `size` field.

The modules are:

- `Bits` and `Log2`: integer arithmetic and the bit scan.
- `Links`: `Link` and `UnsafeRef`.
- `FrameCache`: the `Cache` class over an `array<Option<F>>`.
- `BuddySizes`: `block_size`, `order_from_size` and `get_buddy`.
- `BuddyPool`: the free memory as a value. It holds `Inv` and one step
  function per state change, each with a lemma that the step keeps `Inv`.
- `BuddyHeap`: the `Heap` class. Each method's `ensures` gives its result
  and the new `State()` as a `BuddyPool` function of the old state. For
  `Alloc`, that function is `AllocOutcome`, which also takes the number of
  frames the provider still has.
- `IntrusiveList`: the `Node`, `List`, `Cursor` and `CursorMut` classes,
  whose methods relink nodes in place.
- `CursorOps`: the cursor default methods.
- `Lifo`: the stack and the singly-linked list.
- `BuddyAsWritten` and `ListAsWritten`: the code as written where it
  departs from its documentation (see Findings).

The heap follows the algorithm its own documentation describes. `alloc`
splits the block down to the order it needs. `dealloc` goes one order up
after each merge, and gives the freed block a header of its block size.
`find_and_remove`, which the cursor trait does not define, is taken to be
`remove_first_node(..).is_some()`.

## Model

| member | source | states |
|---|---|---|
| Bits.NextPowerOfTwo | alarm-buddy/src/lib.rs:116 | the result is a power of two, at least the input, and the least such |
| Bits.XorInvolutive | alarm-buddy/src/lib.rs:180 | XOR-ing an offset twice with the same size gives the offset back |
| Bits.XorAlignedPow2 | alarm-buddy/src/lib.rs:180 | on an offset aligned to 2^k, XOR with 2^k adds 2^k when bit k is clear and subtracts it when set |
| Bits.BuddyFacts | alarm-buddy/src/lib.rs:168-182 | a block aligned to 2^k and its XOR-buddy are distinct and adjacent, both aligned to 2^k, and the lower is aligned to 2^(k+1) |
| Log2.FloorLog2Bounds | alarm-buddy/src/log2.rs:25-36 | for n >= 1, 2^log2(n) <= n < 2^(log2(n)+1) |
| Log2.FloorLog2Unique | alarm-buddy/src/log2.rs:25-36 | those bounds determine the logarithm |
| Log2.FloorLog2OfPow2 | alarm-buddy/src/log2.rs:25-36 | log2(1 << k) == k |
| Log2.PowerOfTwoIsPow2OfLog | alarm-buddy/src/log2.rs:25-36 | a power of two is 1 << log2 of itself |
| Log2.Log2 | alarm-buddy/src/log2.rs:25-36 | the mask-and-shift scan over the tables returns the floor of log2 for a non-zero value, 0 for 0, and always below 64 |
| Log2.FloorLog2Below | alarm-buddy/src/log2.rs:13-17 | a value below 2^w has a logarithm below w, so a `usize` has one below 64 |
| Log2.ShrIsDiv | alarm-buddy/src/log2.rs:31 | shifting right by n divides by 2^n |
| Log2.MaskTestIsWindowTest | alarm-buddy/src/log2.rs:6-11 | on a value that fits in 2*S[i] bits, `v & B[i] != 0` holds exactly when v >= 1 << S[i] |
| Log2.OrAddsShift | alarm-buddy/src/log2.rs:32 | OR-ing a shift amount that shares no bit with the result is adding it |
| Links.Link.Empty | intruder-alarm/src/lib.rs:263-265 | `Link::none` is unlinked and resolves to nothing in any memory |
| Links.Link.AsRef | intruder-alarm/src/lib.rs:276-278 | a link resolves to its referent exactly when it is linked |
| Links.Link.FromOwningRef | intruder-alarm/src/lib.rs:297-302 | the link is empty exactly when the owning reference's pointer is null, and otherwise holds that pointer |
| Links.Link.Clone | intruder-alarm/src/lib.rs:307-311 | a clone is always the empty link |
| Links.Link.Default | intruder-alarm/src/lib.rs:313-318 | the default link is unlinked |
| Links.DefaultIsEmpty | intruder-alarm/src/lib.rs:313-318 | `Link::default()` equals `Link::none()` |
| Links.UnsafeRef.IntoPtr | intruder-alarm/src/lib.rs:238-240 | the pointer is never null, and `from_ptr` of it gives the reference back |
| Links.UnsafeRef.Clone | intruder-alarm/src/lib.rs:179-184 | a clone holds the same pointer and is equal to the original |
| Links.FromPtr | intruder-alarm/src/lib.rs:242-246 | fails with the panic message exactly on a null pointer, otherwise wraps it |
| Links.FromPtrIntoPtr | intruder-alarm/src/lib.rs:236-247 | into_ptr(from_ptr(p)) == p for every non-null p |
| Links.EqIsEquivalence | intruder-alarm/src/lib.rs:249-256 | equality of `UnsafeRef`s is reflexive, symmetric and transitive |
| Links.EqIgnoresAddresses | intruder-alarm/src/lib.rs:249-256 | for any references and memories, equality depends only on the two referents: relocating them keeps the answer, and references to distinct addresses with equal referents are equal though not the same reference |
| FrameCache.Ok | alarm-base/src/frame.rs:58-60 | `Result::ok` is a frame exactly on success, and that frame |
| FrameCache.FirstFull | alarm-base/src/frame.rs:76-77 | the first occupied slot: occupied, every slot before it empty |
| FrameCache.FirstEmpty | alarm-base/src/frame.rs:87-88 | the first empty slot: empty, every slot before it occupied |
| FrameCache.TakeRemovesFrame | alarm-base/src/frame.rs:78 | emptying an occupied slot removes exactly its frame from the cache's multiset |
| FrameCache.PutAddsFrame | alarm-base/src/frame.rs:89 | filling an empty slot adds exactly the new frame to the multiset |
| FrameCache.FramesCount | alarm-base/src/frame.rs:75-93 | a cache holds at most three frames; it has none exactly when no slot is occupied, and three exactly when none is empty |
| FrameCache.FirstFullAt | alarm-base/src/frame.rs:76-77 | the slot the scan stops at is `FirstFull` |
| FrameCache.FirstEmptyAt | alarm-base/src/frame.rs:87-88 | the slot the scan stops at is `FirstEmpty` |
| FrameCache.Cache.FromFrames | alarm-base/src/frame.rs:42-44 | all three slots hold the given frames, in order |
| FrameCache.Cache.FromAlloc | alarm-base/src/frame.rs:55-63 | slot i is filled exactly when the i-th request succeeded, with its frame |
| FrameCache.Cache.Alloc | alarm-base/src/frame.rs:75-84 | takes the frame of the first occupied slot and empties only that slot; with none, fails with `Exhausted` for a frame-sized, frame-aligned layout and changes nothing |
| FrameCache.Cache.Dealloc | alarm-base/src/frame.rs:86-93 | stores the frame in the first empty slot only; with all full, fails with `Unsupported` and changes nothing |
| BuddySizes.OrderSize | alarm-buddy/src/lib.rs:171 | the block size of an order is a power of two at least the minimum block size |
| BuddySizes.BlockSize | alarm-buddy/src/lib.rs:91-126 | refuses a non-power-of-two alignment and one above a frame; otherwise gives the least power of two at least max(size, align, minimum block), and refuses exactly when every such power exceeds the heap size |
| BuddySizes.OrderFromSize | alarm-buddy/src/lib.rs:134-136 | the order whose block is the largest that fits in the size, exactly the size for a power of two |
| BuddySizes.OrderFromSizeInverse | alarm-buddy/src/lib.rs:134-136 | order_from_size(min_block_size << k) == k |
| BuddySizes.BlockOrder | alarm-buddy/src/lib.rs:129-131 | succeeds exactly when `block_size` does, with its error otherwise, and gives the order whose block size is `block_size` |
| BuddySizes.BlockOrderFits | alarm-buddy/src/lib.rs:91-131 | the chosen block holds the layout's size, fits in the heap, and its own alignment satisfies the layout's |
| BuddySizes.GetBuddy | alarm-buddy/src/lib.rs:169-182 | no buddy exactly when the block is as large as the heap, otherwise the offset XOR the block size |
| BuddySizes.BuddyOfBuddy | alarm-buddy/src/lib.rs:169-182 | the buddy of a block's buddy is the block |
| BuddySizes.BuddyIsAdjacent | alarm-buddy/src/lib.rs:169-182 | a block aligned to its size and its buddy are adjacent, and together form the aligned block of the next order |
| BuddyPool.WriteHeader | alarm-buddy/src/lib.rs:354-363 | the header at the block holds the size, every other header is unchanged |
| BuddyPool.PushOrder | alarm-buddy/src/lib.rs:163-166 | the block is at the front of its order's list, every other list is unchanged |
| BuddyPool.PopFront | alarm-buddy/src/lib.rs:258-260 | the list of the order loses its front block, every other list is unchanged |
| BuddyPool.FrameOrder | alarm-buddy/src/lib.rs:158 | the order `order_from_size` gives a frame, whose block size is a frame |
| BuddyPool.IndexOf | intruder-alarm/src/cursor.rs:106-131 | the position of the first occurrence, or the length when there is none |
| BuddyPool.RemoveFirstElements | alarm-buddy/src/lib.rs:300 | removing the buddy from a list without duplicates leaves exactly the other blocks, still without duplicates |
| BuddyPool.PopKeeps | alarm-buddy/src/lib.rs:258-262 | popping a free list keeps the invariant and leaves the popped block held at its order |
| BuddyPool.PushKeeps | alarm-buddy/src/lib.rs:163-166 | pushing a held block on the list of its order keeps the invariant |
| BuddyPool.HeaderKeeps | alarm-buddy/src/lib.rs:296 | writing an owned block's header keeps the invariant and makes it held |
| BuddyPool.GrowKeeps | alarm-buddy/src/lib.rs:217 | growing the heap by a frame keeps the invariant, and the new frame is owned |
| BuddyPool.RefillKeeps | alarm-buddy/src/lib.rs:205-220 | refilling keeps the invariant |
| BuddyPool.RefillSteps | alarm-buddy/src/lib.rs:208-217 | writing the frame header, pushing it and growing the heap is `Refilled`, and keeps the invariant |
| BuddyPool.HalvesOwned | alarm-buddy/src/lib.rs:370-387 | both halves of an owned block are owned blocks of the order below |
| BuddyPool.SplitOffKeeps | alarm-buddy/src/lib.rs:370-387 | splitting a held block and freeing the upper half keeps the invariant and leaves the lower half held |
| BuddyPool.SplitRound | alarm-buddy/src/lib.rs:272-274 | a split followed by a push takes the split loop down one order |
| BuddyPool.SplitFromKeeps | alarm-buddy/src/lib.rs:264-275 | the whole split loop keeps the invariant and leaves the block held at the requested order |
| BuddyPool.MergeKeeps | alarm-buddy/src/lib.rs:299-302 | one merge round keeps the invariant and leaves the merged block held at the next order, at the lower offset |
| BuddyPool.MergeRound | alarm-buddy/src/lib.rs:299-302 | removing the buddy and merging takes the merge loop up one order |
| BuddyPool.MergeLeavesOthers | alarm-buddy/src/lib.rs:390-400 | a merge changes no header but the merged block's |
| BuddyPool.CoalesceStops | alarm-buddy/src/lib.rs:299-305 | the merge loop stops at the top order, at a block without a buddy, or at a buddy that is not free |
| BuddyPool.CoalesceKeeps | alarm-buddy/src/lib.rs:299-305 | the whole merge loop keeps the invariant and ends with a held block that contains the starting block |
| BuddyPool.FirstNonEmpty | alarm-buddy/src/lib.rs:254-261 | the lowest order from the start whose list is non-empty; every order before it is empty |
| BuddyPool.FirstNonEmptyAt | alarm-buddy/src/lib.rs:254-261 | the order the search loop stops at is `FirstNonEmpty` |
| BuddyPool.FoundFirst | alarm-buddy/src/lib.rs:254-262 | the search stops at the first non-empty list, and popping it keeps the invariant and leaves the block held |
| BuddyPool.FreedKeeps | alarm-buddy/src/lib.rs:291-308 | freeing an owned block keeps the invariant, and the freed memory then lies inside a free block on the list of its order |
| BuddyPool.AllocOutcome | alarm-buddy/src/lib.rs:246-289 | `alloc` on the pool: a refused layout fails with nothing changed; the first non-empty list from the layout's order gives its front block, split down; with none and no frame left, the provider's error with nothing changed; otherwise the refilled pool is tried again. The free-list count and minimum block size never change |
| BuddyPool.AllocOutcomeKeeps | alarm-buddy/src/lib.rs:246-289 | `alloc` keeps the invariant on every path, refills included, and a returned block is held at the order `block_order` gives the layout for the heap size the call started with |
| BuddyPool.AllocFrom | alarm-buddy/src/lib.rs:254-288 | the search of `alloc` with `k` frames left; the minimum block size and the number of free lists never change |
| BuddyPool.AllocRetries | alarm-buddy/src/lib.rs:250-288 | with every list from the layout's order up empty and a frame left, `alloc` is `alloc` on the refilled pool with one frame fewer: the retry's `block_order` gives the same order |
| BuddyPool.SearchStep | alarm-buddy/src/lib.rs:254-288 | with every list from order `mo` up empty and a frame left, the search refills once and searches again |
| BuddyPool.SearchExhausted | alarm-buddy/src/lib.rs:287 | with every list from order `mo` up empty and no frame left, the search fails with the provider's `Exhausted` error and changes nothing |
| BuddyPool.Refilled | alarm-buddy/src/lib.rs:205-220 | a refill grows the heap by exactly one frame and keeps the minimum block size and the number of free lists |
| BuddyPool.RefillsKeep | alarm-buddy/src/lib.rs:205-220 | any number of refills in a row keeps the invariant |
| BuddyPool.SearchRefills | alarm-buddy/src/lib.rs:254-288 | the search refills some `j <= k` times and then either finds a non-empty list from order `mo` up or has no frame left; its result is that of the search after those refills |
| BuddyPool.AllocFromKeeps | alarm-buddy/src/lib.rs:254-288 | the search keeps the invariant on every path, and a block it returns is held at order `mo` |
| BuddyPool.AllocFoundKeeps | alarm-buddy/src/lib.rs:254-277 | when some list from order `mo` up is non-empty, the search succeeds: taking the front block and splitting it down keeps the invariant and leaves the block held at order `mo` |
| BuddyPool.AllocWithFrameSucceeds | alarm-buddy/src/lib.rs:280-288 | a layout `block_order` accepts and no larger than a frame is always served when the provider has a frame left |
| BuddyPool.BlockOrderGrows | alarm-buddy/src/lib.rs:91-131 | a layout accepted by `block_order` keeps its order when the heap grows |
| BuddyPool.BlockSizeAtMostFrame | alarm-buddy/src/lib.rs:91-126 | the block size of a layout no larger than a frame is at most a frame, when the minimum block is |
| BuddyPool.BlockFitsFrame | alarm-buddy/src/lib.rs:91-131 | the order of such a layout is at most the order of a frame, which a refill fills |
| BuddyPool.EmptyHeapRefusesAll | alarm-buddy/src/lib.rs:120-123 | a heap of size 0 refuses every layout with nothing changed, though the provider may have frames: `block_size` checks the heap size before `alloc` can refill |
| BuddyPool.HeldFitsLayout | alarm-buddy/src/lib.rs:246-289 | a block held at the layout's order is aligned as the layout asks, holds its size within the heap, and the layout's bytes overlap no free block |
| BuddyPool.GrowInv | alarm-buddy/src/lib.rs:217 | growing the heap by a frame keeps every free block placed and the heap size a whole number of frames |
| BuddyPool.WasFreeDisjoint | alarm-buddy/src/lib.rs:246-308 | memory that was free, or past the end of the heap, overlaps no owned block |
| BuddyPool.FreesNothingKeepsOwned | alarm-buddy/src/lib.rs:246-289 | a step that frees only memory that was free keeps every owned block owned |
| BuddyPool.PopFreesNothing | alarm-buddy/src/lib.rs:258-262 | taking a block off a free list frees nothing |
| BuddyPool.RefillFreesNothing | alarm-buddy/src/lib.rs:205-220 | a refill frees only the new frame, past the end of the old heap |
| BuddyPool.RefillsFreeNothing | alarm-buddy/src/lib.rs:205-220 | any number of refills frees only memory past the end of the old heap |
| BuddyPool.SplitOffFreesNothing | alarm-buddy/src/lib.rs:370-387 | splitting a taken block that was free memory frees only its upper half |
| BuddyPool.SplitFromHeader | alarm-buddy/src/lib.rs:264-275 | after the split loop the block's header holds the block size of the order the loop stops at |
| BuddyPool.SplitFromFreesNothing | alarm-buddy/src/lib.rs:264-275 | the whole split loop on a taken block that was free memory frees only parts of that block |
| BuddyPool.TakeFreesNothing | alarm-buddy/src/lib.rs:254-277 | taking the front block of a free list and splitting it down frees nothing in use, and the block handed out was free memory |
| BuddyPool.AllocFoundFreesNothing | alarm-buddy/src/lib.rs:254-277 | when a list from the layout's order up is non-empty, the search succeeds with a block that was free memory and frees nothing in use |
| BuddyPool.AllocFromFreesNothing | alarm-buddy/src/lib.rs:254-288 | the search, refills included, frees nothing in use, and a block it hands out was free memory |
| BuddyPool.AllocKeepsOwned | alarm-buddy/src/lib.rs:246-289 | `alloc` keeps a block owned before the call owned, and the block it returns does not overlap it |
| BuddyPool.AllocKeepsAllOwned | alarm-buddy/src/lib.rs:246-289 | the same for every owned block at once: `alloc` keeps all of them owned, and its block overlaps none of them |
| BuddyPool.AllocHeapGrows | alarm-buddy/src/lib.rs:246-289 | `alloc` never shrinks the heap |
| BuddyPool.AllocTwiceDisjoint | alarm-buddy/src/lib.rs:246-289 | after two requests the first block is still owned at its order, so it can be given back, its layout keeps its order on the grown heap, and the second block does not overlap it |
| BuddyPool.PushKeepsOwned | alarm-buddy/src/lib.rs:163-166 | pushing a block keeps owned every block it does not overlap |
| BuddyPool.MergeKeepsOwned | alarm-buddy/src/lib.rs:299-302 | a merge round keeps owned a block that the merged block does not overlap, and the merged block is aligned to its size and still does not overlap it |
| BuddyPool.CoalesceStep | alarm-buddy/src/lib.rs:299-304 | with the buddy free, the merge loop is one merge round followed by the loop one order up at the lower offset |
| BuddyPool.CoalesceKeepsOwned | alarm-buddy/src/lib.rs:299-305 | the whole merge loop keeps owned a block that the block being merged does not overlap, and the merged block does not overlap it |
| BuddyPool.FreedKeepsOwned | alarm-buddy/src/lib.rs:291-308 | `dealloc` of an owned block keeps owned every other owned block that it does not overlap |
| BuddyHeap.Heap.constructor | alarm-buddy/src/lib.rs:56-80 | an empty heap of size 0 with empty free lists over the given frame provider, satisfying the invariant |
| BuddyHeap.Heap.FromPtrSize | alarm-buddy/src/lib.rs:354-363 | writes the header and returns the pointer |
| BuddyHeap.Heap.Split | alarm-buddy/src/lib.rs:370-387 | halves the block's header and writes a header of half the size at block + half, which it returns |
| BuddyHeap.Heap.Merge | alarm-buddy/src/lib.rs:390-400 | returns the lower offset, whose header then holds the sum of the two sizes |
| BuddyHeap.Heap.FindAndRemove | alarm-buddy/src/lib.rs:300 | reports whether the buddy was on the list and, if so, takes its first occurrence off; otherwise nothing changes |
| BuddyHeap.Heap.MergeBuddy | alarm-buddy/src/lib.rs:299-304 | a round of the merge loop is a step of `Coalesce`; without the buddy nothing changes |
| BuddyHeap.Heap.PushBlockOrder | alarm-buddy/src/lib.rs:163-166 | the new state is `PushOrder` |
| BuddyHeap.Heap.PushBlock | alarm-buddy/src/lib.rs:157-160 | pushes on the list of the order the block's header gives |
| BuddyHeap.Heap.Refill | alarm-buddy/src/lib.rs:205-220 | on a provider failure, returns its error with nothing changed; otherwise the state is `Refilled`, the cache holds one frame less, and the invariant holds |
| BuddyHeap.Heap.Alloc | alarm-buddy/src/lib.rs:246-289 | the result and the new state are `AllocOutcome` of the old state and the provider's frame count, so on every path, refills included; the invariant holds and a returned block is held at the layout's order; every block owned before the call stays owned, and a returned block overlaps none of them |
| BuddyHeap.Heap.TakeFree | alarm-buddy/src/lib.rs:254-279 | pops the front of the first non-empty list from the order up and splits it down; with none, nothing changes |
| BuddyHeap.Heap.PopFrontNode | alarm-buddy/src/lib.rs:258-261 | the front block of the order's list, popped, or none with nothing changed |
| BuddyHeap.Heap.SplitDown | alarm-buddy/src/lib.rs:264-275 | the state is `SplitFrom`, the invariant holds and the block is held at the lower order |
| BuddyHeap.Heap.Dealloc | alarm-buddy/src/lib.rs:291-308 | a refused layout is an error with nothing changed; otherwise the state is `Freed`, the invariant holds, and every owned block that does not overlap the freed one stays owned |
| BuddyHeap.Heap.MergeUp | alarm-buddy/src/lib.rs:299-305 | the final state, block and order are `Coalesce` of the starting ones |
| IntrusiveList.Node.TakeLinks | intruder-alarm/src/list/mod.rs:76-78 | returns the node's links and leaves it unlinked |
| IntrusiveList.Links.New | intruder-alarm/src/list/mod.rs:500-505 | both links empty |
| IntrusiveList.Links.Clone | intruder-alarm/src/list/mod.rs:542-547 | a clone is unlinked, whatever it was cloned from |
| IntrusiveList.ChainDeterminedByHead | intruder-alarm/src/list/mod.rs:43-53 | two chains of nodes from the same head are the same sequence |
| IntrusiveList.LastIffNoNext | intruder-alarm/src/list/mod.rs:80-85 | in a list exactly the last node has no `next` |
| IntrusiveList.FirstIffNoPrev | intruder-alarm/src/list/mod.rs:87-92 | in a list exactly the first node has no `prev` |
| IntrusiveList.List.constructor | intruder-alarm/src/list/mod.rs:176-184 | an empty valid list: no head, no tail, length 0 |
| IntrusiveList.List.Len | intruder-alarm/src/list/mod.rs:188-190 | the number of nodes |
| IntrusiveList.List.IsEmpty | intruder-alarm/src/list/mod.rs:194-196 | true exactly when the length is 0, exactly when there are no nodes |
| IntrusiveList.List.Head | intruder-alarm/src/list/mod.rs:207-209 | the first node, none exactly on an empty list |
| IntrusiveList.List.Tail | intruder-alarm/src/list/mod.rs:217-219 | the last node, none exactly on an empty list |
| IntrusiveList.List.Front | intruder-alarm/src/list/mod.rs:335-337 | the first item, none exactly on an empty list |
| IntrusiveList.List.Back | intruder-alarm/src/list/mod.rs:345-347 | the last item, none exactly on an empty list |
| IntrusiveList.List.PushFrontNode | intruder-alarm/src/list/mod.rs:249-264 | the node is prepended and becomes the head; on an empty list it is also the tail, otherwise the tail is unchanged; length + 1; still valid |
| IntrusiveList.List.PushBackNode | intruder-alarm/src/list/mod.rs:267-282 | the node is appended and becomes the tail; the head changes only on an empty list; length + 1; still valid |
| IntrusiveList.List.PopFrontNode | intruder-alarm/src/list/mod.rs:291-305 | removes and returns the head, unlinked, and the rest stays in order with length - 1; none on an empty list |
| IntrusiveList.List.PopBackNode | intruder-alarm/src/list/mod.rs:308-322 | removes and returns the tail, unlinked, and the rest stays in order with length - 1; none on an empty list |
| IntrusiveList.List.OpenCursor | intruder-alarm/src/list/mod.rs:350-355 | a valid cursor on the head |
| IntrusiveList.List.OpenCursorMut | intruder-alarm/src/list/mod.rs:358-363 | a valid mutable cursor on the head |
| IntrusiveList.RemoveKeepsValid | intruder-alarm/src/list/mod.rs:688-722 | unlinking a node and joining its neighbours leaves a valid list of the other nodes |
| IntrusiveList.InsertKeepsValid | intruder-alarm/src/list/mod.rs:725-801 | linking a node in between two neighbours leaves a valid list with the node at that position |
| IntrusiveList.Forward | intruder-alarm/src/list/mod.rs:558-561 | one step forward moves one place, and falls off after the tail, where it stays |
| IntrusiveList.Back | intruder-alarm/src/list/mod.rs:563-566 | one step back moves one place, and falls off before the head, where it stays |
| IntrusiveList.Cursor.MoveForward | intruder-alarm/src/list/mod.rs:558-561 | the cursor's position becomes `Forward` of the old one |
| IntrusiveList.Cursor.MoveBack | intruder-alarm/src/list/mod.rs:563-566 | the cursor's position becomes `Back` of the old one |
| IntrusiveList.Cursor.Get | intruder-alarm/src/list/mod.rs:568-570 | the item at the cursor's position, none off the list |
| IntrusiveList.Cursor.PeekNext | intruder-alarm/src/list/mod.rs:572-574 | the item after the cursor, none at the tail or off the list |
| IntrusiveList.Cursor.PeekBack | intruder-alarm/src/list/mod.rs:576-578 | the item before the cursor, none at the head or off the list |
| IntrusiveList.Cursor.Next | intruder-alarm/src/list/mod.rs:589-593 | yields the item under the cursor, then moves forward |
| IntrusiveList.Cursor.NextBack | intruder-alarm/src/list/mod.rs:602-606 | moves back, then yields the item under the cursor |
| IntrusiveList.Cursor.Collect | intruder-alarm/src/list/mod.rs:581-593 | iterating yields exactly the items from the cursor to the tail, in order, then none |
| IntrusiveList.CursorMut.MoveForward | intruder-alarm/src/list/mod.rs:617-625 | the cursor's position becomes `Forward` of the old one |
| IntrusiveList.CursorMut.MoveBack | intruder-alarm/src/list/mod.rs:627-635 | the cursor's position becomes `Back` of the old one |
| IntrusiveList.CursorMut.Get | intruder-alarm/src/list/mod.rs:637-639 | the item at the cursor's position, none off the list |
| IntrusiveList.CursorMut.PeekNext | intruder-alarm/src/list/mod.rs:641-646 | the item after the cursor, none at the tail or off the list |
| IntrusiveList.CursorMut.PeekBack | intruder-alarm/src/list/mod.rs:648-653 | the item before the cursor, none at the head or off the list |
| IntrusiveList.CursorMut.RemoveNode | intruder-alarm/src/list/mod.rs:688-722 | removes and returns the node under the cursor, unlinked; the others keep their order, length - 1, the cursor is on the old next; off the list nothing changes |
| IntrusiveList.CursorMut.InsertNodeBefore | intruder-alarm/src/list/mod.rs:725-763 | the node is inserted at the cursor's position, which it then occupies; the head moves only when inserting at 0, the tail only when appending; length + 1 |
| IntrusiveList.CursorMut.InsertNodeAfter | intruder-alarm/src/list/mod.rs:766-801 | the node is inserted after the cursor, which stays; it becomes the tail after the tail; off the end it is prepended and becomes the head; length + 1 |
| CursorOps.ForwardNClosedForm | intruder-alarm/src/cursor.rs:29-34 | n forward steps go n places, or stop off the end |
| CursorOps.BackNClosedForm | intruder-alarm/src/cursor.rs:38-43 | n back steps go n places if there are that many before the cursor, otherwise the cursor ends off the list |
| CursorOps.SeekForward | intruder-alarm/src/cursor.rs:29-34 | equals n calls of `move_forward` |
| CursorOps.SeekBack | intruder-alarm/src/cursor.rs:38-43 | equals n calls of `move_back` |
| CursorOps.NextItem | intruder-alarm/src/cursor.rs:58-60 | moves forward, then returns the item after the old position, if any |
| CursorOps.PrevItem | intruder-alarm/src/cursor.rs:65-67 | moves back, then returns the item before the old position, if any |
| CursorOps.FirstMatch | intruder-alarm/src/cursor.rs:112-130 | the first position at or after the start whose item satisfies the predicate, or the length |
| CursorOps.FirstMatchIsFirst | intruder-alarm/src/cursor.rs:112-130 | no item between the start and the first match satisfies the predicate |
| CursorOps.PickPartition | intruder-alarm/src/cursor.rs:135-145 | every element is either removed or kept, exactly once |
| CursorOps.PickExact | intruder-alarm/src/cursor.rs:135-145 | the removed items are exactly those satisfying the predicate, and the kept ones exactly the others |
| CursorOps.PickWithin | intruder-alarm/src/cursor.rs:135-145 | every node `remove_all_nodes` picks is a node of the list |
| CursorOps.SeekMatch | intruder-alarm/src/cursor.rs:112-129 | the scan stops at `FirstMatch` |
| CursorOps.RemoveFirstNode | intruder-alarm/src/cursor.rs:106-131 | removes and returns the first matching node from the cursor on, leaving the rest in order; with no match returns none and leaves the list unchanged; the removed node keeps its item, and no node of the list changes its item |
| CursorOps.RemoveAllNodes | intruder-alarm/src/cursor.rs:135-145 | returns every matching node from the cursor on, in list order, and leaves the others in their order; each returned node was in the list and keeps its item, and no node of the list changes its item |
| CursorOps.Map | intruder-alarm/src/cursor.rs:161-182 | the mapped sequence has the same length and `f` of each element |
| CursorOps.MapInPlace | intruder-alarm/src/cursor.rs:161-182 | rewrites each item from the cursor to the end with `f`, once; the nodes, their order and the items before stay |
| Lifo.Reverse | intruder-alarm/src/stack/mod.rs:31-32 | same length, element k is element |s|-1-k of the input |
| Lifo.ReverseAppend | intruder-alarm/src/stack/mod.rs:249-259 | reversing a + b gives b reversed followed by a reversed, so extending with a and then with b is extending with a + b |
| Lifo.ReverseInvolutive | intruder-alarm/src/stack/mod.rs:262-272 | reversing twice gives the sequence back, so collecting a stack's nodes from top to bottom into a new stack restores the original order |
| Lifo.SNode.TakeNext | intruder-alarm/src/stack/mod.rs:72-74 | returns the next link and leaves the node unlinked |
| Lifo.LifoList.constructor | intruder-alarm/src/stack/mod.rs:85-92 | an empty valid stack or list of length 0 |
| Lifo.LifoList.Len | intruder-alarm/src/stack/mod.rs:96-98 | the number of nodes |
| Lifo.LifoList.IsEmpty | intruder-alarm/src/stack/mod.rs:102-104 | true exactly when there are no nodes |
| Lifo.LifoList.Peek | intruder_alarm/src/singly/mod.rs:107-109 | the first node, none exactly when empty |
| Lifo.LifoList.Top | intruder_alarm/src/singly/mod.rs:167-169 | the first node's item, none exactly when empty |
| Lifo.LifoList.PushNode | intruder-alarm/src/stack/mod.rs:135-141 | the node becomes the first, length + 1, still valid |
| Lifo.LifoList.PopNode | intruder-alarm/src/stack/mod.rs:150-158 | returns the most recently pushed node, unlinked and with its item unchanged, the rest moving up with length - 1; none when empty |
| Lifo.LifoList.Extend | intruder-alarm/src/stack/mod.rs:249-259 | pushes the nodes in iteration order, so they end up reversed on top, length + their number, and no node's item changes |
| Lifo.FromIter | intruder-alarm/src/stack/mod.rs:262-272 | a new stack whose nodes are the iteration reversed, their items unchanged |
| BuddyAsWritten.SplitOrdersAsWritten | alarm-buddy/src/lib.rs:267 | the split range visits no order when the found order is at least the needed one |
| BuddyAsWritten.AllocAsWrittenNeverSplits | alarm-buddy/src/lib.rs:254-278 | as written, `alloc` only pops: the state is `PopFront` |
| BuddyAsWritten.AllocAsWrittenLosesHalf | alarm-buddy/src/lib.rs:267-275 | a 4 KiB request on a free 8 KiB heap is handed all 8 KiB and nothing stays free |
| BuddyAsWritten.AllocSplitKeepsHalf | alarm-buddy/src/lib.rs:264-275 | split as documented, the upper 4 KiB stays free and the invariant holds |
| BuddyAsWritten.DeallocAsWritten | alarm-buddy/src/lib.rs:291-308 | fails exactly when `block_order` does |
| BuddyAsWritten.MergeAsWrittenStaysAtOrder | alarm-buddy/src/lib.rs:299-307 | as written, the merged 8 KiB block goes on the 4 KiB list and the invariant breaks |
| BuddyAsWritten.MergeAsDocumentedRaisesOrder | alarm-buddy/src/lib.rs:299-307 | merged as documented, the 8 KiB block goes on the order-1 list and the invariant holds |
| BuddyAsWritten.HeaderAsWrittenHoldsLayoutSize | alarm-buddy/src/lib.rs:296 | as written, a freed 100-byte block's header says 100 and the invariant breaks |
| BuddyAsWritten.HeaderAsDocumentedHoldsBlockSize | alarm-buddy/src/lib.rs:296 | freed as documented, the header holds the 4 KiB block size and the invariant holds |
| BuddyAsWritten.SplitAsWritten | alarm-buddy/src/lib.rs:375-382 | the new header sits `half` header-sizes past the block and holds half the size |
| BuddyAsWritten.SplitAsWrittenMissesMiddle | alarm-buddy/src/lib.rs:377 | as written, the split-off header lands at or past the end of the block, not at its middle |
| ListAsWritten.InsertNodeBefore | intruder-alarm/src/list/mod.rs:725-763 | as written, on the tail the new node becomes the tail though the old tail follows it; off the end of a non-empty list the node is not linked but the length grows |
| ListAsWritten.InsertNodeAfter | intruder-alarm/src/list/mod.rs:766-801 | as written, on an empty list the node becomes the tail but not the head; off the end of a non-empty list it is not linked but the length grows |

## Left out

- Raw memory is not modelled: byte-level header writes, pointer casts, `NonNull` and `Box` mechanics, and the user data in allocated blocks. Addresses are offsets from a base of 0, and headers are a map from offset to size.
- `LockedAlloc` in alarm-base/src/lib.rs is a spin-mutex wrapper. Concurrency is not modelled.
- alarm_base/src/lend.rs is ownership glue around an external allocator, and is not part of this model.
- The older prototypes are not part of this model: intruder_alarm doubly, its cursor and lib.rs, and intrusive_thought.
- The hal9000 `Page` and `PhysicalAddress` types are not visible. A frame is 4 KiB (`FRAME_SIZE` = 2^12), and the frame type is a parameter of the cache.
- Frames from the provider need not be contiguous in the source. Here each refill adds its frame at offset `heap_size`, the end of the heap.
- `usize` overflow is not modelled: `heap_size += FRAME_SIZE`, `next_power_of_two` and the shifts are on unbounded naturals. `log2` is the exception, modelled on values below 2^64.
- BuddyHeap.Heap.Dealloc: the source panics on a layout `block_order` refuses. Here that is an error result with nothing changed.
- BuddyHeap.Heap.MergeUp: the merge loop also stops at the highest order. The source's loop has no such bound, and needs none, because as written `order` never changes (alarm-buddy/src/lib.rs:293-307). Raising the order after each merge, as documented, would index `free_lists[free_lists.len()]` after a merge at the top order; the bound keeps the documented loop in range.
- BuddyHeap.Heap.constructor: the source takes its free-list slice and parameters from the caller. Here an empty heap is built over a frame cache. The constructor and the pool lemmas require `ParamsOk(m, orders)`: the minimum block is at most a frame, and there is a free list for the order of a frame. The source does not check either. A minimum block larger than a frame makes `order_from_size` (alarm-buddy/src/lib.rs:134-136) underflow on a frame. Too few free lists make `refill`'s `push_block` (alarm-buddy/src/lib.rs:157-166) index `free_lists` past the end. The model excludes both of these misconfigurations and the panics they cause.
- BuddyHeap.Heap.Alloc: the frame provider is the three-slot `FrameCache`. The recursion in `alloc` ends because each refill takes one of its frames.
- BuddyHeap.Heap.Alloc: the model keeps no record of the blocks handed out. "Owned" means aligned, inside the heap and overlapping no free block. `Alloc` keeps every owned block owned (`KeepsOwned`), and the block it returns overlaps none of them (`ApartFromOwned`). The invariant does not say that every byte of the heap is either free or handed out, so a state that has lost memory still satisfies it.
- BuddyHeap.Heap.Dealloc: for the same reason, the precondition "owned at the layout's order" is checked against the free lists only. It accepts a block that was never handed out, as long as no free block overlaps it. The postcondition keeps owned every owned block that does not overlap the freed one, but it does not state that the heap is then covered by free and handed-out blocks.
- `block_size` refuses a rounded size above the current `heap_size`, and `alloc` calls it before it can refill (alarm-buddy/src/lib.rs:120-123, 287). A heap that starts empty therefore refuses every request, whatever frames the provider has. The model keeps this behaviour (BuddyPool.EmptyHeapRefusesAll); a heap serves requests only after `refill`, which is public, has been called directly.
- `heap_size` is documented as a power of two, but `refill` adds a frame each time. The model follows the code and keeps `heap_size` a multiple of a frame. `get_buddy` then has no buddy only for a block as large as the whole heap.
- `find_and_remove`, called by `dealloc`, does not exist on the cursor trait. BuddyHeap.Heap.FindAndRemove models it as `remove_first_node(|b| b == buddy).is_some()` on the free list.
- The `_mut` accessors are not modelled separately from their shared counterparts: `head_mut`, `tail_mut`, `front_mut`, `back_mut`, `peek_mut`, `top_mut`, `get_mut`, `peek_next_mut`, `peek_back_mut`, `next_item_mut` and `prev_item_mut`. They return the same element, writable.
- The `Box`-based `push`/`pop` wrappers and the doubly-linked list's own `Extend`/`FromIterator` are not modelled. They only box an item and call the node operations modelled here.
- The doubly-linked list's `Links::next`/`prev` accessors and `Linked::next`/`prev`/`peek_*` are not modelled separately. Node links are plain fields read directly.
- Lifo.LifoList: the stack and the singly-linked list share one class, because their `new`, `len`, `is_empty`, `peek`, `push_node` and `pop_node` are the same code. `top` (stack) and `front` (singly) are `Top`. The singly-linked list has no `Extend`/`FromIterator`.
- CursorOps.RemoveFirstNode, CursorOps.RemoveAllNodes and CursorOps.MapInPlace (and their specifications CursorOps.SeekMatch, CursorOps.FirstMatch, CursorOps.PickExact and CursorOps.Map): the predicate and `f` are pure functions of the item, so the state an `FnMut` closure keeps between calls is not modelled (a predicate that counts its calls, a map that numbers the items).
- Links.UnsafeRef.Eq: referents are compared with Dafny equality on a memory map, in place of the referent type's own `PartialEq`.
- IntrusiveList.CursorMut.InsertNodeBefore and IntrusiveList.CursorMut.InsertNodeAfter state the corrected behaviour. The source as written is in `ListAsWritten` (see Findings).
- IntrusiveList.CursorMut.InsertNodeBefore and IntrusiveList.CursorMut.InsertNodeAfter, off the end of the list: the documentation (intruder-alarm/src/cursor.rs:147-157) says only "before" and "after the cursor's position". The model treats the off-end position as lying both after the tail and before the head, so inserting before it appends and inserting after it prepends. This placement is the model's own convention and does not come from the source.

## Findings

| source | as written | input that shows it | evidently intended | confidence | as-written member | corrected member |
|---|---|---|---|---|---|---|
| alarm-buddy/src/lib.rs:267 | the split loop ranges over `current_order..min_order`, which is empty because `current_order >= min_order`, so a larger block is handed out whole | a heap with 4 KiB minimum blocks whose only free block is 8 KiB, and a 4 KiB request: all 8 KiB are handed out and nothing stays free | split from `current_order - 1` down to `min_order`, freeing each upper half (lib.rs:231-245, 264-266) | high; not executed | BuddyAsWritten.AllocAsWrittenLosesHalf | BuddyAsWritten.AllocSplitKeepsHalf |
| alarm-buddy/src/lib.rs:299-307 | the merge loop never increments `order`, so the merged block is pushed on the list of the original order | the same heap with its upper 4 KiB free, and the lower 4 KiB given back: the 8 KiB block goes on the 4 KiB list and breaks the per-order invariant | go one order up after each merge | high; not executed | BuddyAsWritten.MergeAsWrittenStaysAtOrder | BuddyAsWritten.MergeAsDocumentedRaisesOrder |
| alarm-buddy/src/lib.rs:296 | `dealloc` writes the header with `layout.size()` rather than the rounded block size | a 100-byte block given back on that heap: its free 4 KiB block's header says 100 | header holds the block size of the layout's order | high; not executed | BuddyAsWritten.HeaderAsWrittenHoldsLayoutSize | BuddyAsWritten.HeaderAsDocumentedHoldsBlockSize |
| alarm-buddy/src/lib.rs:377 | `block.offset(size)` on a `*mut FreeBlock` moves `size` headers, not `size` bytes | any block of at least 2 bytes, with a header of at least 2 bytes: the split-off header lands at or past the block's end | the split-off header at `block + size` bytes, the block's middle (lib.rs:378-386) | medium; not executed | BuddyAsWritten.SplitAsWrittenMissesMiddle | BuddyPool.SplitOffKeeps |
| intruder-alarm/src/list/mod.rs:756-758 | `insert_node_before` with the cursor on the tail makes the new node the tail | a one-node list, cursor on it: the new node, which precedes the old one, becomes the tail | the tail changes only when the node is appended | high; not executed | ListAsWritten.InsertNodeBefore | IntrusiveList.CursorMut.InsertNodeBefore |
| intruder-alarm/src/list/mod.rs:793-797 | `insert_node_after` never sets the head | an empty list: the node becomes the tail and the length 1, but the head stays empty | on an empty list the node also becomes the head | high; not executed | ListAsWritten.InsertNodeAfter | IntrusiveList.CursorMut.InsertNodeAfter |
| intruder-alarm/src/list/mod.rs:743-761 | `insert_node_before` with the cursor off the end of a non-empty list links the node to nothing, adds 1 to the length and moves the cursor onto the node | a one-node list, cursor off the end: the chain from the head still has one node but the length is 2 | the node joins the list, which then has as many nodes as its length says; the model appends it | medium (where the node goes is not documented); not executed | ListAsWritten.InsertNodeBefore | IntrusiveList.CursorMut.InsertNodeBefore |
| intruder-alarm/src/list/mod.rs:784-799 | `insert_node_after` with the cursor off the end of a non-empty list links the node to nothing and adds 1 to the length | a one-node list, cursor off the end: the chain from the head still has one node but the length is 2 | the node joins the list, which then has as many nodes as its length says; the model prepends it | medium (where the node goes is not documented); not executed | ListAsWritten.InsertNodeAfter | IntrusiveList.CursorMut.InsertNodeAfter |
