# Canon-C in Dafny

A Dafny model of the stateful core of Canon-C, a header-only C99 library: the binary min-heap, the fixed-capacity bitset,
the bump arena and the object pool carved from it, integer ranges, diagnostic chains, the string builder, lifetime regions,
and the primitives these rest on. The library's own ACSL contracts prove memory safety and stop before the functional facts:
heap order, minimality of the bitset's searches, the equivalence of its two padding predicates, disjointness of what the
arena hands out, what the bit-counting fallbacks count. Those facts are stated and proved here.

Each mutable struct is a class whose methods follow the C statement by statement. A method is specified by a function on
values (`PriorityQueueState`, `BitsetSpec`, `ArenaModel`, `PoolModel`, `DiagModel`, `StringBufModel`, `RegionModel`), and what
the library promises is proved about those functions, over single calls and over whole runs.

| file | models |
|---|---|
| `Machine.dfy`, `Arithmetic.dfy` | 64-bit `usize` with wrap-around; shared facts about quotients, multiples and element offsets |
| `Bits.dfy`, `BitsFallback.dfy` | words as naturals, bit by bit; the portable bit-counting code of `core/primitives/bits.h` |
| `Memory.dfy` | alignment arithmetic; overlap, copy, move, zero, and the two ways the queue swaps elements |
| `Heap.dfy`, `HeapCost.dfy`, `PriorityQueue.dfy` | `data/priority_queue.h` |
| `Comparator.dfy` | the comparator contract of `core/primitives/compare.h`, against what the queue needs |
| `Bitset.dfy` | `data/bitset.h` |
| `Arena.dfy`, `Pool.dfy` | `core/arena.h`, `core/pool.h` |
| `Range.dfy` | `data/range.h` |
| `CString.dfy`, `Diag.dfy`, `StringBuf.dfy` | NUL-terminated strings, `semantics/diag.h`, `data/stringbuf.h` |
| `Region.dfy` | `core/region.h` |

Conventions:

- Words are naturals below 2^64 and bits are defined by repeated halving; `&`, `|`, `^`, `~` and shifts are functions on them.
  Addresses are integers in a flat 64-bit space, as in the library's verified configuration. Sums and products that the C
  computes in `usize` are wrapped explicitly, but for loop counters, lengths and indices that stay within a buffer.
- Buffers belong to the caller and are arrays. A queue's buffer is an array of elements; `Memory.SwapElements` shows that
  the byte-level swap on such a buffer is that element swap.
- A bitset has two readings: `Raw`, every set bit of its words, and `Members`, those below the capacity. They agree
  exactly when the padding is clean.
- The ghost list of live blocks in the arena is what the caller may still use. A rollback ends the life of every block past
  the mark.

## Where the code and its documentation part

- The header says that bits beyond the capacity are always kept zero (`data/bitset.h:80`), but `bitset_or` does not clear
  padding, and its own contract is silent about it (`data/bitset.h:1156-1172`). The result is padded if and only if this set
  was and the other has no bit in this one's padding (`Bitsets.Bitset.Or`); `BitsetSpec.OrLeavesPaddingDirty` gives two
  one-word sets where it is not. What dirty padding does to the queries is part of their contracts: `FindLast` then misses
  members.
- `pool_init` promises an untouched pool on failure (`core/pool.h:296`). The arena is untouched, but a request that only the
  alignment padding keeps from fitting has stored four fields by then, the arena pointer among them, and left the marks of
  the pool's previous life. `PoolModel.InitFailureTouchesPool` says exactly when, and `PoolModel.InitFailureExample` gives a
  case.
- `core/primitives/compare.h:110-112` gives zero the meaning `a == b` and asks for a total order, and
  `data/priority_queue.h:1009` names a strict weak order; but the three bullets that spell the order out
  (`core/primitives/compare.h:113-116`) are too weak for either, since they leave open how ties compose. A comparator can meet
  all three and yet pushes make a heap whose top is not least (`ComparatorContract.DocumentedOrderIsTooWeak`), and one more
  push makes what is no heap (`ComparatorContract.DocumentedOrderLosesHeap`). Given the bullets as listed, heap order holds
  throughout every run of an initialized queue if and only if the comparator is a total preorder by sign
  (`ComparatorContract.HeapOrderExactly`), and so it is with the top being least (`ComparatorContract.TopIsLeastExactly`). The
  other heap results assume a total preorder.
- The offset is described as the bytes consumed by blocks and padding, and `padding_accum` as the padding since the last reset
  (`core/arena.h:88-89`). `arena_reset_to` rolls the first back and not the second, so the sum need not hold after it:
  undoing an allocation keeps it if and only if the allocation took no padding (`ArenaModel.UndoBalances`);
  `ArenaModel.RollbackBalances` gives the exact condition for every mark, and `ArenaModel.RollbackKeepsPadding` a case.
- The bound under which the queue's child indices do not wrap is stated in its ACSL contract only (`data/priority_queue.h:557`);
  `pq_init` does not check it. It is one stricter than needed: no child index wraps if and only if the capacity is at most
  USIZE_MAX/2 (`PriorityQueues.CapacityBoundIsExact`), and that is what the model requires.

## Model

| member | source | states |
|---|---|---|
| Heap.SiftUpRestores | data/priority_queue.h:784-802 | If the only edge out of order is the one above slot i, and i's children respect i's parent, sift-up from i leaves a heap |
| Heap.SiftUpStep | data/priority_queue.h:784-802 | One swap of sift-up moves the only broken edge to the parent and keeps the grandparent relation there |
| Heap.SiftDownRestores | data/priority_queue.h:826-854 | If only edges below slot i are out of order among the slots from k on, sift-down from i puts all edges from k on in order |
| Heap.SiftDownStep | data/priority_queue.h:826-854 | One swap of sift-down moves the broken edges to the slot below, without breaking any other |
| Heap.SmallestIsLeast | data/priority_queue.h:837-849 | The slot sift-down picks holds an element that is least among the slot's and its children's, and it is the first such slot |
| Heap.FloydRestores | data/priority_queue.h:1022-1032 | From any sequence that is in order from slot k on, the loop down to slot 0 makes the whole a heap |
| Heap.HeapifyRestores | data/priority_queue.h:1013-1035 | Heapify turns any sequence whatever into a heap |
| Heap.HeapifyContents | data/priority_queue.h:1013-1035 | Heapify permutes: no element is lost or duplicated |
| Heap.PushRestores | data/priority_queue.h:1096-1113 | Push keeps heap order |
| Heap.PushContents | data/priority_queue.h:1096-1113 | Push adds exactly one occurrence of the new element |
| Heap.SiftBothRestores | data/priority_queue.h:1283-1284 | Sift-up followed by sift-down from the same slot repairs a heap in which that slot was overwritten, whichever direction is needed |
| Heap.SiftUpOfHeap | data/priority_queue.h:784-802 | Sift-up from any slot of a heap is the identity: ties do not move |
| Heap.SiftDownOfHeap | data/priority_queue.h:1283-1284 | After a successful sift-up the second sift changes nothing: sift-down from any slot of a heap is the identity |
| Heap.RemoveAtRestores | data/priority_queue.h:1263-1287 | Removing any index restores heap order |
| Heap.RemoveAtContents | data/priority_queue.h:1263-1287 | Removing index i takes away exactly one occurrence of the element that was there |
| Heap.PopRestores | data/priority_queue.h:1164-1176 | Pop keeps heap order |
| Heap.PopContents | data/priority_queue.h:1164-1176 | Pop takes away exactly one occurrence of the top |
| Heap.RootIsLeast | data/priority_queue.h:1212-1215 | The top of a heap is a least element of its multiset |
| Heap.DrainSorts | data/priority_queue.h:1164-1176 | Popping a heap until it is empty yields a sorted permutation of it |
| Heap.HeapSort | data/priority_queue.h:1013-1035 | Heapify followed by draining sorts any input |
| HeapCost.Log2IsFloor | data/priority_queue.h:293-297 | The bounds below are in terms of the true floor of the binary logarithm |
| HeapCost.SiftUpBound | data/priority_queue.h:784-802 | Sift-up from i makes at most floor(log2(i+1)) swaps and as many comparator calls |
| HeapCost.SiftDownBound | data/priority_queue.h:826-854 | Sift-down from i of n makes at most floor(log2(n/(i+1))) swaps and twice as many comparator calls |
| HeapCost.HeightSumBound | data/priority_queue.h:297 | The heights of all nodes that have children sum to less than n |
| HeapCost.HeapifyBound | data/priority_queue.h:297 | Heapify of n >= 1 elements makes fewer than n swaps and at most 2n-2 comparator calls: it is linear |
| HeapCost.LevelsAdd | data/priority_queue.h:1283-1284 | The levels above a slot and the levels below it are together at most floor(log2 n) |
| HeapCost.PushBound | data/priority_queue.h:293 | Push stays within floor(log2 n) swaps and as many comparator calls, n counted after it |
| HeapCost.RemoveAtBound | data/priority_queue.h:296 | Removal at any index, with both sifts, stays within floor(log2 n) swaps and 2 floor(log2 n) comparator calls, n counted after it; removing the last element costs nothing |
| HeapCost.PopBound | data/priority_queue.h:294 | Pop of any non-empty queue stays within floor(log2 n) swaps and 2 floor(log2 n) comparator calls, n counted after it |
| PriorityQueueState.StepRefinesBag | data/priority_queue.h:1013-1287 | From a heap, every operation leaves a heap and acts as on a bounded multiset: push adds or is refused when full, pop and peek give a least element, remove takes what was at the index or is refused, heapify takes the elements of the clamped prefix; a refused call changes nothing |
| PriorityQueueState.RunRefinesBag | data/priority_queue.h:1013-1287 | The same at every step of every run |
| PriorityQueueState.RunFromInit | data/priority_queue.h:949-970 | Heap order holds throughout every run that starts with an initialized queue, over any buffer contents |
| PriorityQueueState.PopsDrain | data/priority_queue.h:1164-1176 | As many pops as the queue has elements answer, one each, with the drained heap |
| PriorityQueueState.RunThenDrain | data/priority_queue.h:1164-1176 | At the end of every run from an initialized queue, the answers of that many pops are a sorted permutation of what the queue held |
| ComparatorContract.DocumentedOrderIsTooWeak | core/primitives/compare.h:113-116 | A comparator that meets the three listed clauses, pushes that make a heap for it, and an element less than the top |
| ComparatorContract.DocumentedOrderLosesHeap | core/primitives/compare.h:113-116 | One more push onto that heap leaves what is not a heap |
| ComparatorContract.HeapOrderExactly | core/primitives/compare.h:113-116 | Given the listed clauses, heap order holds throughout every run of push, pop, peek, remove and heapify from an initialized queue if and only if the comparator is a total preorder by sign |
| ComparatorContract.TopIsLeastExactly | core/primitives/compare.h:113-116 | Given the listed clauses, the top is least throughout every such run if and only if the comparator is a total preorder by sign |
| ComparatorContract.TiesDoNotCompose | core/primitives/compare.h:113-116 | Any three elements whose ties do not compose defeat both: a heapified buffer hides a lesser element, and another loses heap order to one removal |
| PriorityQueues.ChildBoundIsExact | data/priority_queue.h:674-684 | The right child's index is right in wrapping arithmetic if and only if i < USIZE_MAX/2, and then the left one is too |
| PriorityQueues.CapacityBoundIsExact | data/priority_queue.h:549-557 | No child index of a queue wraps if and only if its capacity is at most USIZE_MAX/2 |
| PriorityQueues.PriorityQueue.constructor | data/priority_queue.h:949-970 | An empty queue over the caller's buffer, whose bytes are untouched |
| PriorityQueues.PriorityQueue.Compare | data/priority_queue.h:645-650 | The comparator's answer for two live slots, counted as one call |
| PriorityQueues.PriorityQueue.Swap | data/priority_queue.h:737-764 | Exactly two live slots are exchanged; nothing happens and nothing is counted when they are one |
| PriorityQueues.PriorityQueue.SiftUp | data/priority_queue.h:784-802 | The in-place loop computes the specified sift-up of the live slots, at the specified cost, and leaves the slots past them alone |
| PriorityQueues.PriorityQueue.FindSmallest | data/priority_queue.h:837-849 | The branch choice, with child indices in wrapping arithmetic, for one comparator call a child |
| PriorityQueues.PriorityQueue.SiftDown | data/priority_queue.h:826-854 | The in-place loop computes the specified sift-down of the live slots, at the specified cost, and leaves the slots past them alone |
| PriorityQueues.PriorityQueue.Floyd | data/priority_queue.h:1022-1032 | The in-place loop heapifies the live slots at the specified cost |
| PriorityQueues.PriorityQueue.Heapify | data/priority_queue.h:1013-1035 | The length is clamped to the capacity and the prefix heapified, for every length including 0 and 1; the rest of the buffer is untouched |
| PriorityQueues.PriorityQueue.Push | data/priority_queue.h:1096-1113 | Capacity error and no change when full, otherwise the specified push, at the cost of one sift-up |
| PriorityQueues.PriorityQueue.Pop | data/priority_queue.h:1164-1176 | Nothing on an empty queue, otherwise the old top and the specified pop, at its cost |
| PriorityQueues.PriorityQueue.Peek | data/priority_queue.h:1212-1215 | The top without a change, or nothing on an empty queue |
| PriorityQueues.PriorityQueue.SiftBoth | data/priority_queue.h:1283-1284 | Both sifts from one slot in place, at the sum of their costs |
| PriorityQueues.PriorityQueue.Replace | data/priority_queue.h:1279-1284 | The last element moves into the slot and is sifted both ways from there, and the slots past the live ones stay as they were |
| PriorityQueues.PriorityQueue.RemoveAt | data/priority_queue.h:1263-1287 | Range error and no change for an index past the length, otherwise the specified removal, at the cost of both sifts |
| Memory.OverlapIsSharedByte | core/memory.h:210-215 | The comparison of differences is true if and only if neither address is null and some address lies in both regions |
| Memory.SlotsDoNotOverlap | data/priority_queue.h:737-764 | Two different slots of a buffer do not overlap by that same test, wherever the buffer lies: the precondition of the block swap |
| Memory.Copy | core/memory.h:524-529 | For regions that do not overlap: the destination receives the source's bytes and no other byte changes |
| Memory.Move | core/memory.h:553-556 | For any regions, overlapping or not: the destination receives the bytes the source held at the call and no other byte changes |
| Memory.Zero | core/memory.h:582-585 | Exactly the given bytes become zero |
| Memory.SwapThroughBuffer | core/memory.h:838-848 | Three block copies exchange the two regions byte for byte and leave every other byte alone |
| Memory.SwapByteByByte | data/priority_queue.h:752-763 | So does the byte loop for elements too large for the stack buffer |
| Memory.SwapSlotsSwapsElements | data/priority_queue.h:737-764 | Exchanging the bytes of two slots exchanges the two elements of the buffer and leaves every other element and byte alone |
| Memory.SwapElements | data/priority_queue.h:737-764 | Whichever path the element size selects, the buffer's elements are exchanged as the heap's swap says |
| Alignment.PaddingIsLeast | core/primitives/ptr.h:427-429 | For a power of two, the padding brings n to a multiple, is below the alignment, and no address before it is a multiple; for every n, though negation wraps |
| Alignment.PaddingIsZeroExactly | core/primitives/ptr.h:427-429 | No padding if and only if n is aligned already |
| Alignment.AlignUpIsLeast | core/primitives/ptr.h:349-352 | Up to the overflow bound, rounding up gives a multiple in [n, n+align) |
| Alignment.MemAlignRounds | core/memory.h:369-374 | The sentinel is returned if and only if the size is above USIZE_MAX-15; every other result is the size rounded up to a multiple of 16 |
| Alignment.GetAlignmentIsLowBit | core/memory.h:474-481 | `addr & (~addr + 1)` is the power of two of the lowest set bit |
| Alignment.GetAlignmentIsZeroExactly | core/memory.h:474-481 | Only address zero has alignment zero |
| Alignment.GetAlignmentIsGreatest | core/memory.h:474-481 | A power of two divides the address if and only if it is at most the result |
| Bits.PowerOfTwoExactly | core/primitives/ptr.h:276-278 | The bit test is true of exactly the 64 powers of two |
| Bits.MaskIsRemainder | core/primitives/ptr.h:349-352 | For a power of two a, `x & (a-1)` is the remainder and `x & ~(a-1)` the rest |
| Bits.ShrDivides | core/primitives/bits.h:170-172 | Shifting right divides by a power of two, and a bit is the parity of what is left |
| Bits.PopcountCounts | core/primitives/bits.h:404-416 | The halving definition of the population count is the number of positions whose bit is set |
| Bits.CtzIsLeast | core/primitives/bits.h:521-541 | Trailing zeros of a non-zero word index its least set bit |
| Bits.ClzIsGreatest | core/primitives/bits.h:460-481 | 63 minus the leading zeros of a non-zero word indexes its greatest set bit |
| BitsFallback.CountsPairs | core/primitives/bits.h:411 | The first line of the parallel count leaves in every two bits the number set there, without a borrow |
| BitsFallback.CountsNibbles | core/primitives/bits.h:412 | The second line leaves in every four bits the number set there |
| BitsFallback.CountsBytes | core/primitives/bits.h:413 | The third line leaves in every byte the number set there; no nibble sum carries |
| BitsFallback.SumsBytes | core/primitives/bits.h:414 | The wrapping multiplication gathers the sum of the byte counts in the top byte |
| BitsFallback.PopcountFallback | core/primitives/bits.h:410-414 | The whole parallel count, in wrapping arithmetic, is the population count of every 64-bit word |
| BitsFallback.HalveLow | core/primitives/bits.h:530-537 | One step of the search keeps count plus remaining trailing zeros and halves the range the lowest set bit lies in |
| BitsFallback.CtzFallback | core/primitives/bits.h:522-539 | The binary search finds the lowest set bit of every word, and 64 for zero |
| BitsFallback.HalveHigh | core/primitives/bits.h:469-477 | One step of the search from above keeps count plus remaining leading zeros and halves the range the highest set bit lies in |
| BitsFallback.ClzFallback | core/primitives/bits.h:461-479 | The binary search counts the leading zeros of every word, and 64 for zero |
| BitsetSpec.PaddingMeaning | data/bitset.h:360-366 | The masking form of the padding invariant is equivalent to its per-bit meaning: the obligation the header leaves to a manual proof |
| BitsetSpec.PaddingForms | data/bitset.h:262-271 | Equivalently: every set bit is below the capacity, and raw bits and members are one set |
| BitsetSpec.MaskedBits | data/bitset.h:505-511 | The mask on the last word drops exactly the bits at or above the capacity |
| BitsetSpec.StepBits | data/bitset.h:707-1231 | What every operation does to the words, as a set of all their bits, whatever the padding held before: single bits, assign, full, empty, complement, and the bulk operations for operands of any size |
| BitsetSpec.StepRefinesSet | data/bitset.h:707-1231 | From clean padding every operation does to the represented set what its name says below the capacity; the padding is clean afterwards unless it was an `or` with a bit in it, and only then not |
| BitsetSpec.RunRefinesSet | data/bitset.h:80 | After every run of operations on the words, given indices in range and fitting `or` operands, the padding is clear and the words stand for the set that the run computes |
| BitsetSpec.OrLeavesPaddingDirty | data/bitset.h:1173-1185 | Two padded one-word sets whose `or` is not padded: it has no member, yet counts one |
| BitsetSpec.CombineWords | data/bitset.h:1121-1231 | Combining word by word, with missing words as zero, combines bit by bit, for operands of different sizes |
| BitsetSpec.CountNextWord | data/bitset.h:1256-1268 | One more word adds its population count to the size of the set of bits so far |
| Bitsets.LowestFrom | data/bitset.h:1474-1492 | The trailing zeros of a word shifted down lead to the first set bit from that position on, across all later words |
| Bitsets.HighestIn | data/bitset.h:1519-1534 | The leading zeros of a word lead to the last set bit of it and all earlier words |
| Bitsets.EmptyExactly | data/bitset.h:1287-1298 | No bit is set if and only if every word is zero |
| Bitsets.Bitset.constructor | data/bitset.h:562-607 | No bit is set, the padding is clear, and the words past the bitset's are untouched |
| Bitsets.Bitset.Set | data/bitset.h:707-711 | Adds exactly the index |
| Bitsets.Bitset.Clear | data/bitset.h:747-751 | Removes exactly the index |
| Bitsets.Bitset.Toggle | data/bitset.h:787-791 | Changes membership of exactly the index |
| Bitsets.Bitset.Assign | data/bitset.h:860-864 | Adds or removes exactly the index, as the value says |
| Bitsets.Bitset.Test | data/bitset.h:813-817 | Decides membership |
| Bitsets.Bitset.ClearPadding | data/bitset.h:505-511 | Drops exactly the bits at or above the capacity, and establishes the padding invariant |
| Bitsets.Bitset.ClearAll | data/bitset.h:901-904 | No bit is left, padding included |
| Bitsets.Bitset.SetAll | data/bitset.h:938-942 | The set is everything below the capacity and the padding is clear |
| Bitsets.Bitset.Complement | data/bitset.h:1019-1038 | The set is the complement below the capacity and the padding is clear, whatever it was before |
| Bitsets.Bitset.Gates | data/bitset.h:1121-1231 | The loop the bulk operations share combines the words both operands have and leaves the others, though the operands may share them |
| Bitsets.Bitset.And | data/bitset.h:1121-1143 | Intersection, for operands of different sizes and for operands that share words |
| Bitsets.Bitset.Or | data/bitset.h:1173-1185 | Union with the part of the other set that fits these words; padded if and only if this set was and the other has no bit in this set's padding |
| Bitsets.Bitset.Xor | data/bitset.h:1218-1231 | Symmetric difference below the capacity, with clear padding whatever the other set holds |
| Bitsets.Bitset.Count | data/bitset.h:1256-1268 | The number of set bits; with clear padding the cardinality of the set, hence at most the capacity; the running total never wraps |
| Bitsets.Bitset.IsEmpty | data/bitset.h:1287-1298 | True if and only if no bit is set |
| Bitsets.Bitset.IsFull | data/bitset.h:1316-1319 | With clear padding, true if and only if the set is everything below the capacity |
| Bitsets.Bitset.IsDisjoint | data/bitset.h:1335-1349 | True if and only if the two have no common bit, for operands of different sizes |
| Bitsets.Bitset.FindFirst | data/bitset.h:1419-1433 | The least member, or the sentinel if and only if there is none |
| Bitsets.Bitset.FindFrom | data/bitset.h:1426-1432 | The loop over the words from a given one on finds the least member from there, given nothing is set between the start and that word |
| Bitsets.Bitset.FindNext | data/bitset.h:1466-1493 | The least member above `prev`, or the sentinel when there is none, for every `prev` up to USIZE_MAX |
| Bitsets.Bitset.FindLast | data/bitset.h:1519-1534 | The greatest member; the sentinel if and only if there is none or the padding is dirty |
| Bitsets.Bitset.ForEach | data/bitset.h:1800-1803 | The loop ends, and visits exactly the members, each once, in strictly increasing order |
| ArenaModel.GuardIsExact | core/arena.h:129-135 | For every capacity the address space allows, the three-part guard in wrapping arithmetic refuses if and only if offset + pad + size exceeds the capacity over the integers |
| ArenaModel.AllocPlaces | core/arena.h:424-450 | A block lands at the first aligned address at or after the bump pointer, and the accumulated padding grows by exactly the bytes skipped; a call is refused if and only if it asks for nothing or does not fit, and then nothing changes |
| ArenaModel.StepKeepsInvariant | core/arena.h:424-450 | Allocation, rollback and reset keep every live block inside the used part, aligned as requested, and before the next |
| ArenaModel.RunKeepsInvariant | core/arena.h:367-691 | So does every run of them |
| ArenaModel.LiveBlocksAreDisjoint | core/arena.h:367-450 | Hence live blocks are inside the buffer and pairwise disjoint |
| ArenaModel.MarkProtects | core/arena.h:666-691 | In every run that never goes below a mark, blocks from before it stay live and disjoint from all later ones, and rolling back to it leaves exactly them |
| ArenaModel.RollbackAndReset | core/arena.h:298-304 | A rollback leaves the accumulated padding alone; a full reset leaves the arena as initialized, from any state |
| ArenaModel.RollbackBalances | core/arena.h:88-89 | From a state whose offset is the live bytes plus the accumulated padding, a rollback keeps that balance if and only if the padding it gives back is as much as it leaves of the block it cuts; at a mark that cuts no block, if and only if the blocks it releases touch each other from the mark up to the offset |
| ArenaModel.GaplessIsNoGaps | core/arena.h:686-691 | At such a mark nothing is cut, and the released blocks touch if and only if no padding is given back |
| ArenaModel.UndoBalances | core/arena.h:424-450 | Rolling back to just before an allocation keeps the balance if and only if the allocation took no padding |
| ArenaModel.RollbackKeepsPadding | core/arena.h:88-89 | A concrete rollback to a block boundary after which the balance is off |
| ArenaModel.StepBalances | core/arena.h:88-89 | Allocations, refused or not, and full resets always keep the balance, partial rollbacks under exactly that condition |
| ArenaModel.RunBalances | core/arena.h:88-89 | So does every run whose rollbacks meet it |
| Arenas.Arena.constructor | core/arena.h:267-280 | An empty arena over the caller's buffer, for every value of the size limit |
| Arenas.Arena.AllocAligned | core/arena.h:424-450 | The guards and updates in `usize` do exactly what the model's allocation does; offset and padding grow by the bytes skipped and the block, or not at all |
| Arenas.Arena.Alloc | core/arena.h:367-392 | The same at the default alignment |
| Arenas.Arena.AllocAlignedZero | core/arena.h:483-487 | The same, with the new block's bytes zeroed and no other byte touched, so no live block changes |
| Arenas.Arena.Reset | core/arena.h:298-304 | All blocks end, the whole buffer is free, and no padding is counted |
| Arenas.Arena.Mark | core/arena.h:666-668 | The mark is the bump pointer |
| Arenas.Arena.ResetTo | core/arena.h:686-691 | Blocks past the mark end, the others stay, the padding count stays, and the invariant holds |
| PoolModel.InitReserves | core/pool.h:320-366 | Initialization fails if and only if the size has no 16-byte multiple or padding and slots do not fit; success reserves them as one more live block of the arena, failure leaves the arena unchanged |
| PoolModel.InitFailureTouchesPool | core/pool.h:296-359 | A failed initialization leaves the pool untouched if and only if it is turned down before the reservation or the pool held the values already; otherwise arena, size, capacity and count are the new ones and the marks the old |
| PoolModel.PaddingAloneFails | core/pool.h:348-359 | A request for exactly the bytes left overwrites those four fields and fails whenever the bump pointer is not aligned |
| PoolModel.InitFailureExample | core/pool.h:348-359 | A concrete request for which the documented promise fails |
| PoolModel.AllocHandsOut | core/pool.h:401-412 | A slot is handed out if and only if some are left; it lies in the region behind every slot in use, and the first is the region's start; otherwise nothing changes |
| PoolModel.GetAnswers | core/pool.h:549-565 | pool_get answers if and only if the index is below the number of slots in use, with the region's start plus that many strides |
| PoolModel.SlotsAreSeparate | core/pool.h:401-412 | Slots have equal stride, are aligned, lie in [base_mark, end_mark), and each ends before the next begins |
| PoolModel.ResetLandsOnSameRegion | core/pool.h:742-766 | The rollback and the reservation after it need no padding and land on the same base and end marks; the blocks before the region stay, the ones after it end |
| PoolModel.ResetRecovers | core/pool.h:742-766 | Even when the arena was rolled back into the region, a reset reserves all of it again at the same place |
| PoolModel.StepKeepsPool | core/pool.h:86-93 | Any call on the pool, and any arena call that does not roll back below the pool's end, keeps the region, its stride, and everything before it |
| PoolModel.RunKeepsPool | core/pool.h:86-93 | So does every run of them; only the count of slots in use changes, and it is the number handed out since the last reset |
| PoolModel.RegionIsExclusive | core/pool.h:86-93 | While that holds, no other live block of the arena reaches into the region |
| PoolModel.GetFindsAllocated | core/pool.h:549-565 | At any point of any run, the slot pool_alloc handed out as the i-th is what pool_get(i) finds for as long as i counts as handed out |
| PoolModel.GetOverRun | core/pool.h:549-565 | At the end of every run pool_get answers exactly for the slots handed out since the last reset |
| Pools.Pool.Init | core/pool.h:320-366 | Succeeds with a usable pool whose region is exclusively its own, or fails with the arena as it was and the pool fields, its arena pointer included, as specified for each failure path |
| Pools.Pool.Alloc | core/pool.h:401-412 | Answers if and only if a slot is left, with a slot inside the buffer behind every slot in use |
| Pools.Pool.AllocZero | core/pool.h:433-438 | The same, with exactly that slot's bytes zeroed |
| Pools.Pool.Get | core/pool.h:549-565 | Answers if and only if the index is in use, with the slot at that index, inside the region: the run-time range check never fires |
| Pools.Pool.Reset | core/pool.h:742-766 | No slot is in use, the other fields are as before, the arena's offset is the pool's end mark, and the region is exclusive again |
| Pools.Pool.ZeroUsed | core/pool.h:790-800 | Exactly the bytes of the slots in use become zero |
| Pools.Pool.ResetSecure | core/pool.h:790-800 | The same, with exactly the bytes of the slots in use zeroed |
| Ranges.ValuesExactly | data/range.h:360-365 | For every start, end and non-zero step there is a k-th value if and only if start + k * step lies before the end in the direction of the step |
| Ranges.ValuesAreSteps | data/range.h:452-486 | The k-th value of iteration is start + k * step |
| Ranges.ValuesCount | data/range.h:452-486 | The number of values is (distance - 1) / abs(step) + 1 over the integers |
| Ranges.NextDropsFirst | data/range.h:623-645 | A guarded step drops exactly the first of the values still to come |
| Ranges.NextsMove | data/range.h:730-771 | n guarded steps drop the first n values, move n strides, and end at the range's end once exhausted |
| Ranges.Range.constructor | data/range.h:228-233 | A zero step becomes 1; nothing else is changed |
| Ranges.Range.IsEmpty | data/range.h:360-365 | True if and only if no value is due |
| Ranges.Range.Len | data/range.h:452-486 | Exactly the number of values iteration yields, for every range, and no machine intermediate overflows |
| Ranges.Range.Next | data/range.h:623-645 | Yields the first value due; an addition that would overflow exhausts the range, and that is right |
| Ranges.Range.Reset | data/range.h:674-676 | Only the current value changes |
| Ranges.Range.Skip | data/range.h:730-771 | In constant time the same state as n guarded steps, for every n, and no machine intermediate overflows |
| Ranges.Range.Jump | data/range.h:755-770 | An offset up to USIZE_MAX is applied in two signed steps without overflow |
| Ranges.Range.ForEach | data/range.h:816-825 | The loop ends, having visited exactly the range's values in order |
| DiagModel.PushesKeepLast | semantics/diag.h:417-491 | After any pushes the chain is exactly the last min(k, N) frames pushed, in order |
| DiagModel.DropsFromFull | semantics/diag.h:417-491 | Push k reports a drop if and only if N frames were there already |
| DiagModel.DecimalReadsBack | semantics/diag.h:998-1005 | The digits printed for an index or a line number stand for that number |
| DiagModel.NoLeadingZero | semantics/diag.h:998-1005 | They start with a zero only for zero |
| DiagModel.SignedReadsBack | semantics/diag.h:998-1005 | The error code prints as its sign, if negative, and its digits |
| DiagModel.FrameReads | semantics/diag.h:998-1005 | A frame's text starts with index, file and line, goes on with function and code, and ends in the quoted message, each with its fallback |
| DiagModel.IndexReadsBack | semantics/diag.h:998-1005 | The index can be read back from between the brackets |
| DiagModel.FullFrame | semantics/diag.h:998-1005 | One frame, character by character |
| DiagModel.LineEnds | semantics/diag.h:998-1005 | In diag_render each frame's text is followed by one newline |
| DiagModel.ChainTextNext | semantics/diag.h:968-1012 | The text of one frame more is the text so far followed by that frame's line |
| DiagModel.CutEnds | semantics/diag.h:934-1015 | What fits in the buffer is a prefix of the text as long as possible and then a NUL |
| DiagModel.CutIsWhole | semantics/diag.h:934-1015 | The buffer holds the whole text if and only if the text is shorter than the buffer |
| Diags.Diag.constructor | semantics/diag.h:300-311 | An empty chain |
| Diags.Diag.Clear | semantics/diag.h:337-342 | An empty chain, whatever stale frames remain |
| Diags.Diag.DropOldest | semantics/diag.h:438-444 | The shift drops the oldest frame and keeps the others in order |
| Diags.Diag.MessageLength | semantics/diag.h:467-483 | The scan finds the longest NUL-free prefix that fits, reading no further |
| Diags.Diag.Push | semantics/diag.h:417-491 | The frame is appended with its message cut to the longest NUL-free prefix of at most M-1 bytes, the oldest goes when the chain is full, and the answer says whether it did |
| Diags.Diag.Store | semantics/diag.h:459-488 | The slot past the last frame becomes the new frame, and its message reads as the given text whatever stale bytes lay there |
| Diags.Diag.RenderFrame | semantics/diag.h:822-864 | The buffer holds the frame's text cut to its size, with a NUL right behind it, and the result is the full length; nothing happens for size 0 |
| Diags.RenderNext | semantics/diag.h:982-1011 | One iteration appends the text as far as there is room, also when none is left, and adds its full length |
| Diags.RenderLine | semantics/diag.h:968-1012 | The turn for frame i appends its line to what the buffer shows, cut to the buffer, and adds its full length |
| Diags.Diag.RenderFrames | semantics/diag.h:968-1012 | The loop leaves the concatenation of all lines, cut to the buffer, and returns its full length |
| Diags.Diag.Render | semantics/diag.h:934-1015 | The buffer is the concatenation of all rendered frames cut to its size with a NUL right behind it, nothing further changes, and the result is the untruncated length |
| Diags.Diag.RenderWith | semantics/diag.h:934-1015 | The same for frames rendered in any format |
| Diags.Diag.FrameAt | semantics/diag.h:603-609 | The i-th frame of the chain, oldest first, or nothing |
| Diags.Diag.Latest | semantics/diag.h:649-655 | The frame pushed last, or nothing |
| StringBufModel.StepRefinesText | data/stringbuf.h:236-239 | Every operation keeps len < capacity and the NUL at len; an append adds the bytes the source held at the call, wherever they lie, or changes nothing; a failed formatting changes no text |
| StringBufModel.RunRefinesText | data/stringbuf.h:236-239 | So does every run, and its text is what operations on text alone give, each with the bytes its source held when it was called |
| StringBufModel.OwnText | data/stringbuf.h:604-620 | A source within the buffer's own text holds that part of the text |
| StringBufModel.TruncateUndoesAppend | data/stringbuf.h:1405-1410 | Truncating to the old length undoes an append |
| StringBufModel.AppendOwnTail | data/stringbuf.h:604-620 | Appending from the buffer's own tail, which the append overwrites, is exact |
| StringBufs.StringBuf.constructor | data/stringbuf.h:515-530 | An empty, terminated string in the caller's buffer |
| StringBufs.StringBuf.AppendBytes | data/stringbuf.h:604-620 | Succeeds if and only if the bytes and a NUL fit; the text is then followed by the bytes the source held at the call, overlapping or not, and otherwise nothing changes |
| StringBufs.StringBuf.Append | data/stringbuf.h:666-673 | The same for a C string |
| StringBufs.StringBuf.AppendN | data/stringbuf.h:973-995 | The same for at most n characters of one, and success without a change when there are none |
| StringBufs.StringBuf.AppendChar | data/stringbuf.h:752-768 | Appends one character, or fails without a change |
| StringBufs.StringBuf.AppendFormat | data/stringbuf.h:818-864 | Succeeds if and only if both passes agree and the text fits; otherwise the text is as before and still terminated |
| StringBufs.StringBuf.Clear | data/stringbuf.h:1369-1374 | The empty string, terminated |
| StringBufs.StringBuf.Truncate | data/stringbuf.h:1405-1410 | The prefix of the given length, or no change when it is not shorter |
| StringBufs.StringBuf.Remaining | data/stringbuf.h:1294-1301 | The greatest length for which an append succeeds |
| StringBufs.Scan | data/stringbuf.h:973-995 | The counted prefix is the C string within the first n characters, and nothing past it is read |
| RegionModel.UnwindLeavesArena | core/region.h:417-428 | If every hook called leaves the attached arena meeting its invariant, the loop does |
| RegionModel.UnwindCalls | core/region.h:546-560 | The calls are exactly the hooks registered when the close began, last first, save those nulled before their turn |
| RegionModel.LastFirstDecreases | core/region.h:546-560 | Each comes from a lower slot than the one before, so none is called twice |
| RegionModel.LastFirstComplete | core/region.h:546-560 | A hook is called if and only if it was registered at the start and not nulled before its turn |
| RegionModel.UnwindReplays | core/region.h:546-560 | The world the loop leaves is that of really calling the listed hooks in their order, each on what the one before it left, and clearing each slot after its call |
| RegionModel.NulledExactly | core/region.h:546-560 | A hook counts as nulled if and only if its slot holds none by the time the loop gets to it |
| RegionModel.EndCloses | core/region.h:515-570 | Whatever the hooks do within their rule, and if there are none: the calls are as above for every slot, and afterwards the region is closed and holds no hook and no arena, and the arena attached at entry is empty and meets its invariant |
| RegionModel.EndRunsHooks | core/region.h:515-570 | What the calls leave is left alone by the close, but for the attached arena, which is reset, and the region's own fields: the rest of the world, the cleanup table and every other arena are as the last hook left them |
| RegionModel.EndFoldsHooks | core/region.h:515-570 | Hooks that act on their own state only obey the rule, null none of each other, and leave their state as the fold of their effects over the calls |
| RegionModel.RegistrationsFill | core/region.h:651-664 | Registrations fill the table in order until it is full; further ones are refused |
| RegionModel.CloseRunsInReverse | core/region.h:515-570 | A region begun, filled with registrations, and closed runs them in exact reverse order when none is nulled |
| RegionModel.CloseFoldsHooks | core/region.h:515-570 | For such hooks, begun, registered and closed: all of them run, last first, and their state is folded in that order |
| Regions.Region.Begin | core/region.h:459-464 | An open region with a cleared table and no arena |
| Regions.Region.AttachArena | core/region.h:602-607 | The arena to empty at the close is replaced by one that meets its invariant, and region_invariant holds |
| Regions.Region.Register | core/region.h:651-664 | Succeeds if and only if a slot is free; the hook then takes the next one, and otherwise nothing changes |
| Regions.Region.VisitSlot | core/region.h:547-559 | The hook is called on the world as it is, and its slot cleared in the world it leaves |
| Regions.Region.Turn | core/region.h:546-560 | One turn of the loop makes the call the specification makes there, if any, and leaves the rest of it to do |
| Regions.Region.RunHooks | core/region.h:546-560 | The downward loop over a table the hooks may change makes the specified calls and leaves the specified world |
| Regions.Region.End | core/region.h:515-570 | The close leaves the specified world, with the arena taken from the region before any hook ran, and a closed region without arena or hooks |

## Left out

- NULL-argument branches, the require_msg handlers and the contract error they raise; non-null and in-range arguments that the library demands of its callers are preconditions.
- CANON_LIFETIME_DEBUG tokens, borrowed views, region ids and parents, and the assertions on stale borrows.
- The typed wrappers of DEFINE_PRIORITY_QUEUE, the bool-returning and option-returning variants of the functions above, and the bytes_t views.
- The comparator's context argument: a comparator is a function of two elements.
- StringBufs.StringBuf.AppendFormat: vsnprintf itself; its two passes are an arbitrary pair of results, and only a complete conversion is known to end in a NUL.
- Diags.Diag.Push: a message that lies in the chain itself, which the shift would move, is not modelled: messages are values.
- The `FILE*` sink diag_print.
- Diags.Diag.Render: texts whose length an `int` cannot hold, negative snprintf results, and totals beyond USIZE_MAX are excluded by precondition.
- Diags.Diag.RenderFrame: the same for the single frame.
- Arenas.Arena.constructor: the check against CANON_ARENA_MAX_SIZE, a macro a build may set; nothing here depends on its value.
- Regions.Region.RunHooks: hooks are functions of a modelled world (the region, the arenas' states, an arbitrary rest), and the hook rule is required of the calls actually made; a hook that ends the region again or moves it is outside the rule.
- Regions.Region.Begin: the table is allocated with the region instead of being an inline array of it, with every slot cleared.
- PoolModel.InitReserves: a zero object size or count, which the header forbids, is a precondition.
- Ranges.Range.constructor: a step of ISIZE_MIN, whose negation overflows, is excluded.
- StringBufs.StringBuf.constructor: a buffer of one byte, which the header forbids; arena-backed construction and append_str, which append_bytes covers, are not separate members.
- Memory.Zero: mem_secure_zero has the same effect; that its stores survive optimization is not modelled.
- PriorityQueues.PriorityQueue.Push: element bytes are values; the byte-level buffer appears in Memory.SwapElements only.
- The arena's statistics and its try_alloc variants; free-store allocation, mem_compare and mem_is_all.
- Compiler builtins for bit counting are taken to compute the mathematical functions that the fallbacks are proved to compute.
- Files, time, queue, stack, array, slice, ownership and scope macros, borrow tokens, the error table, and repository tooling.
