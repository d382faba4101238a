# GiOS kernel algorithms, verified in Dafny

GiOS is a small x86 kernel in freestanding C. This project models the stateful
algorithms underneath its drivers and proves what they are for: the red-black
tree, the buddy allocator, the timer queue, the slab allocator, scatterlists and
virtqueues, the PCI capability walk, the boot page tables, and integer text.

`dafny verify dfyconfig.toml` checks everything. There are no assumptions.

## How it is organised

Each algorithm has a pure part, which says what the result means, and an
imperative part with the C code's own loops, fields and arrays, proved against it.

| Files | What is modelled |
|---|---|
| `RedBlackShape.dfy`, `RedBlackTree.dfy`, `PackedWord.dfy` | Trees with one-hole contexts and the insertion fix-up as a function on them; the pointer code over heap nodes with a ghost tree; parent and colour packed into one word |
| `BuddyShape.dfy`, `BuddyTree.dfy`, `BuddySystem.dfy`, `BuddyLookup.dfy` | The meaning of the 4095 bits of a tree; one tree as 512 bytes with its explicit-stack search and merging climb; all regions, sizes and addresses; freeing by address as written |
| `TimerSpec.dfy`, `TimerQueue.dfy` | A machine over whole runs of Add, Tick and Fire; the linked list, slot bitmap and one-shot hardware counter that refine it |
| `SlabAllocator.dfy` | First-fit run search in packed bitmaps over a linked list of pages |
| `Scatterlist.dfy`, `VirtioQueue.dfy`, `VirtioKick.dfy` | Flag-carrying words and their iterator; descriptor chains in a circular table and the two rings; what a kick publishes |
| `PciCapabilities.dfy` | The bounded walk over a list that may be cyclic |
| `PageTables.dfy` | The loops of `page_init` and the table walk of the processor |
| `IntegerText.dfy`, `TextMeaning.dfy`, `OctalText.dfy` | Printing with in-place reversal, parsing with base prefixes, 32-bit wrap-around; the meaning of the texts in characters; what becomes of octal texts |
| `BitWords.dfy`, `Powers.dfy`, `Mods.dfy`, `Wrappers.dfy` | Bits in bytes and words, powers of two, remainders, `Option` |

## Main results

* **Red-black tree.** Starting from one possible red-red edge the fix-up restores
  all three red-black properties, each recolouring pass moving the edge exactly two
  levels up; parents stay the inverse of children; the in-order sequence is the old
  one with the new node before the first key that is not smaller; the height is at
  most 2 * log2(n + 1).
* **Buddy allocator.** A bit is set exactly above live blocks, so the bits are a
  function of the live blocks whatever the history; the search is sound and
  complete, takes the free block that comes before all others (where the ways to two
  blocks part, the right side if it is in use, else the left), and needs at most as
  many stack slots as the depth asked for; freeing
  undoes allocating bit for bit; any two live blocks occupy disjoint addresses, each
  aligned to its size; and `buddy_free` as written is right under an exact condition.
* **Timer queue.** The list code, driven by any possible run, computes exactly the
  run of a simple machine; read off the event list alone, every callback asked for is
  made once, exactly when the delay asked for has passed, ties in request order; the clamp in `queue_sub_timer` is never taken; all
  slots used lie in the one page obtained if and only if never more than 256 timers wait.
* **Slabs.** Every block is the first fit, blocks are disjoint, the inexact free
  counter never hides a page with room.
* **Virtqueue.** The chain read back by a device is the scatterlist; the next
  descriptor stays in step with the 16-bit index exactly when the size divides
  65536; a kick publishes the heads enqueued exactly when there was at most one
  buffer, of one entry; single buffers come back first in, first out for as long as
  `num_heads` announces them, which ends exactly when the device's counter wraps.
* **PCI.** The walk of 48 steps finds a capability if and only if it is listed, on
  every configuration space, and 47 steps would not do.
* **Paging.** The translation of all 2^32 addresses after `page_init`.
* **Integers.** `atoi` undoes `itoa` on every i32, and prefixed base 16 and base 2
  texts parse back; texts are minimal and fit `printk`'s buffers; the inputs that
  divide by zero, and the octal texts that are read as meant, are determined exactly.

## What the code does otherwise than one would expect

* `buddy_tree_free_addr` looks up node 4096 + k for page k of a region: 2049 too
  high for every address and beyond the last node (`BuddySystem.LookupMissesTree`).
  Its first test therefore reads bit k of the next region's tree, and the climb goes
  on from the leaf of page (k + 1) / 2. The right block is released, and nothing else
  touched, exactly when that bit is clear, the block is not the whole region, and it
  contains page (k + 1) / 2 (`BuddyLookup.BuddyFreeExactly`); for the address that
  `buddy_alloc` returned the last part means that the block starts at page 0 or 1
  (`BuddyLookup.StartPages`). The allocator's own block takes three pages after
  `page_init`'s call for 128 MB, so from then on no other block of region 0 is released
  by its address (`BuddyLookup.FirstRegionMissed`); `BuddyLookup.PageNeverReleased`
  is that run with one page allocated, at 0x1004000, and freed. `BuddySystem.System.BuddyFreeAt` shows that the
  corrected index `LeafOf` would always do, but for whole regions.
* The same climb stops before node 0, so a block that is a whole 8 MB region is
  not released; the contracts of `FreeFromLeaf` and `BuddyFree` say so.
* `init_buddy_system` counts its regions from the memory size but lays them out from
  16 MB on: with whole regions of memory exactly the last two lie beyond it
  (`BuddySystem.System.LastTwoRegionsBeyond`).
* `get_base_` announces base 8 after a leading 0, but `atoi` then reads decimal
  digits: "010" is 10 (`OctalText.OctalEight`), and an octal text is read as the
  number meant if and only if that number is below 8 (`OctalText.OctalExactly`).
* A stray character in a hexadecimal divides 0 by the value read so far. The result
  is 0, or a division by zero (modelled as `None`; undefined in C, so that a compiler
  may as well fold it to 0) exactly when the digits before it are worth 0 modulo 2^32
  (`IntegerText.DividesByZeroExactly`); "0xg" is such an input
  (`IntegerText.DividesByZeroInput`). Overflow of the i32 accumulators, undefined in C
  too, is modelled as wrap-around.
* `itoa` returns the position of the digits, which for a negative decimal lies behind
  the sign (`IntegerText.Itoa`).
* `virtio_queue_kick` advances the available index by descriptors, not by chains as
  section 2.4.6 of VIRTIO 1.0 has it, and a second enqueue before a kick writes the
  same ring slot. `kernel/drivers/virtio/virtio_block.c:122-144` enqueues lists of
  several entries. The device takes the heads that were enqueued if and only if there
  was at most one buffer, of one entry (`VirtioKick.Publish`); for a longer list it
  also takes what the ring held before (`VirtioKick.PublishOne`, `ThreeEntries`), and
  of two buffers before one kick it takes the second first or twice
  (`TwoBeforeKick`, `SecondHidesFirst`).
* `virtio_queue_num_heads` compares 16-bit counters without regard to wrapping: it is
  right if and only if both counts lie in the same pass of 65536
  (`VirtioQueue.Queue.HeadsAcrossWrap`). Once the device has completed 65536 buffers
  it is 0 for good (`FifoHeads`, `LastBufferEver`).
* `virtio_queue_dequeue` writes beyond the list it made exactly when the chain has
  more descriptors than `num_heads` announces, for instance for a chain of two that a
  device has reported as one completion (`VirtioQueue.ChainOverruns`).
* `timer_init` clears one byte of the slot bitmap, because
  `BITMAP_SIZE * sizeof(u32)` expands to `4096 / 16 >> 2 * 4`, which is 1. The start
  state holds at boot because the bitmap is zero then; in general exactly when no
  slot from 8 on was in use (`TimerQueue.Queue.TimerInit`).
* The bitmap has 2048 slots and the page obtained holds 256 entries
  (`TimerQueue.Queue.Replay` says when that matters, `TimerQueue.PageOverflows` gives
  257 timers at once as a run in which it does); with all 2048 in use
  `new_timer` writes through a null pointer (`NewTimer` returns false).
* `struct mem_list_node` is 4160 bytes and is placed in a page of 4096: a block lies
  inside the page if and only if it leaves the last eight slabs alone, and any other
  block reaches into the header of a node in the page behind
  (`SlabAllocator.InsidePage`); `SlabAllocator.SecondLeavesPage` is a run of two requests
  that does.
* A comment at `kernel/drivers/pci/pci.c:646` speaks of three reserved bits; the
  code masks two, and so does the model.
* `lzcnt` is modelled as the index of the highest set bit, which is what the size
  arithmetic at `kernel/arch/x86/page.c:384-388` needs.

## Model

| member | source | states |
|---|---|---|
| `RedBlackShape.RecolourStep` | libc/rbtree.c:37-57 | A recolouring pass keeps every red-black property except one possible red-red edge, which is now exactly two levels nearer the root |
| `RedBlackShape.RotateStep` | libc/rbtree.c:59-123 | Single and double rotations, both mirrored ways, remove the last red-red edge, keep the subtree balanced and raise its black height to what its context expects |
| `RedBlackShape.FixUpRedBlack` | libc/rbtree.c:6-216 | From a tree with one possible red-red edge the fix-up ends with a black root, no red node with a red child, and equal black counts on all paths |
| `RedBlackShape.StepInOrder` | libc/rbtree.c:59-123 | Neither rotations nor recolouring reorder the nodes of the subtree |
| `RedBlackShape.FixUpInOrder` | libc/rbtree.c:6-216 | The whole fix-up leaves the in-order sequence of nodes unchanged |
| `RedBlackShape.RedBlackPlug` | libc/rbtree.c:21-22 | A tree is red-black exactly when its part below a hole and its context fit each other, which is why a black parent ends the loop |
| `RedBlackShape.BlackHeightBounds` | libc/rbtree.c:6-216 | Black height bh needs at least 2^bh - 1 nodes and allows height at most 2 bh, one more under a red root |
| `RedBlackShape.HeightBound` | libc/rbtree.c:6-216 | Height at most 2 log2(n + 1), written 2^height <= (n + 1)^2 |
| `RedBlackTree.Root.RotateLeft` | libc/rbtree.c:59-123 | The pointer assignments for a parent that is a left child, inner or outer node, realise the rotation: parent pointers stay inverse to child pointers and the root or the great-grandparent is relinked |
| `RedBlackTree.Root.RotateRight` | libc/rbtree.c:149-213 | The mirror image |
| `RedBlackTree.Root.RecolourUp` | libc/rbtree.c:37-57 | The heap after one recolouring pass represents the recoloured subtree two levels up |
| `RedBlackTree.Root.FixUpLoop` | libc/rbtree.c:6-216 | The loop terminates after at most half as many passes as the node is deep, and the heap then represents the fix-up of the tree it started from |
| `RedBlackTree.Root.RbtreeInsert` | libc/rbtree.c:6-216 | The heap tree is red-black afterwards and has the same in-order sequence |
| `RedBlackTree.Root.RbLinkNode` | libc/rbtree.c:218-225 | The new node becomes a red leaf exactly where the link pointed, everything else as before |
| `RedBlackTree.Root.FindLink` | libc/rbtree.h:53-70 | The descent ends at the one empty link with all smaller keys before it and all keys not smaller after it; equal keys go left |
| `RedBlackTree.Root.Insert` | libc/rbtree.h:50-74 | The documented insertion: still red-black and sorted, the in-order sequence is the old one with the node inserted before the first key that is not smaller |
| `RedBlackTree.ParentsInvertChildren` | libc/rbtree.c:218-225 | In a represented tree a node's parent is p exactly when it is p's left or right child |
| `RedBlackTree.Root.HeightIsLogarithmic` | libc/rbtree.c:6-216 | After any sequence of insertions the tree of n nodes has height at most 2 log2(n + 1) |
| `PackedWord.WordIsPair` | libc/rbtree.h:27-31 | A word is exactly its parent address and its colour |
| `PackedWord.SetColorKeepsParent` | libc/rbtree.h:29 | Setting the colour sets it and leaves the parent alone |
| `PackedWord.SetParentKeepsColor` | libc/rbtree.h:30 | Setting an even parent address sets it and leaves the colour alone |
| `PackedWord.PairIsWord` | libc/rbtree.h:31 | Both fields read back after being set together |
| `PackedWord.OddAddressSpoilsColor` | libc/rbtree.h:30 | An odd address would overwrite the colour and not read back |
| `BuddyShape.BitMeaning` | kernel/arch/x86/page.c:317-358 | In every tree whose set bits are closed upward, a bit is set exactly when its node is an ancestor-or-self of a live block |
| `BuddyShape.Canonical` | kernel/arch/x86/page.c:397-418 | The bits are determined by the set of live blocks |
| `BuddyShape.LiveAntichain` | kernel/arch/x86/page.c:317-358 | No live block contains another |
| `BuddyShape.SearchSound` | kernel/arch/x86/page.c:317-358 | The node found lies at the wanted depth and is free: neither above, below nor equal to a live block |
| `BuddyShape.SearchComplete` | kernel/arch/x86/page.c:317-360 | When nothing is found, no node at that depth is free |
| `BuddyShape.SearchDecides` | kernel/arch/x86/page.c:317-360 | The search from the root succeeds if and only if a free node of that depth exists |
| `BuddyShape.SearchPrefers` | kernel/arch/x86/page.c:335-357 | For the block found and any other free block of that depth: at the node where their ways part, the one found lies below the right child if that is set, else below the left |
| `BuddyShape.PreferredOneWay` | kernel/arch/x86/page.c:335-357 | Of two blocks at most one comes before the other in that order |
| `BuddyShape.AllocateLive` | kernel/arch/x86/page.c:325-344 | Setting the path to a free node adds exactly that node to the live blocks |
| `BuddyShape.MergeLive` | kernel/arch/x86/page.c:397-418 | Unset-and-merge removes exactly the freed block from the live blocks and keeps the bits canonical |
| `BuddyShape.FreeUndoesAllocate` | kernel/arch/x86/page.c:397-418 | Merging after allocating restores every bit |
| `BuddyShape.StepLive` | kernel/arch/x86/page.c:317-418 | What each request does to the set of live blocks, and that an allocation without effect means no free block |
| `BuddyShape.AnyHistory` | kernel/arch/x86/page.c:317-418 | After any two histories equal live blocks mean equal bits; live blocks form an antichain; each bit says whether a live block lies at or below its node |
| `BuddyShape.ReleaseAll` | kernel/arch/x86/page.c:397-418 | Freeing all live blocks in any order gives the all-zero tree |
| `BuddyShape.AddrIsStart` | kernel/arch/x86/page.c:271-277 | The address arithmetic by depth and index agrees with halving the region from the root down |
| `BuddyShape.Apart` | kernel/arch/x86/page.c:271-277 | Nodes of which neither is an ancestor of the other occupy disjoint bytes |
| `BuddyShape.BlockPlaced` | kernel/arch/x86/page.c:271-277 | A block is aligned to its own size and lies inside the region |
| `BuddyTree.BuddyMacro` | kernel/arch/x86/page.c:285 | The macro B, as wrapping 32-bit arithmetic, is the other child of the same parent |
| `BuddyTree.Tree.GetTreeNode` | kernel/arch/x86/page.c:246-253 | The bit of the node, which is bit idx % 8 of byte idx / 8 |
| `BuddyTree.Tree.SetTreeNode` | kernel/arch/x86/page.c:255-269 | Exactly that bit of its bytes changes |
| `BuddyTree.GetTreeNodeAddr` | kernel/arch/x86/page.c:271-277 | The offset is 4096 * 2^(12 - depth) * (node + 1 - 2^(depth - 1)), and that is where the block starts |
| `BuddyTree.TopFacts` | kernel/arch/x86/page.c:294-302 | While the search runs the stack never holds more than the depth asked for, so at most 12 of its 24 slots |
| `BuddyTree.ExpandTop` | kernel/arch/x86/page.c:345-357 | Replacing a split node by its two children, right one on top if it is set, keeps what the search will find and lowers the total subtree size on the stack |
| `BuddyTree.DescendTop` | kernel/arch/x86/page.c:338-343 | Marking a clear node and going on with its left child keeps what the search will find and lowers the total subtree size |
| `BuddyTree.SkipTop` | kernel/arch/x86/page.c:345-346 | Dropping a set node at the wanted depth or a live block loses nothing |
| `BuddyTree.Tree.VisitSet` | kernel/arch/x86/page.c:345-357 | The loop body for a set node keeps the search invariant and lowers the measure |
| `BuddyTree.Tree.VisitClear` | kernel/arch/x86/page.c:338-343 | The loop body for a clear node does too, marking only that node |
| `BuddyTree.Tree.TryAllocDepth` | kernel/arch/x86/page.c:291-361 | It terminates; the address is that of the free block of that depth that comes before every other one, and exactly the path to it is set; without a free block it returns nothing and leaves every bit unchanged |
| `BuddyTree.Tree.SearchDepth` | kernel/arch/x86/page.c:317-360 | The explicit-stack loop finds what the recursive search finds |
| `BuddyTree.Tree.UnsetMergeNodes` | kernel/arch/x86/page.c:396-418 | From any node the climb computes the merge and keeps its bytes in step with the bits; on a live block it releases exactly that block |
| `BuddyTree.Tree.FreeFromNode` | kernel/arch/x86/page.c:427-436 | From any node the first set node on the way up, the root left out, is unset and merged |
| `BuddyTree.Tree.FreeFromLeaf` | kernel/arch/x86/page.c:427-436 | The climb from a leaf inside a live block releases exactly that block, unless the block is the whole region, when nothing changes |
| `BuddySystem.HighBitBounds` | kernel/arch/x86/page.c:237-244 | The index of the highest set bit brackets the value between two powers of two |
| `BuddySystem.DepthFits` | kernel/arch/x86/page.c:382-390 | For every size in (2048, 8 MB] the depth lies in 1..12 and its block size b satisfies size <= b < 2 * size |
| `BuddySystem.DepthInRange` | kernel/arch/x86/page.c:382-390 | The depth computed is one of the 12 levels if and only if 2048 < size <= 8 MB |
| `BuddySystem.System.BuddyAllocDepth` | kernel/arch/x86/page.c:363-379 | The first region with a free block of that depth supplies it; failure means no region has one and nothing changed |
| `BuddySystem.System.BuddyAlloc` | kernel/arch/x86/page.c:381-394 | The block returned starts at the address returned, is aligned to its size, was free, comes before every other free block of its size in the first region that has one, is now the only additional live block, and is the tightest size; failure means no region has a free block of that depth |
| `BuddySystem.System.LiveBlocksDisjoint` | kernel/arch/x86/page.c:363-394 | Any two live blocks, of one region or of two, occupy disjoint address ranges |
| `BuddySystem.System.BlockAligned` | kernel/arch/x86/page.c:271-277 | Every block of every region starts at an address that is a multiple of its size |
| `BuddySystem.System.RegionInMemory` | kernel/arch/x86/page.c:230-235 | All blocks of region i lie in the memory if and only if 8 MB * (i + 3) does |
| `BuddySystem.System.LastTwoRegionsBeyond` | kernel/arch/x86/page.c:449-462 | With whole regions of memory exactly the last two of the regions counted lie beyond it |
| `BuddySystem.LookupMissesTree` | kernel/arch/x86/page.c:421-425 | The node looked up for an address is always 2049 above the right leaf and beyond the last node |
| `BuddySystem.System.BuddyFree` | kernel/arch/x86/page.c:427-436 | From a leaf of the block, the climb releases exactly that block, in its region only; a whole-region block is not released |
| `BuddyLookup.BuddyFreeAddr` | kernel/arch/x86/page.c:421-447 | From the node looked up as written, the climb reads one bit of the next tree. If that is clear, it unsets and merges the first set node above the leaf of page (k + 1) / 2; if it is set, it clears that bit of the next tree and, unless the bit beside it is set, merges in its own tree from that leaf. No other tree changes |
| `BuddyLookup.BuddyFreeExactly` | kernel/arch/x86/page.c:421-447 | The block that holds the address is released and nothing else changes if and only if bit k of the next tree is clear, the block is not the whole region, and it lies above the leaf of page (k + 1) / 2 |
| `BuddyLookup.StartPages` | kernel/arch/x86/page.c:421-425 | For the address where a block starts, the last condition holds if and only if that is page 0 or 1 of the region |
| `BuddyLookup.FirstRegionMissed` | kernel/arch/x86/page.c:421-462 | While a block of more than two pages stands at the start of region 0, no other block of region 0 meets that condition at its own address |
| `BuddyLookup.AfterInit` | kernel/arch/x86/page.c:136 | Init for 128 MB leaves only the 16 KB of tables live |
| `BuddyLookup.FirstPage` | kernel/arch/x86/page.c:348-394 | The first page allocated after that is at 0x1004000, right behind the tables |
| `BuddyLookup.PageNeverReleased` | kernel/arch/x86/page.c:136-462 | That page, freed by its address, is not released |
| `BuddyLookup.StrayInReserve` | kernel/arch/x86/page.c:449-455 | The bits read behind the last tree lie in the zeroed pages reserved for the tables |
| `BuddyLookup.ClimbReleases` | kernel/arch/x86/page.c:427-436 | Climbing from a leaf removes exactly block x if and only if x is above the leaf and not the root |
| `BuddySystem.InitBuddySystem` | kernel/arch/x86/page.c:449-462 | The first block starts at the allocator's own tables and covers them, and is the only live block; the regions cover the memory |
| `BuddySystem.RequiredSizeLeast` | kernel/arch/x86/page.c:449-455 | The size reserved is the least number of whole pages for two words and 512 bytes a region |
| `TimerSpec.StepKeepsInv` | kernel/timer.c:206-265 | Each request, passage of time and interrupt keeps: pending timers in firing order and not overdue, firings on time and in order, every request either pending or fired once |
| `TimerSpec.RunKeepsInv` | kernel/timer.c:206-265 | So does every run |
| `TimerSpec.RunRecordsAt` | kernel/timer.c:247-265 | In any possible run the k-th request is recorded with the delay and callback asked for, and as its time the sum of the time steps before it, counted on the event list |
| `TimerSpec.RunRecords` | kernel/timer.c:247-265 | As many requests are recorded as the events make, and the time is the sum of the time steps |
| `TimerSpec.AnyRun` | kernel/timer.c:206-265 | In any possible run, over the event list: each firing is a request at the time asked for plus the delay asked for, none fires twice, none overdue is missing, none is early, and the order is that of time with ties in request order |
| `TimerSpec.EnabledExactly` | kernel/timer.c:206-230 | Time may pass exactly as far as no waiting timer is overrun, and an interrupt comes exactly when some waiting timer is due |
| `TimerQueue.Queue.ReachableState` | kernel/timer.c:101-245 | In every reachable state the hardware is armed with the head's true remaining time, the queued entries have distinct slots, and the set bits of the bitmap are exactly these slots |
| `TimerQueue.Queue.QueueSubTimer` | kernel/timer.c:58-80 | Every stored time drops by the time passed, clamped at zero, and nothing else changes |
| `TimerQueue.Queue.ClampNeverTaken` | kernel/timer.c:71-78 | In every reachable state no stored time is below the head's, so the clamp is never taken |
| `TimerQueue.Queue.QueueSubHeadTime` | kernel/timer.c:82-99 | After it every entry holds its true remaining time |
| `TimerQueue.Queue.QueueFindLoc` | kernel/timer.c:150-176 | The last entry not later than the new one, so ties keep request order |
| `TimerQueue.Queue.SlistInsertHead` | libc/list.c:17-22 | The list is the old one with the entry in front |
| `TimerQueue.Queue.SlistInsertAfter` | libc/list.c:24-32 | The list is the old one with the entry after its predecessor |
| `TimerQueue.Queue.QueueAddTimer` | kernel/timer.c:178-204 | The entry goes after every entry not later, waiting for the time it holds from now on, and the hardware is armed again only for a new head: one Add step of the machine |
| `TimerQueue.Queue.AllocateNewEntry` | kernel/timer.c:101-122 | The lowest clear bit of the bitmap is set and its entry returned; nothing is returned only when all 2048 bits are set |
| `TimerQueue.Queue.QueueFree` | kernel/timer.c:124-134 | Exactly that slot's bit is cleared |
| `TimerQueue.Queue.NewTimer` | kernel/timer.c:247-265 | One Add step, unless all 2048 slots are in use, when nothing changes but the write through a null pointer (false); with fewer than 256 timers waiting the slot used is below 256 |
| `TimerQueue.Queue.TimerHandler` | kernel/timer.c:206-245 | One Fire step: the callbacks of all due entries run in list order, their slots are given back, and the hardware is armed with the new head's true remaining time; false for an interrupt with an empty queue |
| `TimerQueue.Queue.TimerInit` | kernel/timer.c:136-148 | The list becomes empty and the low byte of the bitmap zero; that is the machine's start state if and only if no slot from 8 on was in use |
| `TimerQueue.Queue.constructor` | kernel/timer.c:136-148 | Called on zeroed globals, it gives the machine's start state: no timers and no bits set |
| `TimerQueue.Queue.Replay` | kernel/timer.c:206-265 | Any possible run carried out by these operations takes list, bitmap, hardware and callbacks through the same run of the machine; along it all slots handed out lie in the page if and only if never more than 256 timers wait |
| `TimerQueue.FromBoot` | kernel/timer.c:136-265 | Any possible run from boot: the j-th callback made is that of the request behind the j-th firing, and the firings are those the event list asks for |
| `TimerQueue.Queue.PageHolds` | kernel/timer.c:13-14 | More than 256 waiting timers need a slot outside the page |
| `TimerQueue.PageOverflows` | kernel/timer.c:101-265 | For n timers requested at once from boot on, all slots lie in the page if and only if n is at most 256 |
| `TimerQueue.Queue.ClaimEntry` | kernel/timer.c:101-122 | An entry is found if and only if fewer than 2048 timers wait; it is not in the list and its slot is the lowest free one |
| `SlabAllocator.MemListNode.BitmapSet` | kernel/memory.c:56-63 | Exactly that bit of the bitmap is set |
| `SlabAllocator.MemListNode.BitmapIsSet` | kernel/memory.c:47-54 | The bit of the slab, which is bit slab % 8 of byte slab / 8 |
| `SlabAllocator.MemListNode.MemListMarkNodes` | kernel/memory.c:74-81 | Exactly the slabs of the range become marked |
| `SlabAllocator.MemListNode.FindContSlabsNode` | kernel/memory.c:92-117 | The lowest base of a run of that many clear slabs, exactly that run is marked; no memory is reported only when no such run exists |
| `SlabAllocator.RunNeedsClear` | kernel/memory.c:134-135 | A run needs as many clear slabs as it is long |
| `SlabAllocator.FilterIsSafe` | kernel/memory.c:134-135 | As the free counter is an upper bound on the clear slabs, a page skipped by the filter has no run |
| `SlabAllocator.FreeList.FindContSlabs` | kernel/memory.c:125-145 | First fit in the first page of the list with room; null only when no page has room |
| `SlabAllocator.FreeList.CreateMemListNode` | kernel/memory.c:35-45 | A fresh page of 511 clear slabs at the head of the list |
| `SlabAllocator.FreeList.CreateWithSlabs` | kernel/memory.c:155-159 | The new page has exactly its first slabs marked and a free counter to match |
| `SlabAllocator.TakeRun` | kernel/memory.c:74-81 | Marking a clear run keeps the accounts: marked slabs are exactly those of the blocks handed out, and blocks are disjoint |
| `SlabAllocator.FreeList.FindCreateContSlabs` | kernel/memory.c:147-160 | A new page is made if and only if no page has room; the block is first fit and disjoint from all blocks handed out before |
| `SlabAllocator.FreeList.AllocateSlabs` | kernel/memory.c:169-180 | The block has one header slab, which records its number of slabs, and at least the requested bytes after it, less than one slab more; it is first fit, in a new page if and only if no page has room |
| `SlabAllocator.InsidePage` | kernel/memory.c:19-26 | Slab i begins at byte 72 + 8 * i; a block ends inside its page if and only if it does not use the last eight slabs; otherwise it overlaps the header of a node in the page behind |
| `SlabAllocator.SecondLeavesPage` | kernel/memory.c:119-180 | Requests of 2048 and 2024 bytes on an empty list: the second block leaves the page |
| `Scatterlist.BindMeaning` | libc/scatterlist.c:113-122 | Binding a buffer to any entry: buffer and length read back, the marks stay, the user flags are cleared |
| `Scatterlist.AttributeMeaning` | libc/scatterlist.c:124-131 | An attribute at one of the eight flag positions adds exactly that flag; address and marks stay |
| `Scatterlist.MarkLastMeaning` | libc/scatterlist.c:139-143 | The last mark leaves buffer, length, flags and chain mark alone |
| `Scatterlist.MarkFormat` | libc/scatterlist.h:7-17 | Bit 0 of the first word marks a chain entry, bit 1 the last entry |
| `Scatterlist.PageFormat` | libc/scatterlist.h:10 | The page address is the word without its low twelve bits |
| `Scatterlist.FlagsFormat` | libc/scatterlist.c:39 | The user flags are bits 2 to 9 |
| `Scatterlist.FlagFormat` | libc/scatterlist.h:18-39 | SL_USER_0 reads bit 2 |
| `Scatterlist.FlagAtBit2` | libc/scatterlist.c:124-131 | Binding SL_USER_0 sets bit 2 if the value is 1 and changes nothing else |
| `Scatterlist.BoundFormat` | libc/scatterlist.c:84-120 | Binding a buffer keeps the two low bits and puts its page address above them |
| `Scatterlist.JoinFormat` | libc/scatterlist.c:133-137 | The buffer is page address plus offset |
| `Scatterlist.OffsetFormat` | libc/scatterlist.c:116-117 | An address less its page address is its low twelve bits |
| `Scatterlist.BuiltEntryMeaning` | libc/scatterlist.c:106-137 | An entry after init, bind-buffer and bind-attribute reads back as exactly its buffer and flag, and is last only if it was marked |
| `Scatterlist.SlListInit` | libc/scatterlist.c:105-111 | All entries are cleared and only the last one is marked |
| `Scatterlist.SlBindBuffer` | libc/scatterlist.c:113-122 | The entry's buffer and length read back, its marks stay and its user flags are cleared; all other entries stay |
| `Scatterlist.SlBindAttribute` | libc/scatterlist.c:124-131 | At the positions of user flags exactly that flag is added; buffer, length, marks and all other entries stay |
| `Scatterlist.SlMakeLast` | libc/scatterlist.c:139-143 | The entry ends the list and otherwise stands for the same segment; all other entries stay |
| `Scatterlist.BuildList` | libc/scatterlist.c:105-131 | A list built from segments is well marked and stands for exactly these segments |
| `Scatterlist.Iterator.SlitNext` | libc/scatterlist.c:20-41 | Each step gives the next segment; the iteration ends after the entry marked last |
| `VirtioQueue.TablesFit` | kernel/drivers/virtio/virtio_queue.c:19-49 | The available ring begins right behind the 16-byte descriptors, the used ring at the first page boundary behind the available ring, all aligned and without overlap, and the size is the least number of whole pages that holds them |
| `VirtioQueue.Queue.constructor` | kernel/drivers/virtio/virtio_queue.c:27-62 | Zeroed tables, descriptors linked in a circle |
| `VirtioQueue.ReadBack` | kernel/drivers/virtio/virtio_queue.c:77-96 | A chain read from its head through more and next, with wrap-around, gives exactly its segments in order |
| `VirtioQueue.Queue.WriteChain` | kernel/drivers/virtio/virtio_queue.c:74-97 | The descriptors from the next one on, with wrap-around, hold a chain for the scatterlist's segments; all others stay |
| `VirtioQueue.Queue.Enqueue` | kernel/drivers/virtio/virtio_queue.c:64-98 | What a device reads from the new head is the scatterlist; no other descriptor and no other ring slot changes |
| `VirtioQueue.Queue.OwnIndex` | kernel/drivers/virtio/virtio_queue.c:67-72 | While in step, a ring slot receives its own index if and only if the unpublished descriptors are a multiple of the size |
| `VirtioQueue.Queue.EnqueueInStep` | kernel/drivers/virtio/virtio_queue.c:64-98 | For sizes dividing 65536 the next descriptor stays equal to the published and unpublished count modulo the size |
| `VirtioQueue.Queue.KickInStep` | kernel/drivers/virtio/virtio_queue.c:129-133 | Publishing keeps that across 16-bit wrap-around |
| `VirtioQueue.Queue.WrapNeedsDivisor` | kernel/drivers/virtio/virtio_queue.c:132 | Across a wrap the two stay in step if and only if the size divides 65536 |
| `VirtioKick.PowersDivide` | kernel/drivers/virtio/virtio_queue.c:67 | Every power of two up to 65536 divides it |
| `VirtioKick.Publish` | kernel/drivers/virtio/virtio_queue.c:64-133 | Any buffers enqueued before one kick: the index moves by their entries, one ring slot holds the last head, and the heads a device takes are the heads enqueued if and only if there was at most one buffer, of one entry |
| `VirtioKick.PublishOne` | kernel/drivers/virtio/virtio_queue.c:64-133 | For one buffer the index moves by one if and only if it has one entry; the further heads taken are what the ring held before |
| `VirtioKick.SecondHidesFirst` | kernel/drivers/virtio/virtio_queue.c:67-72 | Two buffers before one kick, where slots hold their own index: the device takes the second twice and the first never |
| `VirtioKick.ThreeEntries` | kernel/drivers/virtio/virtio_queue.c:64-133 | A buffer of three entries on a new queue: one head enqueued, three taken |
| `VirtioKick.TwoBeforeKick` | kernel/drivers/virtio/virtio_queue.c:64-133 | Two buffers before one kick on a new queue: heads 0 and 1 enqueued, 1 and then 0 taken |
| `VirtioQueue.Queue.HeadsAcrossWrap` | kernel/drivers/virtio/virtio_queue.c:151-160 | For running counts less than 65536 apart num_heads is their difference if and only if both lie in the same pass of the 16-bit counters |
| `VirtioQueue.Queue.LastBufferEver` | kernel/drivers/virtio/virtio_queue.c:151-160 | After 65535 buffers returned there is never another |
| `VirtioQueue.Queue.Dequeue` | kernel/drivers/virtio/virtio_queue.c:100-127 | A list is returned if and only if the chain ends within the completions announced (None is the write beyond the list); it has the addresses of the chain's descriptors and the lengths the device reported, ends where the chain ends, and the counter advances by as many |
| `VirtioQueue.ChainOverruns` | kernel/drivers/virtio/virtio_queue.c:100-127 | A chain of two reported as one completion makes dequeue write beyond its list |
| `VirtioQueue.Queue.Send` | kernel/drivers/virtio/virtio_queue.c:64-139 | Enqueue and kick of a single buffer keep all outstanding buffers in place |
| `VirtioQueue.Queue.FifoHeads` | kernel/drivers/virtio/virtio_queue.c:151-160 | With single buffers num_heads is right until 65536 buffers were completed and 0 from then on |
| `VirtioQueue.Queue.Receive` | kernel/drivers/virtio/virtio_queue.c:100-160 | With single buffers, an in-order device and at most size outstanding, buffers come back first in, first out with the lengths reported for them whenever num_heads announces one, across wraps of the available index |
| `VirtioQueue.SingleReturns` | kernel/drivers/virtio/virtio_queue.c:64-160 | On a new queue a single buffer sent and completed comes back with its address and the length reported |
| `PciCapabilities.EntryRange` | kernel/drivers/pci/pci.c:644-647 | Entries lie at multiples of four from 64 to 252 |
| `PciCapabilities.ListedIsChain` | kernel/drivers/pci/pci.c:640-658 | An id is in the list if and only if positions over the bytes lead to it: the pointer and every link at least 64 and rounded down to a multiple of four, no id 255 on the way |
| `PciCapabilities.FirstIsFirstChain` | kernel/drivers/pci/pci.c:640-658 | The first entry with an id ends such a chain in which no earlier position has it |
| `PciCapabilities.NoRepeat` | kernel/drivers/pci/pci.c:642-658 | Up to the first match no position repeats, in cyclic lists too |
| `PciCapabilities.FirstMatchWithin48` | kernel/drivers/pci/pci.c:663 | The first match is among the first 48 entries |
| `PciCapabilities.BoundIsTight` | kernel/drivers/pci/pci.c:663 | For every id but the terminator there is a list whose only match is the 48th entry |
| `PciCapabilities.FindCapNextTtl` | kernel/drivers/pci/pci.c:634-661 | The first match among the next ttl entries, 0 when there is none |
| `PciCapabilities.FindCapNext` | kernel/drivers/pci/pci.c:665-671 | A capability is found if and only if it is reachable over the bytes before a terminator, and its first position is returned |
| `PciCapabilities.FindCapStart` | kernel/drivers/pci/pci.c:620-632 | Offset 0x34 exactly when bit 4 of the byte at 6 is set |
| `PciCapabilities.DevFindCapability` | kernel/drivers/pci/pci.c:673-688 | Found if and only if bit 4 of the byte at 6 is set and a chain of positions leads from the pointer at 0x34 to the id; the result is the first such position |
| `PageTables.PageInit` | kernel/arch/x86/page.c:98-135 | After the loops every word of directory and tables is the number the source writes, and the walk maps [0x1000, 0xC0000000) to itself, leaves page zero unmapped, maps 8 MB at 0xC0000000 to physical 0 and 4 MB at 0xFEC00000 to itself uncached, and maps nothing else, each with its access rights |
| `PageTables.FillDirectory` | kernel/arch/x86/page.c:108-121 | Directory words: table address + 3 for the first 768, 0x87, 0x400087 and 0xFEC00097 for the 4 MB pages, 0 elsewhere |
| `PageTables.FillTables` | kernel/arch/x86/page.c:125-134 | Table words: page address + 3 below 3 GB, 2 for page zero, 0 behind |
| `PageTables.TranslationIsSpace` | kernel/arch/x86/page.c:108-135 | The same for any tables of those contents, address by address |
| `PageTables.OrIsSum` | kernel/arch/x86/page.c:63-74 | OR-ing flags below a page-aligned address is adding them, and both parts read back |
| `IntegerText.Uitoa` | libc/string.c:35-61 | The minimal numeral, most significant digit first, then NUL; nothing else in the buffer changes |
| `IntegerText.ReverseInPlace` | libc/string.c:53-58 | The digits are reversed in place |
| `IntegerText.Itoa` | libc/string.c:13-33 | Minus sign only for negative decimals, the unsigned reading in every other base, an empty string for a bad base; the position returned is that of the digits, behind a sign |
| `IntegerText.DigitTable` | libc/string.c:47 | The digit used is the one in the table of uitoa |
| `IntegerText.NumeralMeaning` | libc/string.c:45-49 | A numeral stands for its number and starts with 0 only for 0 itself |
| `TextMeaning.TextPlaced` | libc/string.c:13-61 | In every base from 2 to 36 what is printed has the place value of the number (of its magnitude behind a sign in base 10, modulo 2^32 in any other base) and no leading zero; in a bad base nothing is printed |
| `IntegerText.DigitsLength` | libc/string.c:45-49 | Exactly the numbers below base^k fit in k digits |
| `IntegerText.BufferBounds` | kernel/arch/x86/framebuffer.c:579-674 | With sign and NUL any i32 needs at most 12 bytes in base 10, 33 in base 2 and 9 in base 16 |
| `IntegerText.BufferBoundsAreTight` | kernel/arch/x86/framebuffer.c:579-674 | 12 and 33 bytes are needed by some values |
| `IntegerText.GetValue2` | libc/string.c:82-96 | The value of the longest binary prefix, modulo 2^32 |
| `IntegerText.GetValue10` | libc/string.c:98-115 | The value of the digits modulo 2^32, or 0 if anything follows them |
| `IntegerText.GetValue16` | libc/string.c:117-151 | The value of the digits in either case; a stray character gives 0, or a division by zero when the value so far is 0 |
| `IntegerText.Atoi` | libc/string.c:191-241 | Blanks, base prefix or sign, then the digits |
| `TextMeaning.BlanksIgnored` | libc/string.c:198 | Spaces and tabs in front change nothing |
| `TextMeaning.DecimalText` | libc/string.c:98-115 | Decimal digits followed by the end have their value, followed by anything else the result is 0 |
| `TextMeaning.SignedText` | libc/string.c:200-238 | The same negated behind a minus sign |
| `TextMeaning.BinaryText` | libc/string.c:82-96 | Binary digits behind 0b or 0B have their value whatever follows |
| `TextMeaning.HexadecimalText` | libc/string.c:117-151 | Hexadecimal digits behind 0x or 0X have their value at the end; before a stray character the result is 0, or a division by zero |
| `TextMeaning.NoNumber` | libc/string.c:98-115 | A text that begins otherwise is 0 |
| `TextMeaning.ValuePlaced` | libc/string.c:82-151 | The value of digits is their place value |
| `TextMeaning.CapitalsCount` | libc/string.c:135-138 | Capital hexadecimal digits count as the small ones |
| `IntegerText.DecimalRoundTrip` | libc/string.c:13-241 | atoi undoes itoa in base 10 on every i32, with two's complement negation also for -2^31 |
| `IntegerText.PrefixedRoundTrip` | libc/string.c:13-241 | "0x" or "0b" before what itoa prints in base 16 or 2 parses back for every i32 |
| `IntegerText.UnsignedHexadecimal` | libc/string.c:35-151 | "0x" before what uitoa prints parses back if and only if the value is below 2^31 |
| `IntegerText.UnsignedBinary` | libc/string.c:35-96 | The same for "0b" |
| `IntegerText.ParseThenPrint` | libc/string.c:35-151 | Printing the value of a digit string without leading zeros and capitals gives that string back; with them it is never longer |
| `IntegerText.DividesByZeroExactly` | libc/string.c:117-151 | atoi divides by zero if and only if a character follows hexadecimal digits worth 0 modulo 2^32 after an x prefix |
| `IntegerText.DividesByZeroInput` | libc/string.c:140-143 | "0xg" makes it divide by zero |
| `IntegerText.OctalReadAsDecimal` | libc/string.c:171-174 | A leading 0 announces base 8, yet the digits are read in base 10 |
| `OctalText.MisreadDigits` | libc/string.c:98-115 | The octal digits of a number are the decimal digits of the number they are misread as |
| `OctalText.OctalExactly` | libc/string.c:171-230 | An octal text is read as the number meant if and only if that number is below 8, for all numbers; what is read instead is given |
| `OctalText.OctalEight` | libc/string.c:171-230 | "010" is read as 10 |

## Left out

- The free path of `kernel/memory.c` (lines 65-72, 83-90, 162-167, 201-244) and its branch for more than 2 KB (lines 186-192): as written they do not invert allocation.
- Addresses of slabs: blocks are told apart by page and slab index; which of them leave their page is decided in `SlabAllocator.InsidePage`, what happens to the page behind is not followed.
- BuddySystem.System.BuddyAlloc: sizes from 2049 bytes to 8 MB only; callers ask for nothing else, and for every other size the depth is not one of the 12 levels (`DepthInRange`), so that the search would leave the tree.
- Failed assertions and exhausted memory: `BuddyAlloc` returns `None` where the kernel would assert; obtaining a page for slabs or timers is taken to succeed.
- BuddySystem.System.BuddyFree: the climb from a leaf of the block; the address lookup before it is in `BuddyLookup.BuddyFreeExactly`.
- BuddyLookup.BuddyFreeAddr: for the last region the bit behind the tables is taken to be clear; it lies in the zeroed pages reserved for them (`StrayInReserve`). What a climb that enters the next tree destroys there is not followed further.
- SlabAllocator.FreeList.AllocateSlabs: the block is given by page and slab; the absolute address and the header's magic word, made from it, are not stated.
- TimerQueue.Queue.TimerHandler: an interrupt while timers wait comes when the hardware has counted down to zero; callbacks take no time and do not call back into the queue; `sleep` and its wake flag are not modelled.
- VirtioKick.Publish: buffers of at most as many entries together as the queue has descriptors; more would overwrite chains not yet published.
- Scatterlist.Iterator.SlitNext: lists without chain entries, the only ones built; `sl_chain`, `slit_skip` and `sl_copy_buffer` are not modelled.
- VirtioQueue.Queue.Receive: single-segment buffers; what dequeue does with longer chains is in the contract of `Dequeue`.
- Device behaviour for multi-descriptor chains, notification, interrupts and memory barriers of virtio.
- Parent and colour packed in one word inside the heap proof: nodes there have two fields, and `PackedWord` shows that the macros treat the word as two fields.
- 32-bit overflow of addresses above 4 GB in the buddy arithmetic, beyond the bound on memory size that `InitBuddySystem` asks for.
- `mmap`, whose guard is a constant; unit conversion of timers; configuration-space and port access (configuration space is a fixed sequence of 256 bytes).
- Terminal, `printk` formatting, keyboard, descriptor tables, interrupt setup, ACPI, serial, console and block message handling: plumbing that would only add easy members.
