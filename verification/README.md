# Verified models of the makaos kernel

This project models the parts of the makaos kernel whose correctness rests on more than one
function, and proves what they keep over every run, every input or every reachable state. It is
written in Dafny 4.11; `dafny verify dfyconfig.toml` checks all of it.

| files | what they model |
|---|---|
| `BuddyCore.dfy`, `Buddy.dfy` | buddy allocator with one parity bit per pair of buddies |
| `Pmm.dfy`, `PmmRuns.dfy` | per-CPU page stashes, reference counts, pins and slab reclaim on top of it; who owns each frame, over boot and every sequence of calls |
| `TlbShootdown.dfy`, `TlbProgress.dfy` | TLB shootdown between any number of CPUs, with store buffers and context switches: what it guarantees, that it comes to its end, and that it drops no more than asked |
| `BlockCachePins.dfy`, `BlockCacheUse.dfy`, `BlockCache.dfy` | ext2 block cache: the pin and poison protocol step by step, what fills and readers achieve with it, and the cache with atomic operations |
| `VmaList.dfy` | list of virtual memory areas: insertion, removal, downward gap search |
| `Ext2Bitmap.dfy`, `Ext2Tree.dfy`, `Ext2Volume.dfy` | block bitmaps, block trees, allocation and release of a file's blocks |
| `Ext2Bytes.dfy`, `Ext2Read.dfy`, `Ext2Pread.dfy`, `Ext2Stuck.dfy`, `Ext2Loops.dfy`, `Ext2Write.dfy`, `Ext2File.dfy` | runs of blocks, files as byte sequences, the read, positional read, write and seek operations for requests of any length |
| `Ext2Entries.dfy`, `Ext2Dirent.dfy`, `Ext2Dir.dfy` | directory records, as bytes in the blocks of an inode, refining a map |
| `IoUringCq.dfy`, `IoUringChain.dfy` | io_uring completion ring and linked request chains |
| `PathNormalize.dfy` | in-place path normalisation |
| `Initcall.dfy` | ordering of initcalls |
| `TimerFd.dfy` | timer list and expiration counts |
| `PageCacheClock.dfy`, `PageCacheSteps.dfy` | page cache with its CLOCK ring, as atomic operations and lock by lock |
| `Arithmetic.dfy`, `Options.dfy` | shared arithmetic facts and the option type |

Concurrent protocols are state machines: an action datatype, `Enabled`, `Apply`, an invariant
that every action keeps, and theorems about every reachable state. Code that changes state in
place is a class or a method with its loops; its contract ties the new state to a function or a
predicate on the old one, and the lemmas beside it say what that function means.

## Where the code does not do what a reader would expect

Each of these is stated as a theorem with its exact condition, and most also with a concrete run or
input.

- A TLB shootdown can return while another CPU still holds an old translation: the scheduler
  clears that CPU's bit in the mask before CR3 is written (kernel/proc/sched.c:1323-1343), while the
  comment in kernel/mm/tlb.c:189-200 argues from a switch that sets its bit before it loads CR3. Such
  a CPU is always inside its own context switch, and no CPU ever runs with the old translation after
  the return.
- Two ways of one block-cache set can name the same block, in two manners: a writer restores the tag
  it saved after the unlocked wipe of another fill has passed, or two fills of one block both walk
  before either publishes. The comment at kernel/fs/ext2.c:205-212 says this cannot happen. Exactly
  the publication or restoration of a block that another way names breaks the rule, and it holds in
  every run whose fills do not overlap. Readers see whole images in all runs.
- Removing the front part of an area (kernel/mm/mm.c:379-382) moves its start but not its file
  offset or page offset.
- The gap search (kernel/mm/mm.c:395-423) can answer a request that no address space can meet: when
  the guard plus the length passes 2^64, or when rounding up a size above 2^64 - 4096 gives 0. It is
  then right exactly when it answers 0, which is decided by where the walk down the areas leaves the
  part of the space that can hold the length, for every 64-bit hint.
- A completion can overtake the overflow list when the user advances the head between the end
  of the drain loop and the reload (kernel/io/io_uring.c:284).
- A submission budget that ends between a failed link and the end of its chain makes the next
  call run what should have been cancelled. Which budgets can do so is read off the queue.
- A ".." after more than 128 live components drops more than one of them; the path as a whole comes
  out right exactly when nothing of the kind happens after its last visit to the root.
- An initcall that lists a dependency of its level twice never runs, and the boot stops with the
  report of a cycle (kernel/main/initcall.c:66-87 counts the repetition, 129-143 lowers once).
- A periodic timer whose next step passes 2^64 is still due after it fired, and the same tick fires
  it again, in some cases without end.
- The ext2 positional read counts the slack of the last block when that block is read in one run
  with the one before it.
- Lengths are cut to 32 bits in each turn of the ext2 loops. A read of 2^32 bytes or more never ends
  if and only if the file goes on at the place where the rest of the request is a multiple of 2^32,
  and a turn begins in the block of that place: a run of adjacent blocks can step over it, unless
  the number of blocks left wraps there too. A
  write of 2^32 bytes or more never ends unless the volume or the block tree is full.
- Positions are cut to 32 bits: a write that reaches 2^32 goes on at the start of the file, and a
  seek to 2^32 or beyond tells the caller another position than it sets.
- A directory that cannot grow drops its working inode and with it at most one block, which is then
  neither free nor in use (kernel/fs/ext2.c:1783-1789, 1859-1861).
- Reclaim takes a page-cache entry out of the ring before its chain, and insertion puts it into the
  chain before the ring; an inode eviction that comes by in between takes an entry out of the ring
  that is not in it, and follows links that are NULL. Up to such a fault no entry is released twice.
- A reference taken on a free frame is reported and counted all the same.

## Model

| member | source | states |
|---|---|---|
| BuddyCore.Completeness | kernel/mm/pmm.c:476-603 | while no two buddies of one order below the top are both free, a list of at least the order asked for is non-empty if and only if some aligned run of 2^order frames is entirely free |
| BuddyCore.FreeRunInOneBlock | kernel/mm/pmm.c:550-603 | an aligned run of free frames lies inside one free block: merging is complete (induction on the order) |
| BuddyCore.BlocksIsRoundedUp | kernel/mm/pmm.c:327-335 | the number of blocks of an order is the frame count divided by 2^order, rounded up |
| BuddyCore.AddStep | kernel/mm/pmm.c:153-164 | putting a held block on its list and toggling its pair bit keeps all buddy invariants when the buddy is not free |
| BuddyCore.PopStep | kernel/mm/pmm.c:182-198 | taking the first block of a list and toggling its bit keeps bits, lists and disjointness, and removes exactly its frames |
| BuddyCore.PopUndoesAdd | kernel/mm/pmm.c:153-198 | a list hands out first what was put on it last; popping it right away restores lists and bits |
| BuddyCore.SplitStep | kernel/mm/pmm.c:498-515 | splitting a held block frees its right half and keeps the left half held |
| BuddyCore.MergeStep | kernel/mm/pmm.c:572-598 | when the toggled bit reads 0 the buddy is on its list, and unlinking it gives a held block of the next order |
| Buddy.BuddyAllocator.FindOrder | kernel/mm/pmm.c:477-486 | the smallest order with a free block, or past the top when there is none |
| Buddy.BuddyAllocator.SplitDown | kernel/mm/pmm.c:497-515 | the split loop keeps the invariant and gives back to the lists exactly the frames above the block handed out |
| Buddy.BuddyAllocator.PopAndSplit | kernel/mm/pmm.c:488-515 | one block leaves the lists, split to the order asked for; the free set loses exactly its frames |
| Buddy.BuddyAllocator.Alloc | kernel/mm/pmm.c:476-526 | succeeds if and only if some aligned run of 2^order frames is free, and then removes exactly 2^order frames from the free set and from the count |
| Buddy.BuddyAllocator.Release | kernel/mm/pmm.c:550-603 | adds exactly the block to the free set for every aligned in-range block that overlaps no free block, and keeps the invariant through all merges; out-of-range requests change nothing |
| Buddy.BuddyAllocator.ReleaseCounted | kernel/mm/pmm.c:694-700 | release together with the free-page count |
| Pmm.PageAllocator.constructor | kernel/mm/pmm.c:395-406 | empty stashes and free lists, no frame managed, all counts zero |
| Pmm.PageAllocator.AllocLocked | kernel/mm/pmm.c:694-696 | a block leaves the free lists if and only if one is there, and is then in the hands of the running operation |
| Pmm.PageAllocator.ClearReferences | kernel/mm/pmm.c:556-567 | the counts of exactly the frames of the block become zero |
| Pmm.PageAllocator.FreeLocked | kernel/mm/pmm.c:550-603 | frames in hand go back to the free lists with zero counts; no other frame moves |
| Pmm.PageAllocator.Donate | kernel/mm/pmm.c:410-471 | a block of boot memory that is not managed yet enters the free lists with zero counts; nothing else moves |
| Pmm.PageAllocator.DrainOne | kernel/mm/pcp.c:97-127 | exactly the top frames of one stash go back to the free lists, as many as asked or all; other stashes, owners and counts stay |
| Pmm.PageAllocator.DrainAll | kernel/mm/pcp.c:205-243 | as one atomic step, all stashes become empty and their frames are free; no owned frame moves |
| Pmm.PageAllocator.TakeBatch | kernel/mm/pcp.c:47-56 | a batch of distinct free frames is taken, fewer than asked only when nothing is left free |
| Pmm.PageAllocator.ParkBatch | kernel/mm/pcp.c:61-90 | every frame of a refill ends up stashed while there is room in the stash, else free again; the stash grows by the batch up to its depth |
| Pmm.PageAllocator.RefillOne | kernel/mm/pcp.c:43-93 | fails only when no frame is free; otherwise hands out one frame, and an empty stash gets the rest of a full batch unless nothing is left free |
| Pmm.PageAllocator.PcpAlloc | kernel/mm/pcp.c:129-165 | hands out the frame on top of the stash; with an empty stash it fails if and only if nothing is free |
| Pmm.PageAllocator.PcpFree | kernel/mm/pcp.c:167-203 | the frame is pushed on top of the stash, which first gives up a batch from its top when it is full; other stashes stay |
| Pmm.PageAllocator.StampReferences | kernel/mm/pmm.c:534-547 | the loop sets the counts of exactly the block to 1 and reports whether one of them was not 0 |
| Pmm.PageAllocator.MarkAllocated | kernel/mm/pmm.c:534-547 | the block becomes owned with one reference per frame |
| Pmm.PageAllocator.BuddyAlloc | kernel/mm/pmm.c:702-738 | one event of the ledger: frames that were free, stashed or in an empty slab go to one owner, never with a stale reference; it fails only when the stash was empty (for one frame) and, with all empty slabs reclaimed, no aligned run is free |
| Pmm.PageAllocator.AllocSlow | kernel/mm/pmm.c:719-729 | the part under the lock: a second attempt after all empty slabs went back |
| Pmm.PageAllocator.Reclaim | kernel/mm/pmm.c:646-653 | exactly the frames of the empty slabs go from their owners to the free lists |
| Pmm.PageAllocator.ReleaseOwned | kernel/mm/pmm.c:961-975 | an owned block goes to the free lists whole |
| Pmm.PageAllocator.BuddyFree | kernel/mm/pmm.c:740-751 | takes back exactly the block from its owner: a single frame goes on top of the stash of the processor, a larger block to the free lists with no stash touched |
| Pmm.PageAllocator.FreeThenAlloc | kernel/mm/pmm.c:702-751 | a processor that frees a frame and then asks for one gets that frame |
| Pmm.PageAllocator.RefInc | kernel/mm/pmm.c:1329-1346 | one 32-bit count goes up; the report fires exactly on a frame without references, and ownership is right afterwards if and only if there was one and the count did not wrap |
| Pmm.PageAllocator.RefDec | kernel/mm/pmm.c:1348-1377 | one count goes down; the last reference frees the frame, or leaks it while it is pinned |
| Pmm.PageAllocator.DropLast | kernel/mm/pmm.c:1356-1375 | where the frame goes when its last reference is dropped |
| Pmm.PageAllocator.Pin | kernel/mm/pmm.c:1397-1403 | one pin count goes up and nothing else changes |
| Pmm.PageAllocator.Unpin | kernel/mm/pmm.c:1405-1411 | one pin count goes down unless it is zero, and nothing else changes |
| Pmm.NoDoubleHandOut | kernel/mm/pcp.c:43-203 | over every run of ledger events, a frame given twice was taken in between or by the second call itself |
| Pmm.TakenBackBetween | kernel/mm/pmm.c:702-751 | a frame that is owned and later given was taken by some event in between |
| PmmRuns.Drive | kernel/mm/pmm.c:702-751 | for every boot memory map, number of processors and sequence of calls (allocate, free, take and drop references, pin, unpin, drain): two calls that return one frame are separated by a call that took it back, and only boot memory is returned |
| PmmRuns.DriveAndKeep | kernel/mm/pmm.c:702-751 | over the same runs no frame of the boot memory goes missing: at the end each is free, stashed or owned, or was lost by a call that dropped the last reference of a pinned frame, and only those are lost |
| PmmRuns.LostByCall | kernel/mm/pmm.c:1356-1375 | a frame is lost at the end of a run exactly when some call of it lost it |
| PmmRuns.Boot | kernel/mm/pmm.c:410-471 | donating disjoint blocks one by one makes exactly their frames free |
| PmmRuns.Perform | kernel/mm/pmm.c:702-751 | every call that a caller may make is one event of the ledger, told by its arguments and its result |
| PmmRuns.EventMeans | kernel/mm/pmm.c:702-751 | that event gives, takes and loses exactly the frames of the blocks the call speaks of |
| TlbShootdown.FlushLocal | kernel/mm/tlb.c:75-87 | drops exactly the pages that touch the range, or everything for an empty range or one above 32 pages of 4096 bytes |
| TlbShootdown.StepKeepsInv | kernel/mm/tlb.c:90-248 | every step of every sender, receiver, switching or walking CPU keeps the protocol invariant |
| TlbShootdown.ReachableInv | kernel/mm/tlb.c:90-248 | the invariant holds in every reachable state, for any number of CPUs |
| TlbShootdown.ShootdownIsComplete | kernel/mm/tlb.c:169-248 | when a shootdown returns, a CPU with a translation older than the sender's stores, for a page the request covers, is inside its own context switch |
| TlbShootdown.NeverStaleAgain | kernel/mm/tlb.c:169-248 | in every state of every run after a shootdown has returned, no CPU outside a context switch holds a translation older than the sender's stores for a covered page |
| TlbShootdown.WhereEntriesComeFrom | kernel/arch/x86_64/process_ctx_switch.asm:62-66 | an entry of a running CPU was there while it ran, or is walked in from the current table: nothing survives the CR3 write that ends a switch |
| TlbShootdown.ReceiverTouchesLiveSlots | kernel/mm/tlb.c:108-153 | a receiver touches only descriptors that are unacknowledged, addressed to it, and awaited by an active sender |
| TlbShootdown.FilledSlotIsFree | kernel/mm/tlb.c:207-226 | the descriptor a sender fills is inside its row and in no queue or receiver list |
| TlbShootdown.SwitchWindowIsReal | kernel/proc/sched.c:1323-1343 | a run in which a shootdown returns while a CPU between its mask update and its CR3 write holds the old translation |
| TlbShootdown.FenceIsNeeded | kernel/mm/tlb.c:177-201 | without the fence a run leaves a CPU that is running, not switching, with the old translation |
| TlbProgress.SentIsDoneOrInFlight | kernel/mm/tlb.c:108-153 | in every reachable state a descriptor that was sent is acknowledged if and only if no CPU has it any more, and at most one CPU has it |
| TlbProgress.WaitEnds | kernel/mm/tlb.c:237-245 | a sender that waits can go on as soon as no CPU has one of its descriptors any more |
| TlbProgress.WorkIsEnabled | kernel/mm/tlb.c:108-153 | a CPU with descriptors always has a next step towards their acknowledgement |
| TlbProgress.WorkProgresses | kernel/mm/tlb.c:108-153 | that step brings its work down in a well-founded order |
| TlbProgress.EveryShootdownCanReturn | kernel/mm/tlb.c:169-248 | from every reachable state a shootdown that has begun can be brought to its return, with its request unchanged |
| TlbProgress.AnyRequestCanReturn | kernel/mm/tlb.c:169-248 | from every reachable state a CPU without one under way can ask for any range of any address space, the whole of it too, and have it done |
| TlbProgress.MaskIsExact | kernel/proc/sched.c:1323-1343 | in every reachable state the mask of an address space is the CPUs that run it and those that have announced it and not yet loaded CR3; a CPU between the two updates is in none |
| TlbProgress.RemoteTargetAcknowledges | kernel/mm/tlb.c:108-248 | a run in which the other CPU drops the page it had cached, acknowledges, and the sender can return |
| TlbProgress.LaterStoreGoesStale | kernel/mm/tlb.c:169-248 | the promise ends with the stores before the shootdown: a run in which a later store leaves the other CPU with an old translation |
| TlbProgress.NeedFullIff | kernel/mm/tlb.c:122-131 | the scan asks for one full flush if and only if some descriptor does or the pages of all together pass the ceiling |
| TlbProgress.DroppedIsAskedFor | kernel/mm/tlb.c:75-153 | in every reachable state a step drops a cached page only from the CPU that makes it, and only by a CR3 write, for its own request, or for those it was sent |
| BlockCachePins.StepKeepsInv | kernel/fs/ext2.c:178-292 | every step of readers, writers and the unlocked wipe keeps the protocol invariant |
| BlockCachePins.NoCopyUnderReader | kernel/fs/ext2.c:178-202 | over every interleaving, no byte is copied into a way that a verified reader holds |
| BlockCachePins.ReaderSeesOneImage | kernel/fs/ext2.c:257-292 | a verified reader of a block sees one whole image, given to some fill of that block, for as long as it holds the way |
| BlockCachePins.TwoWaysCanNameOneBlock | kernel/fs/ext2.c:186-221 | a run with a restored tag that ends with all threads idle and two ways naming one block with different images |
| BlockCachePins.TwoFillsCanPublishOneBlock | kernel/fs/ext2.c:212-246 | a run of two overlapping fills, without a restored tag, that ends the same way |
| BlockCachePins.StepKeepsOneWayIff | kernel/fs/ext2.c:186-246 | a step keeps one way per block if and only if it does not publish or restore a block that another way names |
| BlockCachePins.SerialFillsKeepOneWay | kernel/fs/ext2.c:212-246 | in every run whose fills of the set do not overlap, with any readers, at most one way names a block |
| BlockCacheUse.CheckHoldsIff | kernel/fs/ext2.c:264-276 | a reader holds the way, with the data in it, if and only if the tag names its block at that moment |
| BlockCacheUse.FillPublishes | kernel/fs/ext2.c:178-246 | a fill that runs alone into a way that is neither locked nor pinned leaves it with the block and the image, every other copy of the block invalid, and nothing else changed |
| BlockCacheUse.ReadAfterFill | kernel/fs/ext2.c:178-292 | from every reachable state: after such a fill a reader that comes to the way holds exactly the image, and unpinning it leaves the way as the fill did |
| BlockCacheUse.ReaderHoldsFilled | kernel/fs/ext2.c:178-292 | a run that ends with a reader holding what a fill has written |
| BlockCacheUse.PinnedWayIsLeftAlone | kernel/fs/ext2.c:181-185 | a fill that finds its way pinned gives up without touching tag or data |
| BlockCacheUse.PinnedFillRestores | kernel/fs/ext2.c:186-195 | a fill that meets a reader after it has poisoned the tag puts it back and leaves the way as it was |
| BlockCacheUse.NeverBlocked | kernel/fs/ext2.c:178-292 | in every state of the invariant every reader and every fill has a next step, which brings its work down in a well-founded order |
| BlockCacheUse.ComesToEnd | kernel/fs/ext2.c:178-292 | so each can finish by itself, whatever the others are doing |
| BlockCache.Cache.FillWay | kernel/fs/ext2.c:178-202 | an unpinned way gets tag and data, a pinned way is left alone |
| BlockCache.Cache.WipeTags | kernel/fs/ext2.c:215-221 | no way names the block afterwards, and all other tags, data and pins stay |
| BlockCache.Cache.PickVictim | kernel/fs/ext2.c:223-242 | the first invalid way that is not pinned; without one, of the unpinned ways the first that was used longest ago; none exactly when all are pinned |
| BlockCache.Cache.Fill | kernel/fs/ext2.c:212-246 | the old copy of the block is gone, the way picked holds the new one and all other ways are as they were; the cache stays coherent: at most one way names a block, and it holds what is on disk |
| BlockCache.Cache.Get | kernel/fs/ext2.c:255-283 | what a read returns is what is on disk, from a pinned way exactly when a way names the block; a hit makes that way the one used last of all and moves the clock, a miss fills the cache as said |
| BlockCache.Cache.Release | kernel/fs/ext2.c:285-292 | one pin less, nothing else |
| BlockCache.Cache.WriteBlock | kernel/fs/ext2.c:610-615 | a write-through fills the cache with the new contents and keeps it coherent with the disk |
| BlockCache.LastReadStays | kernel/fs/ext2.c:223-242 | the block read last stays in the cache when another is filled in, unless every other way of the set is pinned |
| BlockCache.OtherSetsStay | kernel/fs/ext2.c:160-162 | a fill leaves alone all blocks whose numbers differ in the low six bits |
| VmaList.Mm.constructor | kernel/mm/mm.c:62-74 | a fresh address space, whose hint is aligned |
| VmaList.Mm.Find | kernel/mm/mm.c:192-199 | the area that contains the address, and none exactly when the address is not covered |
| VmaList.Mm.Add | kernel/mm/mm.c:91-134 | succeeds if and only if the range is non-empty, aligned, free and memory is there; every address of the range then has the flags given and no backing, every other address shows what it showed, and the list stays sorted and disjoint |
| VmaList.Mm.Remove | kernel/mm/mm.c:318-387 | the list becomes the pieces of its areas outside the range, stays sorted and disjoint, and the result is 1 if and only if something overlapped |
| VmaList.CutOne | kernel/mm/mm.c:324-383 | the pieces of one area cover exactly its addresses outside the range, with its flags; touched exactly when it overlaps |
| VmaList.CutCovers | kernel/mm/mm.c:324-383 | the same for each address, and an area that would have to be split and cannot be stays whole |
| VmaList.CutEach | kernel/mm/mm.c:320-386 | the walk over the changing list cuts every area once |
| VmaList.CutAllSorted | kernel/mm/mm.c:318-387 | the pieces are non-empty, start on a page, in order and disjoint |
| VmaList.RemovalIsDifference | kernel/mm/mm.c:318-387 | an address has some flags afterwards if and only if it had them before and lies outside the range, or in an area whose split could not be allocated |
| VmaList.RemovalCovers | kernel/mm/mm.c:318-387 | with the split allocated, the addresses covered afterwards are those covered before minus the range |
| VmaList.ContentKeptIff | kernel/mm/mm.c:338-382 | every surviving address keeps its backing content if and only if no area that is cut at the front shows a file or shared pages that the shift changes |
| VmaList.FrontCutShowsOtherBytes | kernel/mm/mm.c:379-382 | a mapping of two file pages whose second page shows the first page's bytes once the first is removed |
| VmaList.PieceKeepsContent | kernel/mm/mm.c:338-378 | the pieces of the other cases show the same file byte, zero tail or shared page at every address |
| VmaList.Mm.FindFree | kernel/mm/mm.c:395-423 | for every size and every aligned 64-bit hint: right if and only if nothing wraps or the wrapped search answers 0; a found address becomes the hint, which stays aligned, and a search that fails without a wrap leaves it |
| VmaList.Descend | kernel/mm/mm.c:400-422 | the outer loop computes the search and ends because the hint falls |
| VmaList.FirstOverlap | kernel/mm/mm.c:408-414 | the inner loop finds the first area the candidate meets |
| VmaList.SearchAnswers | kernel/mm/mm.c:395-423 | without wrap-around, from an aligned hint: the highest aligned start that fits below the hint, which lies above the guard, or 0 when no aligned start above the guard fits |
| VmaList.SearchIsRightIff | kernel/mm/mm.c:395-423 | for every list, size and aligned hint: right if and only if guard plus rounded size stay below 2^64, or the walk down the areas stops at a hint where the search gives up or finds address 0 |
| VmaList.LongSearch | kernel/mm/mm.c:403-414 | when the sum passes 2^64 and the hint does not lie below the length, the search walks down as if only the length bounded it, and answers 0 exactly under that condition |
| VmaList.WrappedSearch | kernel/mm/mm.c:403-414 | from a hint below the length, or with a length that has become 0, the search ends in its second turn at the latest; it gives up exactly when the hint is below the wrapped limit or the first candidate meets an area that starts below it |
| VmaList.EmptySpaceAnswersIff | kernel/mm/mm.c:395-423 | in an empty address space whose hint lies above the guard: right if and only if nothing wraps |
| VmaList.HugeRequestsAreMet | kernel/mm/mm.c:397-403 | requests for 2^64 - 1 and 2^64 - 4096 bytes in a fresh address space that are answered with an address |
| Ext2Bitmap.FindFree | kernel/fs/ext2.c:621-629 | the lowest clear bit, or the width when all are set |
| Ext2Bitmap.PutChangesOneBlock | kernel/fs/ext2.c:1565-1571 | one bit and its group's count change together: the count stays the number of clear bits and the free set changes by one block |
| Ext2Bitmap.FullIff | kernel/fs/ext2.c:1545-1576 | no block is free if and only if every group's count is zero |
| Ext2Bitmap.LowestFree | kernel/fs/ext2.c:1545-1574 | the first clear bit of the first group with a non-zero count is the lowest free block |
| Ext2Tree.LeRoundTrip | kernel/fs/ext2.c:1708-1711 | a 32-bit pointer stored in a block is read back, and no other byte changes |
| Ext2Tree.LeBytes | kernel/fs/ext2.c:1708-1711 | a word is four bytes, least significant first, both read and written; writing back what was read changes nothing |
| Ext2Tree.GetBlockReadsThePlace | kernel/fs/ext2.c:808-852 | inode_get_block reads the one place of the tree that belongs to the logical block, 0 past the double-indirect range |
| Ext2Tree.PlaceIsInjective | kernel/fs/ext2.c:808-852 | two logical blocks never share a place |
| Ext2Tree.LinkSingle | kernel/fs/ext2.c:1699-1707 | linking a fresh zeroed single-indirect block changes no other place of the tree |
| Ext2Tree.LinkDouble | kernel/fs/ext2.c:1720-1726 | the same for the double-indirect block |
| Ext2Tree.LinkL2 | kernel/fs/ext2.c:1732-1739 | the same for a second-level block, with the stores in the code's order |
| Ext2Tree.StoreSingle | kernel/fs/ext2.c:1708-1711 | storing a pointer in the single-indirect block changes that place only |
| Ext2Tree.StoreDouble | kernel/fs/ext2.c:1740-1743 | storing a pointer in a second-level block changes that place only |
| Ext2Volume.Volume.AllocBlock | kernel/fs/ext2.c:1542-1577 | the lowest free block, 0 if and only if every bitmap is full; counts stay exact |
| Ext2Volume.Volume.FreeBlock | kernel/fs/ext2.c:1581-1603 | adds exactly that block to the free set; block 0, numbers past the end and blocks already free change nothing |
| Ext2Volume.Volume.SetBlock | kernel/fs/ext2.c:1687-1747 | logical block i becomes b and every other logical block stays, in all three ranges and when indirect blocks are allocated; on failure no block of the tree is written, at most a double-indirect block is added, and the volume is full or the index out of range; only indirect blocks are written |
| Ext2Volume.Volume.EnsureSingle | kernel/fs/ext2.c:1699-1707 | the single-indirect block is there or allocated; all logical blocks stay |
| Ext2Volume.Volume.EnsureDouble | kernel/fs/ext2.c:1720-1726 | the same for the double-indirect block |
| Ext2Volume.Volume.EnsureL2 | kernel/fs/ext2.c:1732-1739 | the same for one second-level block |
| Ext2Volume.Volume.StoreInSingle | kernel/fs/ext2.c:1696-1712 | the single-indirect case of setting a block |
| Ext2Volume.Volume.StoreInDouble | kernel/fs/ext2.c:1716-1744 | the double-indirect case of setting a block |
| Ext2Volume.Volume.ReleaseWords | kernel/fs/ext2.c:1640-1645 | the loop over one pointer array frees exactly its non-zero entries, one call each |
| Ext2Volume.Volume.FreeInodeBlocks | kernel/fs/ext2.c:1637-1683 | exactly the data and indirect blocks of the inode become free, by as many calls as there are blocks; the first fourteen pointers become zero, so no logical block is left, and the fifteenth stays |
| Ext2Volume.Volume.ReleaseSmall | kernel/fs/ext2.c:1640-1657 | the part for direct blocks and the single-indirect tree |
| Ext2Volume.Volume.ReleaseDouble | kernel/fs/ext2.c:1659-1679 | the part for the double-indirect tree |
| Ext2Bytes.Probe | kernel/fs/ext2.c:880-886 | the longest consecutive run in one pointer array, up to the limit |
| Ext2Bytes.BuildRun | kernel/fs/ext2.c:869-963 | the first block and the run agree with inode_get_block on every block of the run, which is as long as asked or as its pointer array allows; a hole, a zero limit or a missing scratch buffer behind the direct blocks gives a run of one |
| Ext2Bytes.RunInDouble | kernel/fs/ext2.c:921-958 | the double-indirect part of that |
| Ext2Bytes.DataWriteCells | kernel/fs/ext2.c:1282-1288 | writing into one data block changes exactly those bytes of the file and no pointer |
| Ext2Bytes.FreshBlockCells | kernel/fs/ext2.c:1271-1280 | giving a hole a zeroed block changes no byte of the file, whether or not the pointer could be set |
| Ext2Bytes.WriteIsOverlay | kernel/fs/ext2.c:1248-1307 | bytes written at a position are an overlay of the file's bytes, and bytes past the end stay zero |
| Ext2File.OpenFile.constructor | kernel/fs/ext2.c:1059-1064 | a descriptor at position 0 whose byte sequence is what the disk holds |
| Ext2File.OpenFile.Write | kernel/fs/ext2.c:1248-1307 | for every buffer: exactly the positions behind the start, in 32 bits, hold the part written; the size recorded; the file's bytes become the old bytes overlaid with that part if and only if its end stays below 2^32 and it is not an endless write of no bytes that grows the file; gaps read as zero, append starts at the end; all is written only below 2^32 bytes, a longer request stops at its length modulo 2^32 or earlier for a full volume or the size limit; no other file's block changes |
| Ext2File.OpenFile.WriteSome | kernel/fs/ext2.c:1263-1293 | one turn of the write loop: one chunk more, or stopped with nothing written, or stuck at the length modulo 2^32 |
| Ext2File.OpenFile.WriteAll | kernel/fs/ext2.c:1263-1293 | the loop: which positions hold which bytes, the position and size recorded, and no more written than the length modulo 2^32 |
| Ext2Write.WroteTurn | kernel/fs/ext2.c:1266-1293 | one more chunk at the 32-bit position continues the data behind the start, past 2^32 too |
| Ext2Write.SizeTurn | kernel/fs/ext2.c:1291-1292 | the size recorded after a turn, in closed form: where the write ends, or the last block when it passed 2^32 |
| Ext2Write.WriteEnds | kernel/fs/ext2.c:1248-1307 | the bytes of the file are the overlay exactly under that condition, and bytes past the end stay zero below 2^32 |
| Ext2File.OpenFile.ProvideBlock | kernel/fs/ext2.c:1270-1280 | the block behind a position, allocated and zeroed if it is a hole; on failure the new block is given back and no byte changes |
| Ext2File.OpenFile.Overwrite | kernel/fs/ext2.c:1282-1288 | read-modify-write of part of a block, plain write of a whole one |
| Ext2File.OpenFile.Read | kernel/fs/ext2.c:1066-1168 | for every buffer: the slice of the file's bytes at the position, clamped at the end of the file; or stuck after the length modulo 2^32, if and only if the file goes on there and a turn begins in the block of that place, which is read off the blocks of the file |
| Ext2Read.ReadRun | kernel/fs/ext2.c:1098-1125 | the fast path delivers the file's bytes, stays inside the buffer, and takes a run of blocks as long as request and file (both in 32 bits), transfer and pointer array allow |
| Ext2Read.ReadPart | kernel/fs/ext2.c:1147-1164 | the slow path delivers the file's bytes, zeros for a hole |
| Ext2Read.RunOnDisk | kernel/fs/ext2.c:1106-1125 | all blocks of a run exist and its numbers do not wrap |
| Ext2Read.Transfer | kernel/fs/ext2.c:1078-1164 | one turn of either read loop brings the file's bytes, and brings none if and only if the rest of the request is a multiple of 2^32 |
| Ext2File.OpenFile.ReadAt | kernel/fs/ext2.c:1172-1245 | what is delivered is the file's bytes; when the loop ends, the count is right if and only if the last, partial block is not read in one run with the block before it, and otherwise it ends at the end of that block; it does not end under the condition of the plain read |
| Ext2Pread.PastEndHasSlack | kernel/fs/ext2.c:1195-1224 | a turn that passes the end of the file meets that condition on the block layout |
| Ext2Pread.UnderwayEnds | kernel/fs/ext2.c:1181-1242 | a loop that ends without such a turn does not meet it |
| Ext2Pread.StopsAtPadding | kernel/fs/ext2.c:1195-1224 | a turn that passes the end stops at the end of the last block |
| Ext2Loops.SevenAndAQuarter | kernel/fs/ext2.c:1134-1141 | a file of 7447 bytes in eight consecutive blocks meets the condition |
| Ext2Pread.TakenIsStretch | kernel/fs/ext2.c:1098-1108 | the run of a turn is the longest stretch of adjacent blocks within its bound; block 0 is read alone when the file ends less than a block below 2^32, and so are the blocks behind the direct ones without scratch memory |
| Ext2Stuck.AskedBlocks | kernel/fs/ext2.c:1099 | the blocks of a request in 32 bits: those of its length in 32 bits when the count of 2^32 multiples is a multiple of the block size, and otherwise no bound |
| Ext2Stuck.TurnIs | kernel/fs/ext2.c:1078-1145 | what a turn of a request of any length brings |
| Ext2Stuck.StepsOver | kernel/fs/ext2.c:1098-1145 | a run that steps over the place where the rest is a multiple of 2^32 shows that the condition does not hold |
| Ext2Stuck.ShortTurnSticks | kernel/fs/ext2.c:1086-1088 | a turn that ends at that place shows that it does |
| Ext2Loops.ReadEnds | kernel/fs/ext2.c:1078-1168 | the loop of the plain read is stuck if and only if the condition holds |
| Ext2Loops.PreadEnds | kernel/fs/ext2.c:1181-1245 | the positional loop: stuck and slack, each with its condition |
| Ext2Loops.FifteenHundredMore | kernel/fs/ext2.c:1086-1099 | for a file of 7447 bytes and a request of 2^32 + 1500 the condition is whether the first two blocks are not adjacent |
| Ext2File.ReadAtCountsSlack | kernel/fs/ext2.c:1172-1245 | its positional read returns 8192 |
| Ext2File.ReadFourGiB | kernel/fs/ext2.c:1086-1088 | a read of 2^32 bytes inside any file delivers nothing and does not end |
| Ext2File.ReadBeyondFourGiB | kernel/fs/ext2.c:1086-1099 | a read of 2^32 + 1500 bytes of a file of 7447 delivers all of it, or 1500 bytes without end, by where its second block lies |
| Ext2File.WriteFourGiB | kernel/fs/ext2.c:1268-1270 | a write of 2^32 bytes writes nothing, and does not end unless there is no room |
| Ext2File.WriteAroundTheEnd | kernel/fs/ext2.c:1290-1292 | the second half of twenty bytes written ten before 2^32 lies at the start of the file |
| Ext2File.OpenFile.Seek | kernel/fs/ext2.c:1309-1320 | the position becomes the result modulo 2^32; negative results and unknown origins change nothing |
| Ext2Dirent.TilesConcat | kernel/fs/ext2.c:987-999 | records behind a tiled prefix are read as if they stood alone |
| Ext2Dirent.PutRecordIs | kernel/fs/ext2.c:1802-1807 | a record written as bytes is read back with its inode, length, name and file type |
| Ext2Dirent.RecordBytes | kernel/fs/ext2.c:1802-1807 | the layout byte by byte: inode and record length least significant byte first, name length, file type, name |
| Ext2Dirent.WriteRecord | kernel/fs/ext2.c:1824-1832 | a record written over the start of a tail leaves a tiled tail with one live entry in front, of that name, inode and file type |
| Ext2Dirent.ShrinkRecord | kernel/fs/ext2.c:1836-1837 | a record cut to the bytes its name needs is the same entry |
| Ext2Dirent.SplitRecord | kernel/fs/ext2.c:1834-1846 | a record with slack becomes two records that tile the same bytes |
| Ext2Dirent.AddHere | kernel/fs/ext2.c:1819-1846 | the record is reused or split exactly when it offers room, and one entry is added |
| Ext2Dirent.AddInBlock | kernel/fs/ext2.c:1812-1849 | an entry is added to a block if and only if some record of it offers room; the block stays tiled |
| Ext2Dirent.FindInBlock | kernel/fs/ext2.c:987-999 | the first live record with the name, or none in the block |
| Ext2Dirent.DeleteAt | kernel/fs/ext2.c:1906-1913 | zeroing the inode removes exactly that entry and keeps the block tiled |
| Ext2Entries.FindInserted | kernel/fs/ext2.c:1753-1871 | adding an absent name adds that lookup and changes no other |
| Ext2Entries.FindRemoved | kernel/fs/ext2.c:1877-1925 | removing a name removes that lookup and changes no other |
| Ext2Dir.Directory.Lookup | kernel/fs/ext2.c:969-1010 | the inode of the first entry with the name in block order, 0 when there is none |
| Ext2Dir.Directory.Add | kernel/fs/ext2.c:1753-1871 | the new name is looked up as the child and its entry has the file type given, every other entry stays, names stay distinct and blocks tiled; fails only when no record has room and the volume is full or the block tree ends, and then the inode is as before and at most one block is lost; no other file's block changes |
| Ext2Dir.Directory.Append | kernel/fs/ext2.c:1779-1810 | a new last block with the given bytes, allocated and linked into the inode's tree; all other blocks of the directory stay |
| Ext2Dir.Directory.Grow | kernel/fs/ext2.c:1779-1792 | a block behind the last one, and no block of the directory changes; on failure the inode is as before and at most one block is lost |
| Ext2Dir.Directory.WriteBlock | kernel/fs/ext2.c:1807-1844 | writing one block changes that block of the directory only |
| Ext2Dir.FirstRoom | kernel/fs/ext2.c:1773-1857 | the first block with room, with the entry added |
| Ext2Dir.Search | kernel/fs/ext2.c:969-1010 | the first record with the name in block order |
| Ext2Dir.Directory.Remove | kernel/fs/ext2.c:1877-1925 | succeeds if and only if the name is there, and removes only that lookup; no other file's block changes |
| Ext2Dir.OnlyRecord | kernel/fs/ext2.c:1800-1810 | a new block holds one record over all of it |
| IoUringCq.FullIff | kernel/io/io_uring.c:265-268 | the 32-bit difference test says full exactly when no slot is free |
| IoUringCq.StepKeepsInv | kernel/io/io_uring.c:256-325 | every step of a post, and every take by the user, keeps the ring invariant under wrapping indices |
| IoUringCq.NothingLost | kernel/io/io_uring.c:256-325 | in every run each completion that was not dropped is either published or in the overflow list, once; the user takes the published ones in order, each from a slot that still holds it |
| IoUringCq.EveryPostAccepted | kernel/io/io_uring.c:256-325 | while memory can be had, the accepted completions are all that were posted, in order |
| IoUringCq.FinishKeepsOrderIff | kernel/io/io_uring.c:283-322 | the end of a post keeps first-in first-out order if and only if the overflow list is empty or the ring is full, and this holds whenever the head stood still |
| IoUringCq.QuietRunsAreFifo | kernel/io/io_uring.c:256-325 | strict order in every run without a take between drain loop and reload |
| IoUringCq.OrderCanBreak | kernel/io/io_uring.c:283-290 | a run that publishes the third completion before the second |
| IoUringCq.Post | kernel/io/io_uring.c:256-325 | with a head that stands still the overflow list moves into the ring in order as far as it fits, and the new completion goes behind it; it is dropped only without memory |
| IoUringChain.CancelledIff | kernel/io/io_uring.c:636-657 | a request is cancelled if and only if an earlier one failed under IO_LINK and every request from there up to it carries IO_LINK or IO_HARDLINK |
| IoUringChain.HardLinkPasses | kernel/io/io_uring.c:978-998 | a failure under IO_HARDLINK alone cancels nothing, one under IO_LINK cancels past a hard link up to the end of the chain and no further |
| IoUringChain.RunChain | kernel/io/io_uring.c:636-657 | the worker gives each request of a chain the result of the chain rule |
| IoUringChain.RunWorker | kernel/io/io_uring.c:628-657 | the stack of chains, last pushed first, yields the completions of all of them |
| IoUringChain.EnqueueChain | kernel/io/io_uring.c:718-767 | the chain from one request to the first that is not linked |
| IoUringChain.CancelRest | kernel/io/io_uring.c:986-998 | the inline loop cancels exactly the rest of the chain, as far as the budget goes |
| IoUringChain.Submit | kernel/io/io_uring.c:943-999 | every consumed request is completed inline or lies in exactly one pushed chain, with the result of the chain rule; it stops where the costs say, and the count returned is one for each chain and one for each inline completion; these come in the order of the queue; a chain goes to the worker exactly when its first request is marked async, or may block and is not marked sync |
| IoUringChain.SubmitInline | kernel/io/io_uring.c:972-998 | one inline turn |
| IoUringChain.SubmitAsync | kernel/io/io_uring.c:955-969 | one turn that hands a chain over |
| IoUringChain.Enter | kernel/io/io_uring.c:940-1001 | the completions of a call and its worker are exactly one per consumed request; a budget of at least the queue length consumes all |
| IoUringChain.LogHasEachOnce | kernel/io/io_uring.c:943-999 | each request occurs once, with its result |
| IoUringChain.RouteDoesNotMatter | kernel/io/io_uring.c:946-969 | two calls on queues that differ only in operations, async and sync flags: every request both consume completes once with the same result; with budget for all, the same completions |
| IoUringChain.SplitAgreesIff | kernel/io/io_uring.c:986-998 | two calls complete their requests by the chain rule of the whole queue if and only if the first does not stop at a request to be cancelled, or the second consumes nothing |
| IoUringChain.EnterTwice | kernel/io/io_uring.c:943-999 | the same of two calls with any two budgets, and agreement for every outcome of the requests when the first budget cannot cut a chain |
| IoUringChain.BudgetCutsIff | kernel/io/io_uring.c:986-998 | a budget can cut a chain, as read off the queue, if and only if some outcome of the requests makes a call stop at a request to be cancelled |
| IoUringChain.CutHappens | kernel/io/io_uring.c:986-998 | that outcome, constructed |
| IoUringChain.CutNeedsRoom | kernel/io/io_uring.c:986-998 | every call that stops at a request to be cancelled had such a budget |
| IoUringChain.BudgetCutsAChain | kernel/io/io_uring.c:986-998 | one call cancels a dependant that two calls of one request each run |
| PathNormalize.Normalize | kernel/fs/virtfs.c:310-340 | the buffer becomes "/" and the join of the resolved components; a path that is not absolute is left alone |
| PathNormalize.Turn | kernel/fs/virtfs.c:320-336 | one turn of the loop reads one slash or component, does to the stack what the component says, and leaves every byte still to be read as it was |
| PathNormalize.Push | kernel/fs/virtfs.c:331-335 | a component is copied down in place with its separator |
| PathNormalize.CopyDown | kernel/fs/virtfs.c:332-332 | an overlapping copy towards the front delivers the source bytes and leaves what lies behind them |
| PathNormalize.StacksAgreeIff | kernel/fs/virtfs.c:327-331 | bounded and unbounded stack, equal or the bounded one shorter, agree in the end if and only if they are equal and no ".." is too deep from here on, or from a later visit to the root on |
| PathNormalize.ResolvesTrulyIff | kernel/fs/virtfs.c:327-331 | a path is resolved as by an unlimited stack if and only if, from some point on where it is at the root, no ".." meets more than 128 live components |
| PathNormalize.DeepPathLosesComponents | kernel/fs/virtfs.c:310-340 | normalising the path of more than 128 components and ".." leaves 127 of them |
| PathNormalize.NormalizeTwice | kernel/fs/virtfs.c:310-340 | normalising a second time changes nothing, for every absolute path |
| Initcall.CountDeps | kernel/main/initcall.c:66-87 | the in-degree is the number of other nodes of the level that the node depends on, plus the repetitions among its dependencies |
| Initcall.Seed | kernel/main/initcall.c:66-96 | the queue starts with exactly the nodes of degree zero |
| Initcall.LowerNode | kernel/main/initcall.c:129-143 | a node loses one degree exactly when it depends on the one that ran, and is queued once, at zero, inside the queue array |
| Initcall.RunDag | kernel/main/initcall.c:45-159 | each initcall runs at most once and after all its in-level dependencies; without a required failure fewer than all run if and only if the dependencies have a cycle or some initcall repeats one; what did not run could not |
| Initcall.RepetitionLooksLikeCycle | kernel/main/initcall.c:129-157 | two initcalls without a cycle of which only the first runs |
| Initcall.RepeatedIff | kernel/main/initcall.c:66-87 | the surplus of the in-degree is zero exactly when no dependency of the level is repeated |
| Initcall.StuckHasCycle | kernel/main/initcall.c:146-157 | without repetitions, nodes left with unmet dependencies contain a cycle |
| Initcall.WalkGoesBack | kernel/main/initcall.c:98-144 | in a complete order every walk along dependencies goes back, so none is a cycle |
| TimerFd.FiredCounts | kernel/io/timerfd.c:146-154 | the count computed by division is the number of k with start + k * interval at or before the time |
| TimerFd.NextExpiryIsLaterIff | kernel/io/timerfd.c:148-153 | the new expiry lies behind now if and only if the step does not pass 2^64 |
| TimerFd.LongIntervals | kernel/io/timerfd.c:148-153 | a timer of interval 2^64 - 1 that one tick counts twice, and one of interval 2^63 that comes back to the same expiry |
| TimerFd.EarlyReturnSkipsNothing | kernel/io/timerfd.c:122-123 | when the cached head expiry lies ahead no timer is due |
| TimerFd.Insert | kernel/io/timerfd.c:87-96 | the timer goes behind all that expire no later; the list stays sorted |
| TimerFd.Remove | kernel/io/timerfd.c:99-111 | exactly that timer leaves the list, which stays sorted |
| TimerFd.FireTimer | kernel/io/timerfd.c:146-154 | one expiration keeps the timer's account; a periodic timer is no longer due if and only if its step stays below 2^64 |
| TimerFd.FireHead | kernel/io/timerfd.c:140-160 | one turn of the drain loop makes one timer fewer due and keeps all accounts, or leaves a timer due whose step does not fit |
| TimerFd.Drain | kernel/io/timerfd.c:140-160 | the drain loop meets a timer that is still due after it fired if and only if some due periodic timer's step does not fit; otherwise it ends with none due and all accounts kept |
| TimerFd.TimerQueue.Tick | kernel/io/timerfd.c:117-167 | the same of a tick; without such a timer, for every timer that was armed, values read plus pending equal the number of its expirations up to now, however ticks are spaced, and the cached head expiry is right; a timer that was not due is unchanged, and one that was due stays on the list exactly when it is periodic |
| TimerFd.TimerQueue.constructor | kernel/io/timerfd.c:70-85 | no timer, and the head expiry says so |
| TimerFd.TimerQueue.Create | kernel/io/timerfd.c:222-247 | a timer with no expiry, no interval and nothing pending; others stay |
| TimerFd.TimerQueue.Close | kernel/io/timerfd.c:199-211 | the timer leaves list and queue, others stay |
| TimerFd.TimerQueue.Read | kernel/io/timerfd.c:170-187 | the pending count is returned and zeroed, nothing is lost; too short a buffer or nothing pending is an error and changes nothing |
| TimerFd.SetTime | kernel/io/timerfd.c:256-310 | the timer leaves its CPU's list and joins the calling CPU's with its expiry at the absolute time, or at now plus the relative time in 64 bits, and the interval given, or is disarmed; the time left and interval before are returned, what is pending stays pending, other timers stay |
| TimerFd.ArmThenTick | kernel/io/timerfd.c:117-310 | from a relative setting to a later tick the count that can be read grows by exactly the number of expirations from now plus the value on, none before its time |
| PageCacheClock.PageCache.constructor | kernel/mm/pcache.c:94-101 | an empty cache |
| PageCacheClock.PageCache.Lookup | kernel/mm/pcache.c:141-156 | the chain walk finds a key exactly when the cache holds it |
| PageCacheClock.PageCache.Get | kernel/mm/pcache.c:134-162 | agrees with a plain map, and a hit hands the caller one reference |
| PageCacheClock.PageCache.Insert | kernel/mm/pcache.c:164-219 | a new key is added and the caller keeps its reference; for a known key the caller's reference is exchanged for one to the frame in the cache |
| PageCacheClock.PageCache.Drop | kernel/mm/pcache.c:288-312 | an entry leaves chain, ring and map together and takes one reference with it |
| PageCacheClock.PageCache.EvictInode | kernel/mm/pcache.c:221-249 | exactly the pages of the inode leave the cache |
| PageCacheClock.PageCache.EvictOne | kernel/mm/pcache.c:257-318 | finds a victim within two turns if and only if some entry's frame has at most one reference; the victim is the one the second-chance policy picks and no caller holds its frame; it alone leaves, the hand stands where it was, and each accessed bit is turned over once for every visit; without a victim nothing changes |
| PageCacheClock.Sweep | kernel/mm/pcache.c:264-286 | the scan changes accessed bits and the hand only, finds a victim exactly when there is one, and leaves the hand behind it; bits are turned over once for every visit, so two full turns leave them as they were |
| PageCacheClock.Chosen | kernel/mm/pcache.c:270-291 | the victim is the first entry from the hand on that can be evicted and was not accessed, or the first that can be evicted when all of those were accessed |
| PageCacheClock.OneChoice | kernel/mm/pcache.c:270-291 | ring, bits and references settle the victim: the policy allows no second choice |
| PageCacheClock.EvictableIsFree | kernel/mm/pcache.c:279-286 | a frame with at most one reference that is in the cache is held by no caller |
| PageCacheSteps.StepKeepsInv | kernel/mm/pcache.c:164-312 | under every interleaving of insertions, reclaims and inode evictions, an entry that can be found is in the ring or in the window of exactly one insertion or reclaim |
| PageCacheSteps.UnringFaultsIff | kernel/mm/pcache.c:232-241 | in every reachable state an inode eviction takes an entry out of the ring that is not in it if and only if an insertion or a reclaim has it in its window |
| PageCacheSteps.ApartRunsAreSafe | kernel/mm/pcache.c:164-312 | in every run whose operations do not meet on an entry, that never happens and every entry is released at most once |
| PageCacheSteps.ReleasedOnce | kernel/mm/pcache.c:164-312 | in every run up to a fault, no entry is released twice; before a fault, an entry that was inserted is in the ring, in the hands of one operation, or released once |
| PageCacheSteps.Inserts | kernel/mm/pcache.c:164-219 | an insertion that nobody meets, from any state: the entry is in chain and ring and nothing else changes |
| PageCacheSteps.Reclaims | kernel/mm/pcache.c:288-312 | a reclaim that nobody meets takes the entry out of both and releases it once |
| PageCacheSteps.Evicts | kernel/mm/pcache.c:221-249 | an inode eviction that nobody meets does the same, and the lock is free again |
| PageCacheSteps.ComesToEnd | kernel/mm/pcache.c:164-312 | every operation under way can be brought to its end unless the fault comes first: who holds the lock needs nobody to give it back |
| PageCacheSteps.ReclaimMeetsEviction | kernel/mm/pcache.c:76-86 | a run in which an inode eviction takes an entry out of the ring that reclaim has taken out, and faults |
| PageCacheSteps.InsertionMeetsEviction | kernel/mm/pcache.c:76-86 | a run in which an inode eviction takes an entry out of the ring that has not joined it, and faults |

## Left out

- Ext2Volume.Volume.AllocBlock: assumes, as every ext2 volume does, that the first data block is 0 or 1 and that block 0 is never free, since the code uses 0 for failure.
- Ext2File.OpenFile.Write: a stuck loop is left at its first idle turn.
- Ext2File.OpenFile.Read: a stuck loop is left at its first idle turn; scratch memory is there in all turns or in none.
- Ext2File.OpenFile.ReadAt: for a file whose last block ends at 2^32 and is counted in full, the position wraps to 0 and the loop reads the file again; whether it ends is then not said. Scratch memory as for Read.
- Ext2File.OpenFile.Seek: the 64-bit sum of position and offset does not overflow.
- Ext2Dir.Directory.Add: names have at most 255 bytes, which is what the length byte of a record can hold, and the name is absent, which the callers look up first; the directory's 32-bit size does not wrap.
- TimerFd.TimerQueue.Tick: ends at the first timer that is still due after it fired; what the code counts from there on is shown for two timers.
- TimerFd.TimerQueue.Read: the blocking read waits for a tick, which is not modelled; pending counts are not cut to 64 bits.
- TimerFd.SetTime: times are nanoseconds; their split into seconds is not modelled.
- Initcall.RunDag: starts from the loaded nodes, and requires distinct names, by which dependencies are told.
- PathNormalize.CopyDown: the code uses memcpy on overlapping bytes; the model copies forwards.
- IoUringCq.NothingLost: the user only moves the head over published entries; a head that jumps past the tail is not modelled.
- IoUringChain.Submit: the submission queue is the sequence of entries between head and the tail snapshot, allocation of work items succeeds, and the result of running a request is a function of its position in the queue.
- PageCacheClock.PageCache.EvictOne: atomic; PageCacheSteps.StepKeepsInv has the locks, for the entries of one bucket. The hash is an arbitrary function into the buckets.
- Buddy.BuddyAllocator.Alloc: the free-page count is kept by each release, where the code counts once after boot.
- Pmm.PageAllocator.DrainAll: one atomic step, as its caller guarantees.
- PmmRuns.Perform: calls are atomic, and calls for frames the caller can have no reference to are refused; RefInc says what the code does on such a frame.
- Pmm.PageAllocator.Reclaim: the empty slabs are handed in; slabs whose release waits for an RCU grace period are not modelled.
- Pmm.PageAllocator.Pin: the pinned user-page list is not modelled.
- VmaList.Mm.Add: anonymous areas only; file-backed insertion adds fields and no new list logic. RCU readers of the list are not modelled.
- BlockCachePins.StepKeepsInv: one set of ways; the disk is not part of the step model.
- ext2 I/O errors, inode allocation and the inode cache: they add error paths and a second bitmap of the same shape.
- Bit packing of the block bitmaps: a bitmap is a sequence of booleans.
- Weak memory beyond the sender's store buffer in the shootdown, and RCU.
- Slab allocator, dentry cache, FAT32, wait queues, sockets, SHA-256, ChaCha20 and drivers: simpler than the above, or without the invariant their headers describe.
