# Verified model of the bootloader and kernel core

This project models the parts of an x86-64 bootloader and poll-based kernel that can be reasoned about
without hardware, and proves what they are for:

* **Memory.** The physical allocator (`RangeSet`, a sorted fixed-capacity array of inclusive ranges), the
  bootloader heap on top of it, four-level page tables written word by word into physical memory with a
  reference count packed into entry bits 52 to 61, the ELF loader, the kernel address space that
  `load_kernel` leaves behind, the free lists that keep their bookkeeping inside the free blocks, and the
  size-class heap built from them.
* **Concurrency.** The ticket spinlock with wrapping counters, its combination with nested interrupt
  disabling and maskable interrupts, and the bring-up of the application processors.
* **Network.** The transmit ring against a device that completes descriptors, the splitting cursor, the
  Ethernet/IPv4/IPv6/UDP builders and parsers, the ones-complement checksum and the DHCP option codec.

Objects that the source updates in place are classes (`RangeSet`, `PageTable`, `FreeList`, `Cursor`,
`UdpBuilder`, ...); physical memory is an explicit sequence of 64-bit words. Protocols between cores or with a
device are transition systems with one atomic action per step, and the theorems range over all runs. Integers
are unbounded in Dafny, so every wrap-around, checked addition and truncation of the source is written out;
masks and shifts are divisions and remainders by powers of two. Results of the source that are panics are
values of their own (`Panicked`, `None`, `ok == false`).

Files follow the components: `Ranges`, `Allocation`, `RangeSet`, `BootHeap`; `PageWalk`, `PageTree`,
`PageEdits`, `PhysicalMemory`, `PageTable`, `PageMapping`; `Bytes`, `Loading`, `Elf`, `KernelLoader`,
`KernelSpace`, `MemoryMap`; `FreeList`, `KernelHeap`, `KernelAlloc`,
`HeapMemory`, `HeapTracking`, `KernelMap`; `TicketLock`, `InterruptMasking`,
`Bringup`; `TxRing`, `Checksum`, `Cursor`, `Frames`, `UdpBuilder`, `Dhcp`; `Machine` holds the integer types and
a few facts about division. `dafny verify dfyconfig.toml` checks everything.

## Where code and documentation differ

The model follows the code.

* `insert` keeps entries sorted and disjoint but not maximally merged: a range that only touches the entry on
  its right stays separate (`Touches`). A failing `insert` is not always without effect: if the last entry ends
  at the last address, entries that were about to be merged are gone (`FailedInsertForgets`); `InsertPost` says
  exactly when.
* `allocate_prefer` gives up on the first entry whose end computation overflows, even after a fit was found
  (`GivesUp`; `FittingEntryNotUsed` gives two entries and a request for which this happens).
* `RangeSet::len` guards one addition and not the other: when all addresses are covered by several entries the
  unguarded sum overflows (`SumOverflow`; `TwoEntriesOverflow` gives the entries).
* `map` does not zero pages, whatever its comment says: without an initializer nothing is claimed of contents.
* `try_set_position` compares with the limit only, not with the length of the buffer.
* `load_kernel` ignores the result of `map_init`: the guarantee is about the segments whose mapping succeeded.
* `finalize` of a UDP packet runs again when the builder is dropped. Calling it explicitly over IPv6 therefore
  leaves 0xFFFF as the checksum, which verifies exactly when the sum of what was to be sent is a multiple of
  0xFFFF (`FinalizedTwice`); an empty datagram between unspecified addresses does not (`SecondPassBreaks`).
* A handler never waits for code that it interrupted, but it can wait for itself: asking again for a no-preempt lock
  whose guard it holds puts its ticket behind its own (`SecondRequestWaitsForItself`). That is the only way
  (`WaitsForOtherCores`); `interrupt_entry` runs handlers with the guard of `interrupts()` alive.
* `split_entry` notices too late that nothing is left above the range: the entries are damaged by then
  (`SplitPost`). `remove` never calls it that way.
* `parse_udp` tries IPv6 after any failure of IPv4, so that a malformed IPv4 packet is reported as an unsupported version
  (`UdpErrors`).
* The IPv4 header checksum is stored in machine byte order. On this target the header therefore verifies exactly when
  the two bytes of the checksum are equal (`Ipv4CrcVerifiesIff`).
* The DHCP option loop does not stop at the end option, and a message type may carry extra bytes (`ParsedBytes`).

## Model

| member | source | states |
|---|---|---|
| `Ranges.Range.Overlaps` | shared/rangeset/src/lib.rs:70-77 | there is an overlap iff some address lies in both ranges, and it holds exactly the common addresses |
| `Ranges.NewRange` | shared/rangeset/src/lib.rs:48-55 | fails iff start is beyond end; otherwise holds exactly the addresses between |
| `Ranges.SpliceIsUnion` | shared/rangeset/src/lib.rs:147-186 | replacing the merged window by the grown range denotes set union |
| `Ranges.SplicedInsert` | shared/rangeset/src/lib.rs:147-186 | the successful outcome of an insertion stays sorted and disjoint and is the union |
| `Ranges.GrownHolds` | shared/rangeset/src/lib.rs:147-186 | the entries that touch the range, and no others, are replaced by one that holds them and the range and nothing beyond their ends |
| `Ranges.BlockedInsert` | shared/rangeset/src/lib.rs:147-186 | the outcome when the scan meets an entry that ends at the last address: which entries are lost |
| `Ranges.FailedInsertForgets` | shared/rangeset/src/lib.rs:147-186 | a concrete set and range for which a failing insertion forgets free memory |
| `Ranges.CutAllCovers` | shared/rangeset/src/lib.rs:195-236 | cutting a range out of every entry denotes set difference |
| `Ranges.CutAllSorted` | shared/rangeset/src/lib.rs:195-236 | ... and keeps the entries sorted and disjoint |
| `Ranges.RemoveDone` | shared/rangeset/src/lib.rs:195-236 | a completed removal is set difference and its flag is true iff the intersection was not empty |
| `Ranges.SumCountsAddresses` | shared/rangeset/src/lib.rs:115-119 | for sorted entries, the sum of lengths is the number of addresses covered |
| `RangeSets.RangeSet.constructor` | shared/rangeset/src/lib.rs:102-107 | a new set is empty and valid |
| `RangeSets.RangeSet.Len` | shared/rangeset/src/lib.rs:115-119 | the number of covered addresses, unless all of them are covered; which of the two failures then occurs |
| `RangeSets.TwoEntriesOverflow` | shared/rangeset/src/lib.rs:115-119 | two entries that cover everything, for which the sum overflows |
| `RangeSets.RangeSet.Delete` | shared/rangeset/src/lib.rs:127-141 | removes exactly the entry at the index, or reports it out of bounds and changes nothing |
| `RangeSets.RangeSet.Insert` | shared/rangeset/src/lib.rs:147-186 | sorted and disjoint; success is set union, one entry holds the range and everything it touches and the others are as before; succeeds exactly when not blocked and there is room or something to merge; what a failure leaves |
| `RangeSets.RangeSet.SplitEntry` | shared/rangeset/src/lib.rs:243-281 | result and entries in every case: refused, split, sharing a border with the entry, or failing after the entries were changed |
| `Ranges.SplitInside` | shared/rangeset/src/lib.rs:243-281 | a range strictly inside an entry leaves exactly the two pieces that set difference asks for |
| `RangeSets.RangeSet.CutEntry` | shared/rangeset/src/lib.rs:214-232 | one entry that meets the range is replaced by what is left of it; fails, unchanged, iff it must be split in a full set |
| `RangeSets.RangeSet.Remove` | shared/rangeset/src/lib.rs:195-236 | every entry is replaced by what the range leaves of it, which is set difference, with a true flag iff something was removed; fails iff a full set would have to be split, and then changes nothing |
| `Allocation.PaddingIsLeast` | shared/rangeset/src/lib.rs:309-315 | the padded start is the first aligned address of the entry |
| `Allocation.FitsIff` | shared/rangeset/src/lib.rs:309-321 | an entry fits iff it holds an aligned block of the size, and the padded start is the first one |
| `Allocation.AlignUpIsPadded` | shared/rangeset/src/lib.rs:337-341 | rounding up gives the first aligned address, unless that does not fit 64 bits and wraps |
| `Allocation.FitsInIff` | shared/rangeset/src/lib.rs:323-366 | the region check succeeds iff some aligned block lies in both entry and region, and then rounding up gives the least such block |
| `Allocation.PreferredFits` | shared/rangeset/src/lib.rs:323-366 | an entry that can serve a preferred region can serve the request at all |
| `Allocation.ChosenIsFree` | shared/rangeset/src/lib.rs:291-397 | a chosen block is aligned, of the right size, and was wholly free in one entry |
| `Allocation.BestStep` | shared/rangeset/src/lib.rs:368-374 | keeping the smaller candidate keeps the first entry of least padding |
| `Allocation.SplitOnlyInRegion` | shared/rangeset/src/lib.rs:377-384 | taking the chosen block splits an entry iff it comes from the middle of a preferred region |
| `Allocation.ChosenUnique` | shared/rangeset/src/lib.rs:303-375 | the block is determined by the entries and the request |
| `Allocation.PreferredIfPossible` | shared/rangeset/src/lib.rs:323-366 | the block lies in a preferred region iff any entry and region have room for one in common, and then at the first address for it |
| `Allocation.ServedOrNot` | shared/rangeset/src/lib.rs:291-385 | a well-formed request gets a block iff something fits, no overflow stops the search, and a full set need not be split |
| `Allocation.FittingEntryNotUsed` | shared/rangeset/src/lib.rs:317-321 | a set and a request for which an entry fits and nothing is returned |
| `RangeSets.RangeSet.FindBlock` | shared/rangeset/src/lib.rs:303-375 | finds nothing iff the search gives up on an overflow or no entry fits; otherwise a block in a preferred region if any overlap holds one, else the first entry of least padding |
| `RangeSets.RangeSet.AllocatePrefer` | shared/rangeset/src/lib.rs:291-397 | the block is taken out of the set and nothing else is; both argument errors; no memory, and the panic of the inner removal, each iff its condition; without regions that removal never fails |
| `BootHeaps.AllocConserves` | bootloader/src/mm.rs:69-76 | an allocation keeps free, live and lost memory disjoint and their union the same |
| `BootHeaps.FreeConserves` | bootloader/src/mm.rs:78-95 | so does a matching free |
| `BootHeaps.RunConserves` | bootloader/src/mm.rs:68-95 | in every state of every run, free ranges, live blocks and lost padding partition the initial memory map |
| `BootHeaps.BootHeap.Alloc` | bootloader/src/mm.rs:69-76 | is a step of such a run; served iff some entry fits and the search does not give up; padding below the alignment; the null pointer means failure while address zero is not free |
| `BootHeaps.BootHeap.Dealloc` | bootloader/src/mm.rs:78-95 | returns exactly the block, or panics iff the range set cannot take it |
| `PageWalks.BumpKeepsMeaning` | shared/page_table/src/lib.rs:531-533 | bumping the count changes neither flags nor table address, whatever the count |
| `PageWalks.BumpCounts` | shared/page_table/src/lib.rs:531-533 | below 1023 the count rises by one and bits 62, 63 and 0 to 51 stay |
| `PageWalks.BumpSpills` | shared/page_table/src/lib.rs:531-533 | a full count wraps to zero and sets bit 62; bit 63 and bits 0 to 51 stay |
| `PageWalks.TableEntryFields` | shared/page_table/src/lib.rs:540-543 | a new table entry is present, not large, open to writing and user code, points to the table and counts zero |
| `PageWalks.SameIndices` | shared/page_table/src/lib.rs:264-271 | canonical addresses share the indices down to a level iff they share the block of that level |
| `PageTrees.WalkIsPageAt` | shared/page_table/src/lib.rs:314-388 | the walk over memory finds what the tree of tables says |
| `PageTrees.WalkOnPath` | shared/page_table/src/lib.rs:330-341 | the entries reported are the slots on the path of the address, down to the last table |
| `PageTrees.PathIsOpen` | shared/page_table/src/lib.rs:540-543 | every table entry on the way to an address allows writing and user access, so that the page entry alone decides |
| `PageTrees.UnmappedTogether` | shared/page_table/src/lib.rs:471-495 | if an address is unmapped and no smaller pages are below, the whole page around it is unmapped |
| `PageTrees.LinkKeepsPages` | shared/page_table/src/lib.rs:539-543 | linking a fresh empty table changes no translation |
| `PageTrees.PageWritten` | shared/page_table/src/lib.rs:571-577 | writing a page entry changes the translation of exactly the addresses that pass it |
| `PageTrees.CountNeverSpills` | shared/page_table/src/lib.rs:531-566 | a correct count is at most 512, so one more stays in bits 52 to 61 and touches nothing else |
| `PageTrees.BumpedAhead` | shared/page_table/src/lib.rs:551-569 | between bump and write the counts are right except one edge, which is ahead by one |
| `PageTrees.WriteCatchesUp` | shared/page_table/src/lib.rs:571-577 | writing the page entry makes all counts right again |
| `PageTrees.LinkCatchesUp` | shared/page_table/src/lib.rs:539-543 | so does linking the table |
| `PageEdits.GrowTree` | shared/page_table/src/lib.rs:504-549 | one round of table creation: still a tree, no translation changed, counts kept, memory elsewhere untouched |
| `PageEdits.PlacePage` | shared/page_table/src/lib.rs:551-577 | the final bump and write: still a tree, one page added, counts kept, memory elsewhere untouched |
| `PhysicalMemories.PhysicalMemory.AllocPhys` | bootloader/src/mm.rs:33-39 | an aligned block is carved out of free memory; fails iff the range set cannot serve it |
| `PhysicalMemories.PhysicalMemory.AllocPageZeroed` | shared/page_table/src/lib.rs:87-99 | the same for a page that is also zeroed, changing no other word |
| `PageTables.PageTable.constructor` | shared/page_table/src/lib.rs:286-292 | a zeroed root translates nothing and all its counts are right |
| `PageTables.PageTable.Components` | shared/page_table/src/lib.rs:314-388 | the loop computes the walk; an address that is not canonical is refused |
| `PageTables.PageTable.AddTable` | shared/page_table/src/lib.rs:504-549 | one missing table is added on the path, without changing any translation |
| `PageTables.PageTable.CreateTables` | shared/page_table/src/lib.rs:503-549 | afterwards the path has all its tables and no translation has changed |
| `PageTables.ThroughIsSamePage` | shared/page_table/src/lib.rs:264-271 | the addresses that pass an entry are exactly those of its page |
| `PageTables.NoneLost` | shared/page_table/src/lib.rs:474-495 | with the checks of `map_raw`, no mapped address is translated differently afterwards |
| `PageTables.PageTable.MapRaw` | shared/page_table/src/lib.rs:462-580 | each error iff its condition, and errors change nothing; success translates exactly the addresses of the page to base, offset and raw entry, everything else as before; counts stay right; panics only if a table is missing and no page can be had for it, and then no translation has changed |
| `PageMappings.VirtBaseInverts` | shared/page_table/src/lib.rs:238-261 | for every mapped address, virtual base plus page offset is the address, and the base is aligned to the page size read back |
| `Bytes.PutByteReads` | shared/page_table/src/lib.rs:441-444 | a byte written into a word is read back, and no other byte changes |
| `Loading.PageEntryFields` | shared/page_table/src/lib.rs:427-430 | the composed entry is present, has the size bit for large pages, and its page base is the page |
| `Loading.PageEntryGrants` | shared/page_table/src/lib.rs:159-164 | bit by bit, the entry allows writing, user access and execution exactly as asked, and has the cache bit as the code sets it |
| `Loading.FillPage` | shared/page_table/src/lib.rs:436-444 | every byte of the page is the initializer at its offset; no word outside changes |
| `Loading.HoldsStable` | shared/page_table/src/lib.rs:402-458 | a loaded byte survives later table allocations and mappings |
| `Loading.MapPage` | shared/page_table/src/lib.rs:422-455 | one page is allocated, filled and mapped, all other addresses translate as before; not mapped iff no page can be had or the address is refused |
| `Loading.MapInit` | shared/page_table/src/lib.rs:402-458 | success maps and fills the whole region, its entries grant exactly the given permissions, and no page of it was refused; other addresses keep their translation; failure means a bad request, a page already in use or not canonical, or no memory |
| `Loading.RefusedBefore` | shared/page_table/src/lib.rs:422-455 | whether a page of the region is refused does not depend on the pages mapped before it |
| `Loading.LoadedStable` | shared/page_table/src/lib.rs:402-458 | a loaded region stays loaded whatever is mapped later |
| `Elf.ParseAccepts` | shared/elf_parser/src/lib.rs:214-274 | exactly the 64-bit little-endian x86-64 executables whose program headers lie in the file are accepted |
| `Elf.ParseErrors` | shared/elf_parser/src/lib.rs:214-251 | each error iff its field is the first wrong one; shorter files are a parse failure, or a panic below four bytes |
| `Elf.ParsedFields` | shared/elf_parser/src/lib.rs:257-273 | the image has the offset, entry size and count of the program headers and the entry point that the bytes of the file say |
| `Elf.LoadableIff` | shared/elf_parser/src/lib.rs:141-192 | a header in the file is skipped iff it is not PT_LOAD, and loadable iff its sizes, position and alignment are acceptable |
| `Elf.SegmentFlags` | shared/elf_parser/src/lib.rs:88-93 | read, write and execute are bits 2, 1 and 0 of the p_flags word |
| `Elf.HeadersInFile` | shared/elf_parser/src/lib.rs:214-274 | header i is read at e_phoff + i * e_phentsize, as the bytes of the file say, and lies in the file; when the iterator ends early |
| `KernelLoader.LoadedSegmentBytes` | bootloader/src/main.rs:135-142 | walking the table at p_vaddr + i finds file byte i below p_filesz and zero from there to p_memsz |
| `KernelLoader.LoadedSegmentRights` | bootloader/src/main.rs:124-142 | in the page entry found at p_vaddr + i, bits 0 and 1 of p_flags decide execution and writing, user code has no access, and the cache-disable bit is set |
| `KernelLoader.LoadSegment` | bootloader/src/main.rs:124-142 | a successful mapping loads the segment and loses no other |
| `KernelLoader.LoadSegments` | bootloader/src/main.rs:115-143 | at the end every segment whose mapping succeeded is loaded, and every loadable header was tried; segments that are well laid out in free addresses are all mapped unless memory runs out; it stops only at a bad header, an overflowing size, or for want of memory |
| `KernelLoader.TriedHeadersLoaded` | bootloader/src/main.rs:115-143 | by the bytes of the file: every loadable header at e_phoff + i * e_phentsize was tried, and is loaded if its mapping succeeded |
| `KernelLoader.StillFree` | bootloader/src/main.rs:115-143 | loading one segment leaves the pages of a disjoint one unmapped |
| `KernelSpace.NewTable` | shared/page_table/src/lib.rs:286-292 | a table in fresh memory that translates nothing; none iff no page can be had |
| `KernelSpace.MapWindow` | bootloader/src/main.rs:166-193 | every address of the window reaches the physical address at its offset; earlier mappings stay; it fails only for want of memory or at a page that was in use before |
| `KernelSpace.WindowEntryGrants` | bootloader/src/main.rs:180-193 | entries of the window allow writing and execution by the kernel only |
| `KernelSpace.WindowIsTaken` | shared/page_table/src/lib.rs:474-495 | a region that reaches into the window has a page that is refused |
| `KernelSpace.LoadKernel` | bootloader/src/main.rs:105-194 | from the bytes of the file: in the finished table segments, trampoline and linear window are all in place and every reference count is right; a well laid out image is loaded whole unless memory runs out; refused iff it does not parse; the reason of each panic |
| `FreeLists.RepresentsFrame` | kernel/src/mm.rs:265-370 | what a list represents depends on its own blocks only |
| `FreeLists.ChainPush` | kernel/src/mm.rs:325-333 | small blocks: writing the old head into the block is a push of the stack |
| `FreeLists.NodePush` | kernel/src/mm.rs:339-357 | large blocks without room: the block becomes an empty node on top of the stack |
| `FreeLists.SlotPush` | kernel/src/mm.rs:359-369 | large blocks with room: the next lower slot takes the address, and it exists |
| `FreeLists.SlotPop` | kernel/src/mm.rs:297-309 | the first used slot is the top of the stack, and giving it up is a pop |
| `FreeLists.FreeList.constructor` | kernel/src/mm.rs:202-208 | a new list represents the empty stack |
| `FreeLists.FreeList.Push` | kernel/src/mm.rs:322-370 | refines push of a plain stack, writing only inside blocks that the list then owns |
| `FreeLists.FreeList.TakeTop` | kernel/src/mm.rs:279-319 | behind the refill, refines pop of a plain stack, writing only inside blocks that the list owned |
| `FreeLists.FreeList.AddPage` | kernel/src/mm.rs:233-239 | the blocks of the page are on the stack, last one on top, and only the page and owned blocks were written |
| `KernelAllocs.VirtualSpace.Receive` | kernel/src/mm.rs:74-94 | a region of its own with a guard gap, or a panic exactly for bad sizes and overflow |
| `KernelAllocs.TakePage` | kernel/src/mm.rs:224-232 | a page is taken from free memory and nothing else is; none, and nothing taken, iff the request cannot be served |
| `KernelAllocs.PopOrReserve` | kernel/src/mm.rs:265-319 | the top of the stack, or of a freshly cut page, or a new virtual region, and which words it may write; a panic iff the list is empty and virtual addresses have run out, no page can be had, or the page is beyond the window |
| `KernelAllocs.PageIsMemorySteps` | kernel/src/mm.rs:265-319 | a pop that had to refill is a refill and a pop on the memory of the runs below |
| `KernelAllocs.PopIsHeapStep` | kernel/src/mm.rs:265-319 | every such pop is a step, or a refill and a step, of the heap below |
| `KernelMaps.TakeOnePage` | kernel/src/mm.rs:140-147 | a page from the list or from free memory, as steps of the allocator |
| `KernelMaps.MapOnePage` | shared/page_table/src/lib.rs:422-430 | the page behind an address is the one taken for it: it came from the list or from free memory, and putting it there is a step of the allocator; refused iff the table refuses |
| `KernelMaps.MapRegion` | kernel/src/mm.rs:249-258 | exactly the pages of the region get a page behind them, each taken from the list or from free memory, in neither afterwards, and different from the page behind every other address; one page for each and one for each missing table are taken, and no more; never if one of them is refused, and otherwise unless pages run out; what may be written meanwhile |
| `KernelMaps.BackedPagesApart` | kernel/src/mm.rs:245-262 | in every state of the runs below, pages behind addresses are aligned window pages, not on the list, not free, and distinct |
| `KernelMaps.FollowPop` | kernel/src/mm.rs:265-319 | a pop from a list, refilled or not, is a run of steps to a state in which the block is live, whole and not behind a mapping |
| `KernelMaps.Pop` | kernel/src/mm.rs:265-319 | the whole operation is a run of allocator steps, for every source of the block: it is handed out with memory behind every address, no live block is given up, pages behind addresses stay apart, and a large block costs exactly its pages and missing tables; panics whenever it cannot pop or reserve or a page of the region is refused, and otherwise only if pages run out while mapping |
| `KernelMaps.StartIsTracked` | kernel/src/mm.rs:202-208 | empty lists are in the first state of a run |
| `KernelHeaps.ClassFits` | kernel/src/core_locals.rs:85-105 | the block of the chosen class is large enough and less than twice max(size, 8) |
| `KernelHeaps.AlignDivides` | kernel/src/core_locals.rs:94-99 | the assertion on the alignment is enough for every block of the list |
| `KernelHeaps.RefillKeeps` | kernel/src/mm.rs:218-240 | cutting a page keeps all blocks disjoint, aligned and out of free memory |
| `KernelHeaps.VirtKeeps` | kernel/src/mm.rs:245-262 | so does handing out a guarded virtual region that could be mapped |
| `KernelHeaps.AcceptedIsOutside` | kernel/src/mm.rs:249-258 | a region that could be mapped does not reach into the window |
| `KernelHeaps.TableAccepts` | kernel/src/mm.rs:249-258 | a region none of whose pages a real kernel table refuses is such a region |
| `KernelHeaps.ReceiveKeeps` | kernel/src/mm.rs:74-94 | so do other users of virtual addresses |
| `KernelHeaps.StepKeepsInv` | kernel/src/mm.rs:265-370 | every step of the heap keeps blocks apart, placed and accounted for |
| `KernelHeaps.RunKeepsInv` | kernel/src/mm.rs:470-480 | over every run of allocations and matching frees on any cores, that invariant holds |
| `KernelHeaps.LiveBlocksAreSafe` | kernel/src/mm.rs:470-480 | a live block has at least the size and less than twice max(size, 8), is aligned, and overlaps no other block, live or free |
| `KernelHeaps.ListsAreDisjoint` | kernel/src/mm.rs:476-479 | the invariant gives the free lists what they need: disjoint blocks, and freed blocks that may be pushed |
| `HeapMemories.PhysicallyApart` | kernel/src/mm.rs:245-262 | distinct addresses of blocks, small or large, free or live, are distinct physical addresses, although large blocks and the window show the same pages |
| `HeapMemories.PhysicallyTaken` | kernel/src/mm.rs:245-262 | none of them is free physical memory |
| `HeapMemories.SeenTwice` | kernel/src/mm.rs:245-262 | a word of a large block is seen again in the window page behind it |
| `HeapMemories.OtherWordKept` | kernel/src/mm.rs:265-370 | a change to the physical words behind some blocks leaves those behind every other block |
| `HeapMemories.PushRepresents` | kernel/src/mm.rs:322-370 | a push to one list leaves every list of every core represented in physical memory, seen through the translation |
| `HeapMemories.PopRepresents` | kernel/src/mm.rs:279-319 | so does a pop |
| `HeapMemories.BackRepresents` | kernel/src/mm.rs:245-262 | so does putting a page behind a page of a large block |
| `HeapMemories.RefillRepresents` | kernel/src/mm.rs:218-240 | so does cutting a page into blocks |
| `HeapMemories.ClientRepresents` | kernel/src/mm.rs:470-480 | so do clients that write any physical word but those behind free blocks |
| `HeapMemories.OwnWordIsOwn` | kernel/src/mm.rs:470-480 | a write to a live block of its own is such a write, shows there, and shows in no other word of a block |
| `HeapMemories.LiveWordsKept` | kernel/src/mm.rs:265-370 | no step of the allocator changes what is seen in a block that stays live, unless it is a page behind a large block |
| `HeapMemories.BackedStays` | kernel/src/mm.rs:245-262 | the pages behind large blocks stay live and distinct |
| `HeapMemories.WholeStays` | kernel/src/mm.rs:245-262 | every address of a listed block has memory behind it |
| `HeapMemories.RunKeepsMemory` | kernel/src/mm.rs:470-480 | in every state of every run, with clients writing at any time, every list of every core is intact in physical memory, blocks are apart, and what is behind large blocks is live and distinct |
| `HeapMemories.RunKeepsApart` | kernel/src/mm.rs:470-480 | over such runs distinct addresses of blocks are distinct physical words that are not free |
| `HeapMemories.ClientsOwnTheirBlocks` | kernel/src/mm.rs:470-480 | over such runs the words seen in a kept block change only if clients change them |
| `HeapMemories.PushIsMemoryStep` | kernel/src/mm.rs:322-370 | what the push of one list promises about the memory it sees is a step of those runs |
| `HeapMemories.PopIsMemoryStep` | kernel/src/mm.rs:279-319 | so is what its pop promises |
| `HeapMemories.RefillIsMemoryStep` | kernel/src/mm.rs:233-239 | so is what adding a page promises |
| `HeapTracking.TrackPop` | kernel/src/mm.rs:279-319 | what a pop leaves to be seen agrees with the next state of the run, for all lists at once |
| `HeapTracking.TrackRefill` | kernel/src/mm.rs:218-240 | so does what adding a page leaves |
| `HeapTracking.TrackVirtual` | kernel/src/mm.rs:245-262 | so does a new region |
| `HeapTracking.TrackBack` | shared/page_table/src/lib.rs:422-430 | so does a page put behind an address |
| `HeapTracking.RunGoesOn` | kernel/src/mm.rs:265-319 | such steps continue every run, so that what holds over runs holds after every operation |
| `TicketLocks.StepRefines` | shared/spinlock/src/lib.rs:98-139 | every step of the lock is a step of a plain first-in first-out queue |
| `TicketLocks.RunRefines` | shared/spinlock/src/lib.rs:98-139 | every reachable state refines a queue, for fewer than 2^64 processors |
| `TicketLocks.MutualExclusion` | shared/spinlock/src/lib.rs:108-119 | at most one holder in every reachable state, across counter wrap-around |
| `TicketLocks.TicketWindow` | shared/spinlock/src/lib.rs:109-114 | outstanding tickets lie between `release` and `ticket` and have distinct owners |
| `TicketLocks.WindowIsFull` | shared/spinlock/src/lib.rs:109-114 | every ticket of that window is outstanding |
| `TicketLocks.ReleaseBringsCloser` | shared/spinlock/src/lib.rs:133-135 | a release lowers every waiter's distance by one |
| `TicketLocks.FirstComeFirstServed` | shared/spinlock/src/lib.rs:112-114 | who enters has the oldest outstanding ticket |
| `TicketLocks.NeverStuck` | shared/spinlock/src/lib.rs:112-114 | while anybody has a ticket, somebody holds the lock or can enter |
| `InterruptMasking.LocalKeeps` | kernel/src/core_locals.rs:167-191 | every step of one core keeps count, flag, depth and nesting consistent |
| `InterruptMasking.StepKeeps` | shared/spinlock/src/lib.rs:98-139 | every step keeps the counters, the tickets that spinning code holds, and the locks that code owns consistent |
| `InterruptMasking.RunKeepsInv` | kernel/src/interrupts/interrupts.rs:276-323 | the invariant holds in every interleaving |
| `InterruptMasking.InterruptedCodeIsClean` | kernel/src/interrupts/interrupts.rs:276-323 | code interrupted by a handler neither holds nor queues for a no-preempt lock, and handlers run masked and do not nest |
| `InterruptMasking.UnmaskedWhenIdle` | kernel/src/core_locals.rs:167-191 | interrupts are not left masked: outside of handlers and with no request outstanding they are enabled |
| `InterruptMasking.CoreCanGoOn` | shared/spinlock/src/lib.rs:98-139 | no core gets stuck inside an operation, unless it spins for a ticket that is not up |
| `InterruptMasking.RunningCanGiveBack` | kernel/src/core_locals.rs:167-191 | running code can always give back a lock, a request or, as a handler, the core |
| `InterruptMasking.HandlerLeavesNoTrace` | kernel/src/interrupts/interrupts.rs:276-323 | a handler that gives everything back leaves the core as it was before the interrupt |
| `InterruptMasking.WaitsForOtherCores` | shared/spinlock/src/lib.rs:108-114 | code that spins, handler or not, has its ticket where the wrapping counters say, and all tickets in front of it belong to other cores iff it does not hold the lock itself |
| `InterruptMasking.SecondRequestWaitsForItself` | kernel/src/interrupts/interrupts.rs:299-308 | a run in which a handler asks again for a lock it holds and ends up behind its own ticket |
| `Bringup.RunKeepsInv` | kernel/src/apic/system.rs:120-185 | the state of every core fits the position of the launch loop, and the counter counts the cores checked in |
| `Bringup.OneLaunched` | kernel/src/apic/system.rs:166-185 | at most one core is ever launched |
| `Bringup.OneOnBootStack` | kernel/src/apic/apic_entry.asm:75-78 | the shared boot stack has one user at a time |
| `Bringup.StatesOnlyAdvance` | kernel/src/apic/system.rs:31-65 | a core only moves from offline to launched to online, one stage at a time |
| `Bringup.BarrierIsSafe` | kernel/src/apic/system.rs:31-65 | nobody leaves before all have checked in, and the counter never passes the total |
| `Bringup.FullStaysFull` | kernel/src/apic/system.rs:31-65 | a full counter stays full, so no core misses the moment |
| `Bringup.RunIsBounded` | kernel/src/apic/system.rs:120-185 | no run has more than seven steps for each core |
| `Bringup.NeverStuck` | kernel/src/apic/system.rs:120-185 | while a core has not left the barrier some step can be taken, so that every run that goes on as long as it can ends with all cores through |
| `Bringup.CheckInStateIsExpected` | kernel/src/apic/system.rs:31-65 | a core that reaches `check_in` is in the state its assertions expect |
| `TxRing.RunKeepsInv` | kernel/src/net/drivers/intel.rs:477-525 | software counters, device registers, status bits and packet slots agree in every run |
| `TxRing.OutstandingIsSafe` | kernel/src/net/drivers/intel.rs:477-525 | at most N - 1 descriptors are outstanding, each with its packet in place and not released |
| `TxRing.ReplacesCompletedOnly` | kernel/src/net/drivers/intel.rs:505-512 | a packet that is replaced and released was completed by the device |
| `TxRing.ReleasedExactly` | kernel/src/net/drivers/intel.rs:505-512 | exactly the packets that have left the ring were released, each after the device had completed it |
| `TxRing.SendFlushes` | kernel/src/net/drivers/intel.rs:460-525 | a call sends exactly its packet; when it returns the device has been told of everything if it was asked to flush or the ring is full, and otherwise the tail register is as before |
| `TxRing.DeviceFinishes` | kernel/src/net/drivers/intel.rs:518-524 | after a flush the device can complete every packet by itself, in as many steps as there are packets left |
| `TxRing.SendCanGoOn` | kernel/src/net/drivers/intel.rs:460-525 | a send can begin whenever none is under way, and its next step can always be taken |
| `TxRing.WaitIsNotOnUnflushed` | kernel/src/net/drivers/intel.rs:477-493 | while `send` waits, everything has been handed to the device |
| `TxRing.WaitIsBounded` | kernel/src/net/drivers/intel.rs:477-493 | once a descriptor is completed the wait ends within N reads, whatever the device does in between |
| `TxRing.ScanMakesProgress` | kernel/src/net/drivers/intel.rs:481-492 | a scan above the completed part moves down and never past what is completed |
| `TxRing.ScanFindsCompleted` | kernel/src/net/drivers/intel.rs:488-491 | a scan that reaches a completed descriptor ends the wait |
| `Checksum.FoldIsOnes` | kernel/src/net/packet.rs:107-110 | two carry folds give the ones-complement sum of any 32-bit value |
| `Checksum.OnesOfParts` | kernel/src/net/protocols/udp.rs:335-344 | folding three parts before adding them does not change the folded total |
| `Checksum.WordSumConcat` | kernel/src/net/packet.rs:97-105 | word sums add up when all parts but the last have even length |
| `Checksum.WordSumAppend` | kernel/src/net/packet.rs:97-105 | an odd last byte counts as if a zero followed it |
| `Checksum.Compute` | kernel/src/net/packet.rs:93-111 | the loop computes the ones-complement sum, odd lengths included, for all but huge inputs, where the accumulator wraps |
| `Checksum.ComplementIsTheChecksum` | kernel/src/net/protocols/udp.rs:341-345 | the stored value is not zero and is the only such value that makes the whole sum 0xFFFF |
| `Cursors.Overlay` | shared/cursor/src/lib.rs:152-152 | writing replaces exactly the positions of the data |
| `Cursors.Cursor.constructor` | shared/cursor/src/lib.rs:46-53 | a cursor at position zero of the whole buffer |
| `Cursors.Cursor.TrySetPosition` | shared/cursor/src/lib.rs:94-118 | succeeds iff the absolute position is within the limit, overflows iff it does not fit 64 bits; a failure changes nothing |
| `Cursors.Cursor.Write` | shared/cursor/src/lib.rs:145-155 | a write at the absolute offset of one flat buffer, iff within limit and buffer; refused iff the limit is passed or the position overflows, and then changes nothing |
| `Cursors.Cursor.SplitAt` | shared/cursor/src/lib.rs:184-212 | the left part, the summed split lengths and the overall position; both reasons to refuse |
| `Cursors.Packet.Patch` | kernel/src/net/protocols/udp.rs:310-311 | a late write changes exactly those bytes of the packet |
| `Cursors.PacketCursor.constructor` | kernel/src/net/packet.rs:156-169 | starts at the end of the packet, whose length is the overall position from then on |
| `Cursors.PacketCursor.Write` | kernel/src/net/packet.rs:225-231 | appends to the packet iff it stays within 1514 bytes; otherwise changes nothing |
| `Cursors.PacketCursor.SplitAtCurrent` | kernel/src/net/packet.rs:177-188 | what was written becomes a slice of its own, bytes and length stay |
| `Cursors.PacketCursor.SplitAt` | kernel/src/net/packet.rs:191-203 | skipped bytes count as part of the packet; when it is refused |
| `Frames.EthRoundTrip` | kernel/src/net/protocols/eth.rs:24-33 | parsing an Ethernet header returns MACs, type and the rest |
| `Frames.Ipv4RoundTrip` | kernel/src/net/protocols/ip/v4.rs:33-88 | parsing an IPv4 packet, padded or not, returns addresses, protocol and exactly the data |
| `Frames.Ipv6RoundTrip` | kernel/src/net/protocols/ip/v6.rs:33-69 | the same for IPv6, which the IPv4 parser refuses |
| `Frames.FrameRoundTrip` | kernel/src/net/protocols/udp.rs:194-221 | parsing a UDP frame, whatever padding follows, returns MACs, addresses, ports and payload |
| `Frames.Ipv4Accepts` | kernel/src/net/protocols/ip/v4.rs:33-88 | accepted iff a whole packet without options or fragmentation, by offsets into the frame; which slices are returned |
| `Frames.Ipv6Accepts` | kernel/src/net/protocols/ip/v6.rs:33-69 | the same for IPv6 |
| `Frames.UdpAccepts` | kernel/src/net/protocols/udp.rs:194-221 | exactly the well-formed datagrams are accepted, and the payload is the slice their length fields enclose |
| `Frames.Ipv4Errors` | kernel/src/net/protocols/ip/v4.rs:33-88 | each error of the IPv4 parser iff what it stands for is the first thing wrong, by offsets into the frame |
| `Frames.UdpErrors` | kernel/src/net/protocols/udp.rs:194-221 | each error of the UDP parser with its exact condition; a bad IPv4 packet is always reported as the wrong version |
| `Frames.UdpCrcVerifies` | kernel/src/net/protocols/udp.rs:318-350 | over IPv6 pseudo-header, header and payload sum to 0xFFFF; the checksum is not zero and the only such one |
| `Frames.FrameBytesSum` | kernel/src/net/protocols/udp.rs:318-350 | on the bytes of a finished IPv6 frame: addresses, length, protocol and everything behind the IP header sum to 0xFFFF |
| `Frames.FixedBytes` | kernel/src/net/protocols/ip/v4.rs:127-143 | the bytes of the IP headers that the parsers do not return, by offset |
| `Frames.Ipv4CrcVerifiesIff` | kernel/src/net/protocols/ip/v4.rs:185-192 | the IPv4 header verifies iff the two bytes of its checksum are equal, because they are stored low byte first; exchanged it always would |
| `UdpBuilders.FinalizedOnceIsFrame` | kernel/src/net/protocols/udp.rs:353-362 | finalizing once turns the headers as created into the finished frame |
| `UdpBuilders.FinalizedTwice` | kernel/src/net/protocols/udp.rs:353-369 | finalizing again over IPv6 stores 0xFFFF, and the packet still verifies iff the sum of pseudo-header, header and data is a multiple of 0xFFFF |
| `UdpBuilders.SecondPassBreaks` | kernel/src/net/protocols/udp.rs:353-369 | a datagram that verifies after the first pass and not after the second |
| `UdpBuilders.OverlayMiddle` | kernel/src/net/protocols/ip/v4.rs:174-197 | patching a header inside a packet changes that header only |
| `UdpBuilders.BuildEth` | kernel/src/net/protocols/eth.rs:43-53 | appends destination and source MAC iff they fit |
| `UdpBuilders.BuildV4` | kernel/src/net/protocols/ip/v4.rs:122-160 | appends a header with zero length, protocol and checksum iff it fits, and knows where those fields are |
| `UdpBuilders.BuildV6` | kernel/src/net/protocols/ip/v6.rs:100-133 | the same for IPv6 |
| `UdpBuilders.BuildIp` | kernel/src/net/protocols/ip/ip.rs:103-112 | mixed address families are refused; the ignored result of writing the type does no harm |
| `UdpBuilders.SetProtocol` | kernel/src/net/protocols/ip/v4.rs:195-197 | the protocol byte of the header, and nothing else, becomes UDP |
| `UdpBuilders.BuildUdp` | kernel/src/net/protocols/udp.rs:263-287 | appends ports and zero length and checksum iff they fit |
| `UdpBuilders.CreateUdp` | kernel/src/net/protocols/udp.rs:226-295 | a builder over exactly the unfilled headers iff families agree and the headers fit |
| `UdpBuilders.UdpBuilder.Write` | kernel/src/net/protocols/udp.rs:299-301 | extends the payload iff the frame stays within 1514 bytes |
| `UdpBuilders.UdpBuilder.WriteLen` | kernel/src/net/protocols/udp.rs:305-314 | only the UDP length changes, to header plus payload |
| `UdpBuilders.UdpBuilder.FinalizeIp` | kernel/src/net/protocols/ip/ip.rs:93-98 | only the IP length and, for IPv4, the header checksum change |
| `UdpBuilders.UdpBuilder.WriteIpCrc` | kernel/src/net/protocols/ip/v4.rs:185-192 | the sum over the header as it stands, stored in machine byte order |
| `UdpBuilders.UdpBuilder.WriteCrc` | kernel/src/net/protocols/udp.rs:318-350 | nothing over IPv4; over IPv6 the complement of the sum of all three parts |
| `UdpBuilders.UdpBuilder.Finalize` | kernel/src/net/protocols/udp.rs:353-362 | all late fields at once, from what the packet holds |
| `UdpBuilders.PadToMinimum` | kernel/src/net/drivers/intel.rs:466-475 | appends zeros up to 64 bytes |
| `UdpBuilders.BuildDatagram` | kernel/src/net/protocols/udp.rs:226-369 | building into an empty packet succeeds iff it fits a frame, and the padded result parses back to the same addresses, ports and payload |
| `Dhcp.ParseConsumes` | kernel/src/net/protocols/dhcp.rs:163-221 | each successful parse consumes at least one byte and leaves a suffix |
| `Dhcp.ParseOptions` | kernel/src/net/protocols/dhcp.rs:486-494 | the loop ends on any bytes and returns the options that parse, in order |
| `Dhcp.OptionRoundTrip` | kernel/src/net/protocols/dhcp.rs:163-271 | an option survives serializing and parsing, whatever follows, iff its payload has at most 255 bytes and an unknown code is none of the known ones |
| `Dhcp.WireBytes` | kernel/src/net/protocols/dhcp.rs:223-271 | the bytes on the wire of each option that can be sent |
| `Dhcp.ListInFront` | kernel/src/net/protocols/dhcp.rs:486-494 | a serialized list in front of any bytes parses to the list and then whatever those bytes give |
| `Dhcp.BuiltListRoundTrip` | kernel/src/net/protocols/dhcp.rs:87-104 | parsing what the builder returns gives the list and the end option, iff every option is of that kind |
| `Dhcp.ParsedBytes` | kernel/src/net/protocols/dhcp.rs:163-221 | serializing a parsed option gives back its bytes, iff it is no message type with extra bytes or an unsupported value |
| `Dhcp.DhcpOptionsBuilder.Add` | kernel/src/net/protocols/dhcp.rs:94-97 | the buffer is the serialization of everything added so far |
| `Dhcp.DhcpOptionsBuilder.Finish` | kernel/src/net/protocols/dhcp.rs:100-103 | ... followed by the end option |

## Left out

- Locks, interrupts, processor bring-up and the transmit ring are step relations on values, not classes: the atomic steps of several processors or of a device interleave.
- Exceptions, non-maskable interrupts, panics, soft reboot, `shatter` and the APIC reset bypass the locks on purpose and depend on hardware.
- `KernelMaps.Pop`: the kernel's table is modelled page by page, and how many tables are missing for a page is an argument; the entries and tables themselves are in `PageTables.PageTable.MapRaw`, over the bootloader's memory.
- `FreeLists.FreeList.TakeTop`: requires a list that is not empty, as the code behind the refill does; the whole of `pop` is `KernelMaps.Pop`.
- `FreeLists.FreeList.Push`: requires a block that overlaps none of the list, as the unsafe source does; `KernelHeaps.ListsAreDisjoint` discharges it for matching frees.
- `BootHeaps.BootHeap.Dealloc`: requires a block that is live with this size, as the source does.
- Cursors: an overflowing position is a result of its own, as in a build with overflow checks; changing the limit later is not modelled.
- `HeapMemories.RunKeepsMemory`: page tables are not part of this memory; nobody but the mapping of a page changes a translation.
- `TxRing.RunKeepsInv`: the device completes descriptors in order and the 64-bit tail does not wrap; the receive ring and the pool of packets behind `release_packet` are not modelled.
- ELF segments: an alignment of zero, whose subtraction underflows in the source, counts as a wrong alignment.
- `KernelLoader.LoadSegments`: segments whose offset plus size overflows are a panic; the permissions use the bits that the code sets, including the cache bit whose naming is inverted.
- `KernelSpace.LoadKernel`: takes the bytes of the file, the raw trampoline entry and the page size as arguments; the stacks that are mapped later are left out.
- Unfinished or disabled code: TCP, the IO APIC.
- ARP: the builder never writes the Ethernet type, so there is no round trip to prove; the UDP bind queues are left out too.
- DHCP exchanges and the fixed DHCP header: clocks, sockets and a raw pointer cast; only the option codec is modelled.
- NUMA registration: preferred regions are an arbitrary argument.
- `OnceLock`, assembly stubs, descriptor tables, ports, serial, PCI, UEFI, ACPI, timing: hardware or foreign interfaces.
- Memory comparison, string length, status codes and feature flags would only add easy members.
