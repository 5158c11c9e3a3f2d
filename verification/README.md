# Kernel memory, scheduling and list verification

A Dafny model of five parts of an x86-64 kernel, with proofs about all their runs:

- **Physical memory** (`Bits`, `Blocks`, `FreeLists`, `BuddyState`, `Buddy`, `Recovery`): the buddy allocator
  `pallocator`. `PAllocator` updates the free lists, the metadata bytes and the size words kept inside free memory in
  place; two ghost sets say which blocks are free and live. The central fact is that a coalesced aligned tiling is
  unique (`Blocks.FreeDetermined`): the free blocks are a function of the live ones, so freeing everything gives back
  exactly what `init` laid out.
- **Page tables** (`PageEntry`, `Words`, `PageTables`, `PageWalk`, `EmptyTables`, `TablePool`, `AddressSpace`,
  `Paging`, `UnmapAsWritten`, `RollbackAsWritten`): the recursive mapping and unmapping of `addr_space`, on 64-bit
  entries with the occupancy counter packed into ignored bits of entry 0. The specification is a flat map from page
  number to frame and flags; it is proved equal to the walk of section 4.5 (4-level paging) of the Intel 64 and IA-32
  Architectures Software Developer's Manual, Volume 3A, down to the physical byte (`Paging.MappingTranslates`), and
  what may be done with a page by the rules of its section 4.6 (access rights) is exactly what was asked for
  (`Paging.MappingRights`). A mapping succeeds exactly when the pool has a page for every table that is missing on the
  way to its pages (`AddressSpace.PageMap.MapPages`).
- **Virtual allocations** (`PhysZones`, `AllocMap`, `Zones`, `VirtualAlloc`, `AllocAsWritten`): collecting physical
  zones for an allocation, mapping them one after the other, the sorted list of virtual zones with its cursor, and
  `alloc` and `free` of an address space on top of all three. After any run of them that does not misread the list
  every byte of a live allocation is in one of its own blocks, and no two pages of live allocations walk to the same
  frame (`VirtualAlloc.Run`).
- **Scheduler** (`Scheduler`, `SchedulerSteps`, `Timer`, `Runs`, `Kernel`): a state machine over the thread lists and
  semaphores with an invariant kept by every step, theorems over arbitrary runs (who waits how long for what,
  `Runs.ReadyRuns`, `Runs.SleepsUntil`, `Runs.FirstComeFirstServed`), and the classes `Thread`, `Semaphore` and
  `Globals` whose methods are proved to perform exactly these steps.
- **Utilities** (`Sequences`, `LinkedList`, `Decimal`): the intrusive list with its cached cursor, against the value
  `Listed` of its nodes and its cursor, right or wrong; number printing and parsing.

Every kernel section is one atomic step. Clock readings are parameters. `new` and `kalloc` always succeed, with fresh
memory. Machine words are written out: 64-bit sums, differences and products are taken modulo 2^64 where they can
wrap, and an `int` shift or sum that overflows has no value (`None`).

## Where the code does not do what it is for

The model keeps the code as it is and states exactly when it works, except for the repairs marked (R).

- `free_space` is never increased by `free`: it is exact only while the bytes given back are 0 modulo 2^64
  (`Recovery.FreeSpaceExact`).
- `1 << (order + fo_bits)` is an `int` shift: all order sizes have a value only if no aligned 2 GiB block fits in the
  range (`Recovery.NarrowExactly`), and `log2_up` has one only below 2^31 (`Bits.Log2UpIs`).
- Unmapping tests the counter of entry `i` instead of entry 0, frees a child table without clearing the entry that
  leads to it, and skips tables and entries without regard to where in them it stands. `UnmapAsWritten.UnmapInternal`
  is the recursion as it stands, for every range of the user's part: it leaves a good space with exactly the range
  removed if and only if it frees no table (`RootQuiet`: below the root it follows entries 0, of tables that hold
  something else as well, to a single page or to an absent entry) and the range has no other mapped page (`NoOther`).
  When all of the range is mapped that means one page, whose number is a multiple of 2^27 and whose leaf table maps
  another page (`UnmapAsWritten.MappedSurvives`). A call that frees a table leaves it reachable, so that no good space
  is left; two pages at 0x1000, the first address ever handed out, are such a call (`UnmapAsWritten.FirstTwoPages`).
- (R) `PageMap.UnmapInternal` reads the counter of entry 0, clears the entry of a freed table and counts the pages it
  skips. It is then right for every range of the user's part, mapped or not. All results about unmapping are about it,
  except those of `UnmapAsWritten`, `RollbackAsWritten` and `AllocAsWritten`.
- When `map_internal` fails it unmaps with an address and a length that the recursion has already consumed.
  `RollbackAsWritten.MapInternal` is the call as it stands: a failure leaves a good space with the flat map as it was
  if and only if it is `Spared`. That takes fewer free pages than tables missing on the way to the first page, so that
  nothing has been mapped, and that the way of the shifted address, below the root, follows entries 0, past no empty
  table, to where a table is missing or to a single page that is not mapped. With one free page, a page at 0x1000
  leaves a freed table that the root still leads to (`RollbackAsWritten.OneFreePage`); with three, 512 pages there
  leave 511 mapped (`RollbackAsWritten.ThreeFreePages`).
- (R) `PageMap.MapInternal` rolls back with the address and length it was called with; a failure then changes nothing
  (`Paging.MapOrNothing`).
- When `map_alloc_data` fails, its cleanup leaves out zone 0: even with the two repairs the map is restored exactly
  when the first zone was the one that failed (`AllocMap.CleanupRestores`), and the physical zones stay taken. Without
  them (`AllocAsWritten.MapAllocData` and, for the whole call, `AllocAsWritten.Alloc`) a good space with the flat map
  as it was is left if and only if the first zone has failed and its rollback was spared.
- The guard of `alloc` reads `free_space`: it turns n bytes away although they are free exactly while the bytes ever
  given back exceed the free bytes less n (`VirtualAlloc.GuardIs`), and then turns away as much or more for good,
  whatever is freed (`VirtualAlloc.RefusedForGood`).
- `collect_phys_zones` subtracts whole blocks: `PhysZones.Reachable` is the exact condition on the free blocks under
  which it succeeds, for every request; with a free block large enough for the request it succeeds only for a power of
  two (`PhysZones.OthersFail`), and then exactly when enough is free (`PhysZones.PowerCollected`).
- `find_address` compares a pointer where an address is meant: `Zones.FoundExactly` says when it still keeps its
  promise, `Zones.FoundRepaired` that with the address it always does.
- `insert_virt_zone` accepts a length whose sum wraps (`Zones.AcceptsExactly`), and calls the list's `insert` right
  after looking up the same index, which puts the zone one place too early unless it goes first
  (`Zones.InsertAsWritten`).
- The list's `insert` and `remove` change the length before they walk: `LinkedList.InsertLands` and
  `LinkedList.RemoveLands` say which node they reach. In the middle of the list `insert` leaves either the node or the
  cursor off by one; `remove` is right about both or about neither. `pop_start` and `remove_p` keep the cursor exactly
  in the cases of `LinkedList.UnlinkedIs`. `abs` is off by two for negative numbers (`LinkedList.AbsBits`), which
  costs a lookup at most two extra links.
- So the insert of `find_address` leaves the cursor of `virt_allocs` one off whenever it puts a zone above another
  (`Zones.FindInserts`), and the next `free` reads the list with it. `VirtualAlloc.AddrSpace.Free` works on the list
  with its cursor and does what it promises if and only if the call is not `Misread`: the cursor is still off, there
  are three or four zones with the kernel's, and the address is that of one of the first two. For the first it then
  does nothing. For the second it unmaps and frees that one, but takes the first off the list; this happens after two
  allocations in a new space (`VirtualAlloc.TwiceThenFree`), and a freed allocation stays listed with no page left.
  Over whole runs the cursor is right, or off in this way, or, after a failed first allocation, past the only zone;
  then the next lookup follows the left-over pointer before the first node (`Zones.StaleReads`).
- `itoa` starts at 10^20, which wraps: it is right exactly below 7766279631452241920 and writes 21 digits from there
  on, one more than its comment plans for.

## Model

| member | source | states |
|---|---|---|
| Bits.XorPow2 | src/mem/pmem.cpp:246 | exclusive or with the size moves an aligned address up or down by the size, whichever the bit above says, so buddies pair up |
| Bits.AlignDownIs | src/util/misc.cpp:20-23 | masking gives the largest multiple of a power of two not above the address |
| Bits.AlignUpIs | src/util/misc.cpp:15-18 | adding and masking gives the least multiple of a power of two not below the address, or 0 exactly when the sum passes a word |
| Bits.AlignOfIs | src/util/misc.cpp:25-28 | the bit trick gives the largest power of two that divides the address |
| Bits.Log2UpIs | src/util/math.cpp:36-39 | `log2_up` is the least exponent whose power reaches n, and has a value exactly for n below 2^31 |
| Blocks.FreeDetermined | src/mem/pmem.cpp:239-272 | two coalesced tilings of a range with the same live blocks have the same free blocks |
| Blocks.FullTilingIsMaximal | src/mem/pmem.cpp:40-56 | a coalesced tiling with nothing live consists of exactly the maximal aligned blocks of the range |
| BuddyState.SplitGood | src/mem/pmem.cpp:226-233 | splitting a free zone keeps tiling, lists, metadata and headers right and the halves are of equal size |
| BuddyState.TakeGood | src/mem/pmem.cpp:84-92 | popping a zone and marking its chunk turns it from free to live and keeps everything right |
| BuddyState.GiveGood | src/mem/pmem.cpp:205-214 | unmarking a block, writing its header and linking it turns it from live to free and keeps everything right |
| BuddyState.MergeGood | src/mem/pmem.cpp:264-269 | replacing two free buddies by their parent keeps everything right |
| BuddyState.BuddyHeader | src/mem/pmem.cpp:245-262 | for a free zone whose buddy is in bounds: a marked chunk means the buddy is not free; an unmarked one starts a free zone, so the header read there is valid, and it equals the zone's own exactly when the buddy is itself free |
| Buddy.MetaTells | src/mem/pmem.cpp:200-206 | the metadata byte of an address is marked exactly when the address lies in the first chunk of a live block, and then names that block |
| Buddy.OrderReaches | include/mem/pmem.hpp:57-61 | `get_order` gives the least order with room for n bytes, and a zone of that order or more is free exactly when some free block holds n |
| Buddy.PAllocator.SetRange | src/mem/pmem.cpp:22-35 | the range is rounded inwards to chunks; for q chunks the table at its end takes at least 8 q bytes and fewer than 8 q, a page and a chunk, which has a byte for every chunk; nothing is left for zones exactly when there is just one chunk |
| Buddy.PAllocator.ZoneSize | src/mem/pmem.cpp:42-45 | the size chosen is the largest power of two that divides the address and fits before the end |
| Buddy.PAllocator.LinkZones | src/mem/pmem.cpp:40-56 | the loop tiles the whole range, zone after zone, and free_space is its length |
| Buddy.PAllocator.LinkZone | src/mem/pmem.cpp:47-55 | one more zone extends the tiling, its list, its header, the counter and the largest order |
| Buddy.PAllocator.Init | src/mem/pmem.cpp:18-57 | afterwards the free zones are exactly the maximal aligned blocks of the range, nothing is live and the counter is exact; of the bytes given, at most 8 for each chunk, a page and three chunks are not free, and every range long enough to get an allocator leaves some |
| Buddy.PAllocator.PopulateOrder | src/mem/pmem.cpp:219-237 | succeeds exactly when a zone of this order or more is free, terminates, loses no byte and touches no smaller block |
| Buddy.PAllocator.SplitZone | src/mem/pmem.cpp:226-233 | the last zone of an order becomes two of the order below, the upper one last |
| Buddy.PAllocator.OAlloc | src/mem/pmem.cpp:76-95 | returns NULL exactly when no zone of the order or more is free, changing nothing; otherwise exactly one new live block, the top end of the least sufficient zone, and nothing smaller is touched |
| Buddy.PAllocator.TakeZone | src/mem/pmem.cpp:84-94 | the last zone of the list becomes live, no two buddies are left free |
| Buddy.PAllocator.Alloc | src/mem/pmem.cpp:59-64 | fails exactly for 0 bytes or when every free block is smaller than n; otherwise returns the smallest block size that holds n |
| Buddy.PAllocator.ClientWrite | include/mem/pmem.hpp:12-16 | whatever the owner of a live block writes into it, the allocator stays valid |
| Buddy.PAllocator.Free | src/mem/pmem.cpp:194-217 | takes back exactly the live block whose first chunk holds the address and does nothing for any other address, a double free included |
| Buddy.PAllocator.MergeZones | src/mem/pmem.cpp:264-269 | two free buddies become their parent, one order up |
| Buddy.PAllocator.MergeOrder | src/mem/pmem.cpp:239-272 | ends with no two buddies free, never above max_order, and loses no byte |
| Recovery.FullRecovery | src/mem/pmem.cpp:194-272 | with nothing live the lists hold exactly the zones `init` built, each in the list of its order |
| Recovery.Run | src/mem/pmem.cpp:76-217 | any sequence of allocations, frees and client writes keeps all invariants; the same live blocks mean the same free blocks |
| Recovery.TakeAndGive | src/mem/pmem.cpp:76-217 | freeing what was just allocated undoes it, except for the counter |
| Recovery.SameLiveSameFree | src/mem/pmem.cpp:194-272 | in any two valid states over the same range, equal live blocks mean equal free blocks |
| Recovery.FreeSpaceExact | src/mem/pmem.cpp:92 | free and live bytes add up to the range, and the counter is right exactly when the bytes given back are 0 modulo 2^64 |
| Recovery.NarrowExactly | include/mem/pmem.hpp:56 | every order size has a value exactly when no aligned 2 GiB block fits in the range |
| Recovery.Separate | src/mem/pmem.cpp:35-56 | live blocks, free blocks and the metadata table are disjoint, aligned and inside the range |
| PageEntry.CounterAddBits | include/mem/vmem.hpp:161-168 | adding to the packed counter is addition modulo 1024 and leaves the rest of the entry alone |
| PageEntry.CounterBitsAre | include/mem/vmem.hpp:170-173 | the counter is read from bits 9 to 11 and 52 to 58 |
| PageEntry.CounterKeeps | include/mem/vmem.hpp:161-168 | adding to it changes no other bit |
| PageEntry.CounterUp | include/mem/vmem.hpp:161-173 | below 512, adding 1 adds 1 |
| PageEntry.CounterDown | include/mem/vmem.hpp:161-173 | between 1 and 512, adding -1 subtracts 1 |
| PageEntry.PageSetIs | src/mem/vmem.cpp:680-695 | the entry reads back present with the given address and flags, and keeps the counter in entry 0 |
| PageEntry.PageSetBits | src/mem/vmem.cpp:680-695 | bit by bit: bits 1 to 8 and 63 of the flags and bits 12 to 47 of the address go into the entry, with the present bit and the counter of entry 0, and nothing else |
| PageEntry.PageUnsetIs | src/mem/vmem.cpp:698-712 | the entry reads back absent, keeps the counter in entry 0, and every other bit is 0 |
| PageEntry.EmptyTestAsWritten | src/mem/vmem.cpp:565 | the emptiness test on entry i agrees with the one on entry 0 exactly when i is 0 or the table is empty; what that does to whole calls is UnmapAsWritten.UnmapInternal |
| PageTables.StoreThenCount | src/mem/vmem.cpp:486-487 | storing a new entry and then counting it, in either kind of slot, leaves the counter equal to the present entries |
| PageTables.CountThenStore | src/mem/vmem.cpp:502-505 | counting a leaf only when it is new and then storing it leaves the counter right, entry 0 included |
| PageTables.CountThenClear | src/mem/vmem.cpp:559-562 | counting an entry out if it is present and then clearing it leaves the counter right, entry 0 included |
| PageTables.SetLeaf | src/mem/vmem.cpp:502-506 | a leaf entry written into a well-formed tree changes the flat map at its page only |
| PageTables.ClearLeaf | src/mem/vmem.cpp:559-563 | a leaf entry cleared in a well-formed tree removes its page from the flat map only |
| PageTables.AddTable | src/mem/vmem.cpp:480-487 | a fresh table below an absent entry keeps the tree well formed and the flat map as it was |
| PageTables.DropTable | src/mem/vmem.cpp:548-553 | freeing an empty table and clearing its entry, which the code does not do, keeps the tree well formed and the flat map as it was |
| PageWalk.Consume | src/mem/vmem.cpp:464-465 | shifting the address by nine bits a level splits the page offset into this level's index and the rest |
| Words.WordValue | src/mem/vmem.cpp:505 | read back bit by bit, the lowest k bits of the word made from n are n modulo 2^k |
| Words.PagesTold | include/mem/mem_def.hpp:38 | page addresses that differ modulo 2^48 differ in the bits a table entry keeps of them |
| Words.AddrValue | include/mem/mem_def.hpp:38 | the address bits of an entry made from n are n modulo 2^48, down to a whole page |
| PageWalk.MappedAt | src/mem/vmem.cpp:505 | a mapped range gives page k of it the frame phys + 4096 k - kernel_vma, modulo 2^64, with the masked flags, and leaves all other pages |
| PageWalk.LeafValue | src/mem/vmem.cpp:505 | frame k of a mapping is, as a number, k pages behind the one phys_addr is in, less kernel_vma, and allows what the flags say |
| PageWalk.UnmapUndoesMap | src/mem/vmem.cpp:447-519 | unmapping what was mapped where nothing was mapped restores the flat map |
| PageWalk.WalkIsView | src/mem/vmem.cpp:460-512 | the hardware's four-level walk from the root computes exactly the flat map |
| PageWalk.RightsAre | src/mem/vmem.cpp:486-505 | writing, user access and execution, combined over the four levels as the hardware does, are what the leaf's flags say: entries above the leaves forbid nothing |
| TablePool.EnoughPages | src/mem/vmem.cpp:480-487 | when a range is mapped, every table missing for it has been made from a page of the pool and no other |
| TablePool.TooFewPages | src/mem/vmem.cpp:480-487 | when the mapping stops with the pool empty, the range needed more tables than there were pages |
| TablePool.MissingRest | src/mem/vmem.cpp:391-416 | the tables missing for two adjoining ranges are those missing for the first and then those still missing for the second |
| AddressSpace.PageMap.constructor | src/mem/vmem.cpp:16-29 | a new address space maps nothing below the kernel slot and is well formed, and the kernel slot leads to the kernel's tables, writable and not for user code |
| AddressSpace.PageMap.SetEntry | src/mem/vmem.cpp:502-505 | one leaf mapped, counter and tree kept right |
| AddressSpace.PageMap.AddChild | src/mem/vmem.cpp:480-487 | fails exactly without a free page, changing nothing; otherwise a new table with the flat map as it was |
| AddressSpace.PageMap.MapRecurse | src/mem/vmem.cpp:460-512 | maps exactly the next pages up to the end of its table, consumes the address, fails only for want of a page, and makes new tables only on the way to pages of the range |
| AddressSpace.PageMap.MapChild | src/mem/vmem.cpp:477-499 | one entry above the leaves takes exactly the pages below it |
| AddressSpace.PageMap.MapPages | src/mem/vmem.cpp:447-451 | the recursion from the root succeeds exactly when the pool has a page for every missing table, and then makes just those; it fails with the pool used up, the pages before the failure mapped, and the address shifted once for each level it has come back to |
| AddressSpace.PageMap.ClearEntry | src/mem/vmem.cpp:559-563 | one leaf unmapped, counter and tree kept right |
| AddressSpace.PageMap.DropChild | src/mem/vmem.cpp:548-553 | repaired: the empty table below an entry goes back to the pool, and the entry is counted out and cleared |
| AddressSpace.PageMap.UnmapRecurse | src/mem/vmem.cpp:521-581 | repaired: unmaps exactly the next pages up to the end of its table, mapped or not, reports the table empty exactly when its counter is 0, and leaves no table on the way empty |
| AddressSpace.PageMap.UnmapTurn | src/mem/vmem.cpp:529-563 | repaired: one turn extends the unmapped part of the range and keeps the older tables |
| AddressSpace.PageMap.SkipRest | src/mem/vmem.cpp:564-575 | repaired: once a table is empty the rest of it has no mapped page, and exactly its pages are counted off |
| AddressSpace.PageMap.SkipEntry | src/mem/vmem.cpp:537-547 | repaired: below an absent entry nothing is mapped, and exactly the pages of it that are left are counted off |
| AddressSpace.PageMap.UnmapEntry | src/mem/vmem.cpp:535-563 | repaired: one entry, present or not, gives up exactly its part of the range |
| AddressSpace.PageMap.UnmapChild | src/mem/vmem.cpp:548-553 | repaired: a child table gives up its pages and is freed exactly when it becomes empty |
| AddressSpace.PageMap.MapInternal | src/mem/vmem.cpp:447-458 | on success, which is exactly when the pool has a page for every missing table, the flat map gains exactly the pages of the range; on failure, with the rollback repaired, no page of the range is mapped and all others are as before |
| AddressSpace.PageMap.UnmapInternal | src/mem/vmem.cpp:514-519 | repaired: the flat map loses exactly the pages of the range, wherever it has holes, and no empty table is left behind |
| UnmapAsWritten.Recurse | src/mem/vmem.cpp:521-581 | as written: whatever has been done to the tables, every one stays reachable and only such tables are freed; a call on good tables frees none exactly when it is quiet, and then takes out the one page it comes to, if that is mapped |
| UnmapAsWritten.UnmapOn | src/mem/vmem.cpp:514-519 | on tables that an earlier call has damaged too, every table stays reachable and only tables are freed |
| UnmapAsWritten.Dangling | src/mem/vmem.cpp:548-553 | with a table in the pool that the root still leads to, no reading of the memory is a good space |
| UnmapAsWritten.LeafCount | src/mem/vmem.cpp:557-565 | after one page is cleared the counter of its table is 0 exactly when no other page shares the table |
| UnmapAsWritten.UnmapInternal | src/mem/vmem.cpp:514-581 | as written, on any range: a good space with exactly the range removed is left if and only if the call is quiet and the range has no other mapped page; a call that is not quiet leaves no good space at all |
| UnmapAsWritten.MappedSurvives | src/mem/vmem.cpp:514-581 | on a mapped range those calls are the ones for one page, a multiple of 2^27, whose leaf table maps another page |
| UnmapAsWritten.FirstTwoPages | src/mem/vmem.cpp:514-581 | as written, unmapping two pages at 0x1000 leaves no good space |
| Paging.MappingWalks | src/mem/vmem.cpp:447-512 | after mapping, the hardware walk reaches frame k for page k of the range and every other page as before |
| Paging.MappingTranslates | src/mem/vmem.cpp:447-512 | after a mapping, byte d of its pages translates through the hardware walk to byte d of the physical pages, that is to phys_addr + d - kernel_vma when phys_addr starts a page |
| Paging.MappingRights | src/mem/vmem.cpp:447-512 | and a mapped page is writable, for user code, and not executable exactly as asked for |
| Paging.UnmappingWalks | src/mem/vmem.cpp:514-581 | after the repaired unmapping the walk of a page in the range ends absent and every other page is as before |
| Paging.TablesDetermined | src/mem/vmem.cpp:564-576 | a table exists exactly when some mapped page lies below it |
| Paging.SameTables | src/mem/vmem.cpp:460-581 | two spaces with the same flat map have the same tables |
| Paging.MapThenUnmap | src/mem/vmem.cpp:447-581 | mapping an unmapped range and unmapping it, repaired, restores the flat map, the tables with their frames and the set of free pages |
| Paging.MapOrNothing | src/mem/vmem.cpp:447-458 | with the rollback repaired, mapping an unmapped range either succeeds or leaves the flat map, the tables with their frames and the set of free pages as they were |
| Paging.CountersExact | include/mem/vmem.hpp:159-173 | every non-root table's packed counter is its number of present entries, at most 512, and not 0 between calls |
| RollbackAsWritten.Descended | src/mem/vmem.cpp:477-499 | where a mapping that fails before its first page gets to: the tables down to a level that many below the lowest one as there were free pages |
| RollbackAsWritten.PassesIs | src/mem/vmem.cpp:521-581 | on those tables, unmapping as written frees nothing and takes no page out exactly when the way down entries 0 passes through, read off the space before the call |
| RollbackAsWritten.SparedIs | src/mem/vmem.cpp:451-455 | and then, and only then, the whole rollback leaves a good space with the flat map as it was |
| RollbackAsWritten.MapInternal | src/mem/vmem.cpp:447-458 | as written: it succeeds exactly when the pool has a page for every missing table; a failure leaves a good space with the flat map as it was if and only if it is spared |
| RollbackAsWritten.OneFreePage | src/mem/vmem.cpp:451-455 | as written, mapping a page at 0x1000 in a new space with one free page leaves no good space |
| RollbackAsWritten.ThreeFreePages | src/mem/vmem.cpp:451-455 | as written, mapping 512 pages at 0x1000 in a new space with three free pages fails and leaves 511 of them mapped |
| PhysZones.TryZone | src/mem/vmem.cpp:356-365 | one request: a fresh block of the size asked for, last on the list, or proof that no block that large is free |
| PhysZones.GiveBack | src/mem/vmem.cpp:371-375 | popping and freeing restores the list's length and the live blocks |
| PhysZones.CollectPhysZones | src/mem/vmem.cpp:344-378 | success adds fresh distinct whole blocks summing to exactly n, gives none back and takes just n of the free bytes; failure restores the list, the live and the free blocks; which of the two is decided exactly by the free blocks |
| PhysZones.PowerCollected | src/mem/vmem.cpp:349-366 | a power of two is collected exactly when that many bytes are free |
| PhysZones.OthersFail | src/mem/vmem.cpp:365 | with a free block that holds n, collecting succeeds exactly when n is itself the rounded block size |
| AllocMap.MappedZonesAt | src/mem/vmem.cpp:391-416 | the virtual zone reads as the concatenation, in order, of its physical zones, and every other page as before |
| AllocMap.LeftOverAt | src/mem/vmem.cpp:396-413 | when zone i cannot be mapped, what stays mapped are the last pages of the earlier zones, as many as zone 0 has |
| AllocMap.CleanupRestores | src/mem/vmem.cpp:399-413 | the cleanup restores the map exactly when the first zone was the one that failed |
| AllocMap.Cleanup | src/mem/vmem.cpp:399-413 | the loop adds up the lengths of all earlier zones but zone 0 and unmaps that much from the start |
| AllocMap.MapAllocData | src/mem/vmem.cpp:391-418 | all zones are mapped one after the other exactly when the pool has a page for every table missing for their whole range; otherwise zone i cannot be and the cleanup, repaired, leaves what LeftOver says |
| AllocMap.AllocationReads | src/mem/vmem.cpp:391-418 | the hardware walk finds the zones' pages in order |
| AllocMap.FreeZones | src/mem/vmem.cpp:134-141 | every zone is unmapped, repaired, and given back: the map loses its pages and exactly its blocks are no longer live |
| VirtualAlloc.AddrSpace.constructor | src/mem/vmem.cpp:16-29 | a new address space with the kernel's zone alone is valid |
| VirtualAlloc.AddrSpace.Collect | src/mem/vmem.cpp:62-66 | succeeds exactly when the free blocks can reach the length; the physical zones are then whole blocks that back no other zone, and the counter falls by their length |
| VirtualAlloc.FoundOnTop | src/mem/vmem.cpp:612-658 | as long as there is room below the kernel's part, find_address takes the end of the highest zone, whatever the pointer it compares |
| VirtualAlloc.Gained | src/mem/vmem.cpp:380-418 | a zone added above the others, with spare blocks mapped to it, keeps zones apart, backed and mapped, and blocks unshared |
| VirtualAlloc.AddrSpace.PlaceZones | src/mem/vmem.cpp:380-418 | the zones get the end of the highest zone as their address and are mapped there in order, exactly when there are pages for the missing tables, or the zone is dropped again (R); where the cursor of the list is left is exact |
| VirtualAlloc.AddrSpace.Alloc | src/mem/vmem.cpp:46-83 | gives memory exactly when the counter covers the request, the free blocks can reach its length and there is a page for every missing table; then one new zone of whole pages above the others, mapped to fresh blocks, otherwise no zone, and no page of an older zone disturbed (R) |
| VirtualAlloc.Lost | src/mem/vmem.cpp:130-145 | without one zone, its blocks and its pages, the others stay apart, backed and mapped |
| VirtualAlloc.AddrSpace.FreeAt | src/mem/vmem.cpp:132-145 | the pages, the blocks and the backing of the zone that was read go, and so does the list entry that remove reaches, which may be another (R for the unmapping) |
| VirtualAlloc.AddrSpace.Scan | src/mem/vmem.cpp:128-147 | the loop, through the list with its cursor: a scan that reads ahead misses zone 0, and frees zone 1 but unlinks zone 0; any other frees the zone it looks for; the cursor is right afterwards |
| VirtualAlloc.ScanFrees | src/mem/vmem.cpp:128-147 | that is what free promises if and only if the call is not misread, and it leaves the books in order unless the second zone was to go |
| VirtualAlloc.AddrSpace.Free | src/mem/vmem.cpp:124-151 | frees the allocation that starts on the page of the address, if there is one, and nothing else, if and only if the list is not misread; the space stays valid unless the second zone was to go from a misread list (R for the unmapping) |
| VirtualAlloc.FreeOfTwo | src/mem/vmem.cpp:124-151 | with two allocations, the second just made, freeing the second leaves it listed with none of its pages mapped and the first unlisted; freeing the first does nothing |
| VirtualAlloc.TwiceThenFree | src/mem/vmem.cpp:46-151 | two allocations in a new space lead there |
| VirtualAlloc.FramesDiffer | src/mem/vmem.cpp:505 | different pages less than 2^48 bytes apart have different frame bits in their entries |
| VirtualAlloc.OwnBytes | src/mem/vmem.cpp:46-151 | byte d of an allocation translates to the byte that is d bytes from the start of its blocks, taken in order, and may be used exactly as asked for |
| VirtualAlloc.InOwnBlock | src/mem/vmem.cpp:46-151 | so it lies inside a live block of its own allocation, seen at kernel_vma |
| VirtualAlloc.NoSharedByte | src/mem/vmem.cpp:46-151 | two different bytes of live allocations, of one or of two, are different bytes of physical memory |
| VirtualAlloc.NoSharedFrame | src/mem/vmem.cpp:46-151 | two different pages of live allocations, of one or of two, walk to different frames |
| VirtualAlloc.Run | src/mem/vmem.cpp:46-151 | up to the first request that misreads the list, after any run of alloc and free, every page of every live allocation is mapped, no two share a frame, and every byte is in a block of its own allocation (R) |
| VirtualAlloc.AllocThenFree | src/mem/vmem.cpp:46-151 | freeing what was just allocated leaves a valid space if and only if there was not exactly one allocation before; then the zones, the live and the free blocks and, where nothing was left above the zones, the flat map and the tables are restored, but not the counter; otherwise the older zone is dropped and the freed one stays (R) |
| VirtualAlloc.GuardIs | src/mem/vmem.cpp:51-52 | n free bytes are refused exactly while the bytes ever given back exceed the free bytes less n; past the free bytes the counter has wrapped |
| VirtualAlloc.RefusedForGood | src/mem/vmem.cpp:46-151 | once n bytes are refused, n or more are refused over every run of such requests and of frees, up to the first that misreads the list (R for the unmapping) |
| SchedulerSteps.StateDetermined | src/sched/thread.cpp:339-348 | the lists and the semaphores determine which threads there are and in what state each is |
| AllocAsWritten.Cleanup | src/mem/vmem.cpp:399-413 | as written, the cleanup after a later zone has failed never gets back to a good space with the map as it was before the first |
| AllocAsWritten.MapAllocData | src/mem/vmem.cpp:391-418 | as written: succeeds exactly when there is a page for every missing table; a failure leaves a good space with the flat map as it was if and only if the first zone has failed and its rollback was spared |
| AllocAsWritten.PlaceZones | src/mem/vmem.cpp:380-418 | the same above the highest zone, which stays the highest when it fails |
| AllocAsWritten.Alloc | src/mem/vmem.cpp:46-83 | as written, for the whole call: what it gives and when as for the repaired one; when tables run out, the zones stay as they were, and the flat map is as it was in a good space if and only if the first physical zone has failed and was spared |
| SchedulerSteps.ScheduleInv | src/sched/thread.cpp:170-201 | schedule switches exactly when READY is not empty, to its head, and puts the running thread last; no other thread, list or semaphore changes |
| SchedulerSteps.BlockInv | src/sched/thread.cpp:281-288 | blocking the running thread puts it last in the list asked for and always finds a successor, the head of READY; blocking another one moves just that; nothing else changes |
| SchedulerSteps.UnblockInv | src/sched/thread.cpp:290-302 | waking a thread takes it off its list, puts it last in READY, and switches exactly when READY was empty but for it, for every thread but idle only while idle runs; nothing else changes |
| SchedulerSteps.LockInv | src/sched/thread.cpp:444-458 | lock takes a free permit, which is only free while nobody waits, or queues the running thread last and runs the head of READY; nothing else changes |
| SchedulerSteps.UnlockInv | src/sched/thread.cpp:473-483 | unlock passes the permit to the first waiter, which becomes READY, or gives it back, and switches only if idle ran with READY empty; nothing else changes |
| SchedulerSteps.DismissInv | src/sched/thread.cpp:438-439 | a dismissed waiter goes to DESTROY and nothing else moves |
| SchedulerSteps.GrantQueues | src/sched/thread.cpp:429-430 | while a thread other than idle runs, a waiter made READY queues last without a switch |
| SchedulerSteps.SpawnInv | src/sched/thread.cpp:394-397 | a new thread is READY, last in that list, and nothing else changes |
| SchedulerSteps.ReapInv | src/sched/thread.cpp:120-129 | the first thread of DESTROY, which is never the running one, goes, and nothing else changes |
| Timer.WithoutAt | src/util/linked_list.cpp:141-168 | unlinking a thread takes out its place and keeps the order of the others |
| Timer.DueHas | src/sched/thread.cpp:49 | the sleepers woken at nsec are exactly those whose sleep_time is not after it |
| Timer.ScanIs | src/sched/thread.cpp:46-55 | the scan moves exactly the sleepers that are due to READY in SLEEP order and keeps the others in order |
| Timer.TickInv | src/sched/thread.cpp:44-57 | a tick switches at most once, exactly when a sleeper woke while READY was empty, and then to the first that woke, with the others in order before the thread that ran; no other list changes |
| Runs.StepInv | src/sched/thread.cpp:170-483 | every step keeps the invariant: each thread in exactly one place that agrees with its state, RUNNING exactly the running thread, idle READY whenever it does not run, permits within bounds |
| Runs.RunInv | src/sched/thread.cpp:170-483 | from one state with the invariant, every state of every run has it |
| Runs.RunSteps | src/sched/thread.cpp:170-483 | so every step of a run finds what it needs: the running thread, the heads of the lists, the waiters |
| Runs.ReadyAdvances | src/sched/thread.cpp:178-190 | no step moves a thread back in READY and every switch moves each one forward |
| Runs.BoundedWait | src/sched/thread.cpp:170-201 | while a thread stays in READY there are at most as many switches as threads were ahead of it, in every interleaving |
| Runs.LeavesReady | src/sched/thread.cpp:170-201 | a thread leaves READY only to run, or because it is blocked by name |
| Runs.ReadyRuns | src/sched/thread.cpp:170-201 | so every READY thread with p others ahead runs within p + 1 switches of every run, unless it is blocked by name before |
| Runs.SpawnedRuns | src/sched/thread.cpp:394-397 | a thread created behind p others runs within p + 1 switches, unless it is blocked by name before |
| Runs.SleeperStep | src/sched/thread.cpp:46-55 | a sleeper stays in SLEEP with its time until a tick at that time or later, or a call that names it; such a tick makes it READY, or lets it run |
| Runs.SleepsUntil | src/sched/thread.cpp:314-321 | a thread that goes to sleep until a time sleeps, over every run, up to the first tick at that time or later or call that names it, and that tick makes it READY, or lets it run |
| Runs.StepSems | src/sched/thread.cpp:416-483 | a semaphore changes only by the calls made on it, in the way each call says |
| Runs.QueueStep | src/sched/thread.cpp:455-479 | a wait list changes only by a thread joining at its end or its first thread leaving |
| Runs.FirstComeFirstServed | src/sched/thread.cpp:444-483 | over every run, those who waited followed by those who joined are, in order, those who left followed by those who still wait |
| Runs.NoOvertaking | src/sched/thread.cpp:444-471 | lock and try_lock take a permit only while nobody waits, and the count stays within its maximum |
| Runs.HoldersCounted | src/sched/thread.cpp:444-483 | one step changes thr_c as it changes the number of holders, if only holders unlock |
| Runs.RunHolders | src/sched/thread.cpp:444-483 | over every run in which only holders unlock, thr_c is the number of holders |
| Runs.UnlockSwitches | src/sched/thread.cpp:474-479 | unlock never switches while a thread other than idle runs; the exact exception |
| Kernel.Thread.Init | src/sched/thread.cpp:394-397 | performs the Spawn step: the thread's state is READY and it is last in that list |
| Kernel.Thread.MoveTo | src/sched/thread.cpp:339-348 | relinks the thread as the machine's move does |
| Kernel.Thread.Block | src/sched/thread.cpp:281-288 | performs the Block step; the running thread ends up last in the list asked for, with that state, and the head of READY runs |
| Kernel.Thread.Unblock | src/sched/thread.cpp:290-302 | performs the Unblock step |
| Kernel.Thread.NsleepUntil | src/sched/thread.cpp:314-321 | performs the Sleep step: the thread is last in SLEEP, with that state and time, and the head of READY runs; or nothing when the time has come |
| Kernel.Globals.constructor | src/sched/thread.cpp:15-22 | with idle running alone the invariant holds |
| Kernel.Globals.Schedule | src/sched/thread.cpp:170-201 | performs the machine's schedule and starts a new time slice exactly when it had an effect |
| Kernel.Globals.Pop | src/sched/thread.cpp:188-190 | the head of READY becomes the running thread |
| Kernel.Globals.ScanSleepers | src/sched/thread.cpp:46-55 | the loop with its wrapping index terminates and is the machine's scan |
| Kernel.Globals.UnlockAll | src/sched/thread.cpp:101-112 | performs the one deferred switch, if any |
| Kernel.Globals.WakeSleepers | src/sched/thread.cpp:38-57 | performs the Tick step |
| Kernel.Globals.EndSlice | src/sched/thread.cpp:59-65 | performs the Reschedule step exactly when the slice, modulo 2^64, is over |
| Kernel.Globals.Reap | src/sched/thread.cpp:120-129 | performs the Reap step |
| Kernel.Semaphore.constructor | src/sched/thread.cpp:416-420 | performs the NewSem step |
| Kernel.Semaphore.Lock | src/sched/thread.cpp:444-458 | performs the Lock step |
| Kernel.Semaphore.TryLock | src/sched/thread.cpp:460-471 | performs the TryLock step and says whether a permit was taken |
| Kernel.Semaphore.Unlock | src/sched/thread.cpp:473-483 | performs the Unlock step |
| Kernel.Semaphore.ResetReady | src/sched/thread.cpp:426-433 | all waiters join READY in order without a switch, and the semaphore is gone |
| Kernel.Semaphore.ResetDestroy | src/sched/thread.cpp:435-442 | all waiters join DESTROY in order, and the semaphore is gone |
| LinkedList.AbsBits | src/util/math.cpp:54-59 | the 32-bit code gives x for x >= 0 and -x - 2 below |
| LinkedList.LookupIs | src/util/linked_list.cpp:181-206 | with length and cursor right every route reaches the index, with at most two links more than the best of the three |
| LinkedList.InsertLands | src/util/linked_list.cpp:65-69 | insert in the middle reaches its index exactly when the walk starts at the front or at a cursor before it, and the place before otherwise |
| LinkedList.RemoveLands | src/util/linked_list.cpp:127-128 | remove in the middle reaches its index exactly when the walk does not start from the end, and the place after otherwise |
| LinkedList.InsertAfterLookup | src/util/linked_list.cpp:65-69 | right after a lookup of the same index insert is always one place early |
| LinkedList.RemoveAfterLookup | src/util/linked_list.cpp:127-128 | right after a lookup of the same index remove is always right |
| LinkedList.InsertedIs | src/util/linked_list.cpp:54-77 | from a right cursor insert puts the node at one place, the right one at both ends, and in between exactly one of the node and the cursor is where it should be |
| LinkedList.UnlinkedIs | src/util/linked_list.cpp:79-168 | taking out node j keeps the others in order, and from a right cursor leaves it right exactly if it was unset or not after that node |
| LinkedList.RemovedIs | src/util/linked_list.cpp:115-139 | from a right cursor, remove in between takes out the node asked for or the one after, keeps the others in order, and the cursor ends up right exactly in the first case |
| LinkedList.LinkedList.Lookup | src/util/linked_list.cpp:175-221 | the walk ends at the node the route leads to, whatever state the cursor is in, and the cursor is set there |
| LinkedList.LinkedList.At | src/util/linked_list.cpp:170-222 | from any cursor: NULL past the end, otherwise the node the way leads to, with the cursor on it; from a right one the index-th, within the bound on links |
| LinkedList.LinkedList.Prepend | src/util/linked_list.cpp:19-35 | from any cursor: the node becomes the first and the cursor stays on its node, its index one up |
| LinkedList.LinkedList.Append | src/util/linked_list.cpp:37-52 | from any cursor: the node becomes the last and the cursor stays as it is |
| LinkedList.LinkedList.Insert | src/util/linked_list.cpp:54-77 | from any cursor: refuses past the end, is right at both ends, and in between puts the node where its walk leads, with the cursor on the node after it |
| LinkedList.LinkedList.PopStart | src/util/linked_list.cpp:79-95 | from any cursor: removes the first node; a cursor on it is unset, on another it stays there with its index |
| LinkedList.LinkedList.Pop | src/util/linked_list.cpp:97-113 | from any cursor: removes the last node; a cursor on it is unset, on another it stays there with its index |
| LinkedList.LinkedList.RemoveP | src/util/linked_list.cpp:141-168 | from any cursor: removes the given node; a cursor on it is unset, on another it stays there with its index |
| LinkedList.LinkedList.Remove | src/util/linked_list.cpp:115-139 | from any cursor: removes the node asked for at both ends and the one its walk leads to in between, with the cursor on the node after it |
| LinkedList.TakeDue | src/sched/thread.cpp:46-55 | going through a list by index and unlinking on the way reads every node it means to, takes exactly the due ones in order and leaves the cursor right |
| LinkedList.RunSleep | src/sched/thread.cpp:46-55 | over any run of threads going to sleep and being woken, SLEEP holds the ones it should in order of arrival, and its cursor is right before every scan |
| Zones.VirtZones.GetFreeSpace | src/mem/vmem.cpp:660-677 | the loop computes the specification `FreeFrom`, reading the list through its cursor, and leaves that right |
| Zones.VirtZones.InsertVirtZone | src/mem/vmem.cpp:583-610 | through the list's own insert the loop accepts a zone exactly as `Place` says, and puts it one place before unless it goes first or last |
| Zones.VirtZones.FindAddress | src/mem/vmem.cpp:612-658 | through the list's own insert and prepend the loop finds `Found` and puts the zone where `WithFound` says, or changes no zone; the cursor is left where `FoundCursor` says |
| Zones.FreeSpaceIs | src/mem/vmem.cpp:660-677 | get_free_space is the length of the longest vacant stretch from the address |
| Zones.InsertAccepts | src/mem/vmem.cpp:583-610 | a zone below the kernel is accepted exactly when get_free_space exceeds its length |
| Zones.AcceptsExactly | src/mem/vmem.cpp:596-604 | on a vacant address that equivalence holds exactly when the zone's end does not wrap |
| Zones.InsertKeepsOrder | src/mem/vmem.cpp:596-600 | inserting where the loop says keeps the zones sorted and disjoint with the kernel zone last |
| Zones.InsertAsWritten | src/mem/vmem.cpp:591-599 | through the list's own insert the order is kept exactly when the zone ends before the first one starts |
| Zones.FoundExactly | src/mem/vmem.cpp:630-654 | the address found has room, and 0 means no room, exactly when a gap was found, only the kernel zone is there, or the comparison at the end decides as the first zone's address would |
| Zones.FoundRepaired | src/mem/vmem.cpp:646 | with that comparison repaired the promise always holds and the zones stay sorted and disjoint |
| Zones.FoundOverlaps | src/mem/vmem.cpp:646 | as written a zone too long for the room below the first one is put on top of it |
| Zones.FindInserts | src/mem/vmem.cpp:635-640 | the insert after the lookup one place before is right, and leaves a cursor with which a new scan may start one node late |
| Zones.ScanStep | src/mem/vmem.cpp:128-130 | from a right cursor each lookup of a scan reads its index; from one that find_address has left off on three or four zones it reads one ahead, up to the last |
| Zones.ScanRemoves | src/mem/vmem.cpp:143 | removing what a scan has just read takes out that zone, but zone 0 when the first lookup read zone 1 |
| Decimal.PowU | src/util/math.cpp:25-33 | the loop computes the power modulo 2^64 |
| Decimal.NumeralValue | src/util/string.cpp:131-165 | a canonical numeral stands for its number and starts with 0 only for 0 |
| Decimal.PrintedIs | src/util/string.cpp:133-165 | itoa's digits are the canonical numeral exactly below 10^20 modulo 2^64; from there on there are 21 |
| Decimal.Itoa | src/util/string.cpp:133-165 | the loop writes these digits and the terminator |
| Decimal.PowInt | src/util/math.cpp:15-23 | the signed power of any base, with a value exactly while it fits 64 bits |
| Decimal.Atoi | src/util/string.cpp:84-129 | the loop computes `Parsed` |
| Decimal.ParseIs | src/util/string.cpp:89-128 | up to ten digits are parsed to their value, if it is an int |
| Decimal.ParsedBad | src/util/string.cpp:122-124 | up to nine characters with one among them that is not a digit are parsed to 0 |
| Decimal.RoundTrip | src/util/string.cpp:84-165 | for every 64-bit x, parsing what was printed gives x back exactly when x is below 2^31 |
| Decimal.ItoaHex | src/util/string.cpp:167-175 | sixteen hexadecimal digits that stand for the number |

## Left out

- Buddy.PAllocator.OAlloc: requires that every order size is a value of the `int` shift (`Narrow`); `Recovery.NarrowExactly` says when it is.
- Buddy.PAllocator.Free: requires `Narrow` for the same reason.
- Buddy.PAllocator.Alloc: sizes of 2^31 bytes and more, for which `log2_up` shifts into the sign bit, are excluded.
- Buddy.PAllocator.Init: the start address is not 0 and the range is at most 2^39 bytes, which the list table is made for.
- AddressSpace.PageMap.MapInternal: the rollback is repaired as said above; `RollbackAsWritten.MapInternal` is the one as written. The range lies below the kernel's entry in the root.
- AddressSpace.PageMap.UnmapInternal: has the three repairs named above.
- UnmapAsWritten.UnmapInternal: the address lies below the kernel's entry in the root.
- RollbackAsWritten.MapInternal: nothing is mapped on the range, as for every caller but `map`; and where the shifted address leads the rollback into the kernel's entry of the root, which is exactly when `Inside` fails, the model stops before it.
- AllocAsWritten.Alloc: nothing is mapped above the highest zone, which the repaired unmapping keeps true and the one as written does not, and the same stop. What the next call does after a failure that left no good space is not said; frees as written are `UnmapAsWritten.UnmapInternal`.
- AllocMap.MapAllocData: maps and unmaps with the repairs named above; `AllocAsWritten.MapAllocData` does so without.
- VirtualAlloc.AddrSpace.Alloc: pages for tables come from a pool of their own, not from the same allocator as the data, and there is one memory node. So what is said of the counter, here and in Collect, AllocThenFree and RefusedForGood, and of the free blocks rests on the separate pool: in the source `free_space` falls by the pages for tables as well. Requests that pass the guard are at most 2^30 bytes, end below the kernel's part of the address space, which find_address does not watch, and do not come right after a failed first allocation, where the lookup follows a left-over pointer (`Zones.StaleReads`). The mapping rolls back and unmaps with the repairs; `AllocAsWritten.Alloc` is the call without.
- VirtualAlloc.AddrSpace.Free: unmaps with the repairs, and does not come right after a failed first allocation either.
- VirtualAlloc.Run: requests as in Alloc; the sum of the lengths asked for keeps the addresses below the kernel's part. It stops at the first request that misreads the list (`AddrSpace.Blind`), after which the list and the tables disagree or a left-over pointer is followed. `map`, `reserve` and their opposites take no part.
- VirtualAlloc.InOwnBlock: the allocator's memory starts at kernel_vma or above, where src/mem/mem.cpp:77 puts it; OwnBytes says where the byte is for any.
- VirtualAlloc.RefusedForGood: stops at the same requests.
- PhysZones.CollectPhysZones: one memory node, and requests up to 2^30 bytes; larger ones have no order size.
- Zones.VirtZones.GetFreeSpace: is stated for a right cursor.
- Zones.VirtZones.InsertVirtZone: is stated for a right cursor. A zone that goes second of several is excluded: there the list's insert follows the pointer before the first node.
- LinkedList.LinkedList.Insert: the calls whose walk ends on the first node, and then follow the pointer before it, are excluded, and those whose walk leaves the list.
- LinkedList.LinkedList.Remove: index equal to the length, and the calls whose walk ends on the first or the last node or leaves the list, are excluded: they follow a NULL or left-over pointer. Lists are shorter than 2^31.
- LinkedList.LinkedList.At: the lookups whose walk leaves the list, from a wrong cursor, are excluded.
- Kernel.Globals.ScanSleepers: works on lists as sequences; that indexing the real list with its cursor agrees is `LinkedList.TakeDue`, which needs the cursor of SLEEP to be right when the scan starts; `LinkedList.RunSleep` keeps it so. Only taking a sleeper out from elsewhere can leave it wrong, exactly as `LinkedList.LinkedList.RemoveP` says.
- Kernel.Globals.EndSlice: is a separate step after the tick, since a switch at the end of the tick resumes there later.
- Kernel.Thread.Block: threads that wait on a semaphore are only moved by that semaphore; process teardown, which blocks every thread of a process wherever it is linked, is excluded by `Runs.Legal`.
- SchedulerSteps.UnblockInv: nobody wakes the running thread, which would leave RUNNING empty.
- Kernel.Semaphore.Lock: idle never waits on a semaphore; it is the thread that must always be ready.
- Kernel.Semaphore.ResetReady: is not called by idle, for which the first wake-up would switch in the middle of the loop.
- `pallocator::realloc`, `orealloc`, `get_space` and `addr_space::realloc` are unfinished.
- The kernel heap, the slab allocator, process and ELF loading, and the semaphore table.
- Interrupt nesting, saved registers, TLB and cr3 updates, and the time each thread has run.
- `translate`, which masks with the wrong constant and has no caller; the kernel half of the address space.
- The spinlock, the terminal, the keyboard and formatted output.
