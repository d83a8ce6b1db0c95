# Athera: verified models

This project models the parts of the Athera RISC-V kernel whose correctness only shows over whole
runs, and proves what they promise.  The models follow the code: the same branches, constants and
error codes, loops where the code loops, fields that are updated where the code updates them.

The memory stack is one tower, and every layer is proved on top of the one below it.

- `Memory`, `IntrusiveList`, `BuddySpec`, `BuddyProperties`, `Buddy`: the buddy allocator, whose free
  lists live inside the free blocks.  A list algorithm on values has the invariants; the class keeps
  the lists in memory, refines the algorithm, and never writes a live block.
- `Supplies`: which sequences of requests the free lists can serve, so that every layer above says
  exactly, or at least sufficiently, when it runs out of memory.
- `Frames`: sizes rounded to orders, and requests spliced from several blocks.
- `Slub`: caches of objects cut from blocks.
- `Sv39`, `AddressSpace`: three-level page tables, their walk (section 4.3.2 of the RISC-V Privileged
  Architecture, version 20211203), mapping, unmapping and cloning.
- `Protection`, `Ranges`, `MappingTable`, `KeptParts`, `PageMapping`, `MemoryMap`, `MemorySyscalls`: the mapping
  table of a task beside its page tables, and `mmap`, `munmap` and `mremap`.  `Valid` of a memory set
  says that mappings are disjoint, own their frames, and agree with the walk of every page; `View`
  is what a task sees at an address.
- `MemoryRuns`: every sequence of these calls on a task with its stack in place.
- `Fork`: the deep copy of a memory set, and the isolation of tasks.

Beside it stand the MINIX file system (`MinixSpec`, `Minix`, `MinixFile`), which reads and writes the
sectors of a device (`VirtioBlk`, `Chunks`, `MinixDevice`), the id allocator (`IdAlloc`), the prefix
trie and the mount table (`TrieSpec`, `TrieProperties`, `Trie`, `Vfs`), the bitmap (`Bitmap`), the writer-preferring lock as a step system
(`RwLock`), the round-robin selection (`Scheduler`) and the initial user stack (`InitialStack`).

## Where the code does not do what one would expect

The models keep the code as it is; these lemmas show the cases and say exactly when the property holds.

- A merge at the top order drops a 4 MiB block: `BuddyProperties.TopMergeLosesABlock`, with
  `DeallocBytes` and `AllocDeallocRoundTrip` giving the condition.
- `alloc_frames` rounds the last segment up, and a mapping's range is the sum of its frames
  (`Frames.ThreePagesBecomeFour`); sizes that are whole 4 MiB blocks and a power of two of pages are
  exact, and `SegmentsTotal` shows that only these are.
  A new mapping of another size can come to lie over its neighbour: `Ranges.ThreePagesHitTheStack`.  In
  the highest gap it does so unless its size is exact (`HighestPlacedIffExact`); at a hint or a fixed
  address, grown in place or moved, it does so exactly if what rounding adds is not free
  (`PlacedIffTailFree`, `RebuiltIffTailClear`).  `mmap` and `mremap` are proved for every size under
  that condition.
  A part kept by an unmapping spoils its neighbourhood unless its size is exact: `Ranges.InexactSpoils`,
  with `UnmapExactIff` giving the condition, which `mmap`, `munmap` and `mremap` require of the parts
  they keep; it also excludes a `munmap` that cuts a mapping inside a page.
- Pages mapped without any access fault only outside the root slots shared with the kernel:
  `MemorySyscalls.KernelSlotStaysMapped`, with `ViewTranslates` and `KernelDecides` giving the condition.
- `find_free_region` looks only at mappings that end below the stack: `Ranges.FreeRegionIff`.
- A cloned address space differs exactly at pages that map own page tables: `Sv39.CloneTranslates`;
  `Fork.NeverOwnTable` shows that a task has no such pages.
- `rebuild` says that every failing step rolls back.  Mapping the destination can fail after the old
  range was unmapped: `MemorySyscalls.Rebuild` says what is left, and when it does roll back.
- Requests above 4 MiB are served with 4 MiB: `Slub.LargeLayoutFallsShort`, with `LayoutServed` giving
  the condition.
- `scan_words` masks the last word of the slice only: `Bitmap.ScanFindsPadding`, with `ScanIsPlainIff`
  giving the condition.
- `alloc_zone` searches the whole zone bitmap with that scan, so with clear padding a full disk hands
  out zones past its end: `Minix.FullDiskHandsOutAZone`, with `AllocZone` giving the condition.  `Valid`
  of a file system says that the padding is set, and every operation keeps it so.
- `write_file_zones` returns early on a full disk without an error: `Minix.CannotReadBack`, with
  `WriteFileZones` giving the condition.

## Model

| member | source | states |
|---|---|---|
| `IntrusiveList.Push` | src/mm/allocator/intrusive_list.rs:28-31 | the item is in front of the list kept in memory, and only the first word of its page is written |
| `IntrusiveList.Pop` | src/mm/allocator/intrusive_list.rs:33-42 | the first item comes off, `None` exactly for the empty list |
| `IntrusiveList.Remove` | src/mm/allocator/intrusive_list.rs:44-61 | found exactly when listed; the list is left without the item, and only link words of listed items change |
| `IntrusiveList.ListUnique` | src/mm/allocator/intrusive_list.rs:10-26 | memory and a head determine one list |
| `IntrusiveList.ListAcyclic` | src/mm/allocator/intrusive_list.rs:10-26 | a list that ends has no page twice |
| `IntrusiveList.ListUnlink` | src/mm/allocator/intrusive_list.rs:50-58 | redirecting one link word takes exactly the next item out |
| `BuddyProperties.CarveInv` | src/mm/allocator/buddy.rs:57-62 | splitting a held block keeps all free and live blocks apart and aligned, and ends with the low piece held |
| `BuddyProperties.AllocInv` | src/mm/allocator/buddy.rs:49-66 | `None` only if no free block is large enough; otherwise the block was not live and everything stays apart and aligned |
| `BuddyProperties.DeallocInv` | src/mm/allocator/buddy.rs:68-91 | giving back a live block keeps all blocks apart and aligned, however far it merges |
| `BuddyProperties.CarveCoalesced` | src/mm/allocator/buddy.rs:57-62 | splitting leaves no free block below the top order with a free buddy |
| `BuddyProperties.DeallocCoalesced` | src/mm/allocator/buddy.rs:68-91 | merging leaves no free block below the top order with a free buddy |
| `BuddyProperties.AllocBytes` | src/mm/allocator/buddy.rs:49-66 | exactly the block's bytes leave the free lists |
| `BuddyProperties.DeallocBytes` | src/mm/allocator/buddy.rs:68-91 | exactly the block's bytes join the free lists, minus one top block exactly when merging passes the top order |
| `BuddyProperties.TopMergeLosesABlock` | src/mm/allocator/buddy.rs:80-84 | the merge at the top order drops a 4 MiB block (a concrete state) |
| `BuddyProperties.CarveThenDealloc` | src/mm/allocator/buddy.rs:49-91 | giving back the carved piece is the same as giving back the whole block |
| `BuddyProperties.AllocDeallocRoundTrip` | src/mm/allocator/buddy.rs:49-91 | allocating and giving back restores every list, if and only if the block was not carved from a top block whose buddy is free |
| `BuddyProperties.AddFrameGood` | src/mm/allocator/buddy.rs:25-42 | the pieces added for a region are inside it, apart, aligned and coalesced |
| `BuddyProperties.AlignTopIs` | src/mm/allocator/buddy.rs:44-47 | the start is rounded up to the least multiple of 4 MiB |
| `BuddyProperties.AddFrameCovers` | src/mm/allocator/buddy.rs:25-42 | every whole page of the region becomes free, those bytes and no more, and what was free stays free |
| `BuddyProperties.InitialIsGood` | src/mm/allocator/buddy.rs:19-23 | the empty allocator satisfies the invariant |
| `BuddyProperties.StepKeepsGood` | src/mm/allocator/buddy.rs:25-91 | every operation on a legal argument keeps the invariant |
| `BuddyProperties.EveryRunIsGood` | src/mm/allocator/buddy.rs:25-91 | the invariant holds after every run of add, alloc and dealloc |
| `Buddy.BuddyAllocator.constructor` | src/mm/allocator/buddy.rs:19-23 | the empty lists, laid out in memory |
| `Buddy.BuddyAllocator.Alloc` | src/mm/allocator/buddy.rs:49-66 | refines the list algorithm; of all memory it writes only first words of free blocks |
| `Buddy.BuddyAllocator.CarveDown` | src/mm/allocator/buddy.rs:57-62 | the splitting loop over lists in memory does what splitting says on values |
| `Buddy.BuddyAllocator.TakeBuddy` | src/mm/allocator/buddy.rs:73-79 | the buddy is found exactly when it is free at that order, and is unlinked |
| `Buddy.BuddyAllocator.MergeUp` | src/mm/allocator/buddy.rs:72-88 | the merging loop ends with the block whose insertion completes the deallocation |
| `Buddy.BuddyAllocator.Dealloc` | src/mm/allocator/buddy.rs:68-91 | refines the list algorithm; writes only first words of free blocks |
| `Buddy.BuddyAllocator.Add` | src/mm/allocator/buddy.rs:44-47 | refines adding a region and writes only first words of free blocks; every new free block lies inside the region given, every whole page from the next multiple of 4 MiB on is free, and the free bytes grow by exactly those |
| `Buddy.BuddyAllocator.PushChunks` | src/mm/allocator/buddy.rs:32-40 | the inner loop pushes every whole block of one order that fits |
| `Buddy.BuddyAllocator.Store` | src/mm/allocator/buddy.rs:49-66 | whoever holds a live block may write it without disturbing the allocator |
| `Supplies.AllocFails` | src/mm/allocator/buddy.rs:49-66 | a request fails if and only if no free block of the order or above exists |
| `Supplies.DeallocTop` | src/mm/allocator/buddy.rs:68-91 | giving back never lowers the number of free 4 MiB blocks, even where a merge loses one |
| `Supplies.SupplyFails` | src/mm/allocator.rs:69-80 | a sequence of requests fails if and only if, once some are served, no block is left for the next |
| `Supplies.SupplyPages` | src/mm/allocator.rs:38-56 | single pages are served exactly as long as there are any |
| `Supplies.SupplyBytes` | src/mm/allocator.rs:69-80 | requests that are served take exactly their bytes |
| `Supplies.TopSupplies` | src/mm/allocator.rs:69-80 | as many free 4 MiB blocks as requests are enough, whatever the orders |
| `Frames.SizeToOrderFits` | src/mm/allocator/buddy.rs:107-114 | the order is the least whose blocks hold the size, and holds it exactly up to 4 MiB |
| `Frames.SizeToOrderInverts` | src/mm/allocator/buddy.rs:107-124 | `size_to_order` inverts `order_size` |
| `Frames.SegmentsTotal` | src/mm/allocator.rs:69-80 | segments total at least the request, less than 2 MiB over it, and exactly the request if and only if the size is exact |
| `Frames.RoundedUp` | src/mm/allocator.rs:69-80 | a size strictly between two block sizes is rounded up to the larger |
| `Frames.ThreePagesBecomeFour` | src/mm/allocator.rs:69-80 | three pages are delivered as four |
| `Frames.AllocFrame` | src/mm/allocator.rs:38-56 | one new block of the rounded size, no live memory altered; or nothing changed, exactly if no free block of the order or above exists |
| `Frames.AllocFrames` | src/mm/allocator.rs:69-80 | new disjoint frames of the segment sizes; on failure, exactly if some segment finds no block, every segment taken so far is returned |
| `Frames.BlocksNeeded` | src/mm/allocator.rs:69-80 | a request takes one block for every 4 MiB or part of it |
| `Frames.DropFrame` | src/mm/frame.rs:53-59 | exactly the frame's block is returned and no other live memory altered |
| `Frames.DropFrames` | src/mm/frame.rs:53-59 | exactly the frames' blocks are returned |
| `Slub.LayoutFits` | src/mm/allocator/slub.rs:127-131 | an address that is a multiple of the class size fits the layout's size and alignment |
| `Slub.LayoutLeast` | src/mm/allocator/slub.rs:127-131 | no smaller class or block order would do |
| `Slub.LayoutServed` | src/mm/allocator/slub.rs:73-83 | memory handed out is large enough exactly for sizes up to 4 MiB, and then aligned |
| `Slub.LargeLayoutFallsShort` | src/mm/allocator/slub.rs:76-83 | 8 MiB are asked for, 4 MiB handed out |
| `Slub.ChoosePageSize` | src/mm/allocator/slub.rs:276-293 | the page size worked out: one page, two for the largest class |
| `Slub.ObjectPlaces` | src/mm/allocator/slub.rs:310-318 | objects are inside the page, clear of the header, pairwise apart, and at least three |
| `Slub.ObjectAligned` | src/mm/allocator/slub.rs:279-318 | every object is a multiple of the object size |
| `Slub.CutPage` | src/mm/allocator/slub.rs:312-321 | the pushing loop leaves exactly the objects that fit on the free list |
| `Slub.NewPage` | src/mm/allocator/slub.rs:276-322 | a new block of the buddy system, cut up, with nothing in use, and no other block's contents changed; or nothing changed, exactly if there is no block for it |
| `Slub.TakeOk` | src/mm/allocator/slub.rs:324-333 | the object taken was free, and is now the only new one in use |
| `Slub.GiveOk` | src/mm/allocator/slub.rs:335-338 | exactly the object given back stops being in use |
| `Slub.InUseCount` | src/mm/allocator/slub.rs:324-338 | `inuse` is the number of objects given out |
| `Slub.FindPage` | src/mm/allocator/slub.rs:378-386 | the first page whose bounds hold the address |
| `Slub.OneOwner` | src/mm/allocator/slub.rs:378-408 | the page found by its bounds is the page the object came from |
| `Slub.HasObject` | src/mm/allocator/slub.rs:388-418 | a page that is kept has an object in use |
| `Slub.EmptyPage` | src/mm/allocator/slub.rs:401-419 | a page is given up exactly with its last object |
| `Slub.SlowCaches.constructor` | src/mm/allocator/slub.rs:65-69 | no objects, nothing owned |
| `Slub.SlowCaches.AllocClass` | src/mm/allocator/slub.rs:354-374 | a new object that was not in use; partial pages keep objects of both kinds, full pages none free; blocks of others and large objects keep their contents; or nothing changed, exactly if no page of the class has a free object and no block for a new page exists; a page that has one is used before a new one |
| `Slub.SlowCaches.DeallocClass` | src/mm/allocator/slub.rs:376-422 | found exactly when in use; exactly that object is free again; an emptied page goes back; blocks of others and large objects keep their contents |
| `Slub.SlowCaches.AllocLarge` | src/mm/allocator/slub.rs:76-83 | a block of its own, of the same order up to the top, `None` exactly if there is none; every other block keeps its contents |
| `Slub.SlowCaches.DeallocLarge` | src/mm/allocator/slub.rs:103-108 | exactly that block goes back; every other block keeps its contents |
| `Slub.SlowCaches.Alloc` | src/mm/allocator/slub.rs:73-98 | one new object, disjoint from everything in use, of sufficient size and alignment up to 4 MiB, with the contents of other blocks kept; `None` exactly if neither an object nor a block can be had |
| `Slub.SlowCaches.Dealloc` | src/mm/allocator/slub.rs:100-123 | exactly the object given back stops being in use; not found exactly for a foreign address; other blocks keep their contents |
| `Slub.ObjectInBlock` | src/mm/allocator/slub.rs:73-123 | every object in use is inside an allocated block, aligned, and clear of the page header |
| `Slub.ObjectsApart` | src/mm/allocator/slub.rs:73-123 | no two objects in use overlap, across all classes and large blocks |
| `Slub.AllReturned` | src/mm/allocator/slub.rs:376-422 | once every object is back, so is every block |
| `Sv39.VpnDigits` | src/mm/page_table.rs:128-130 | a virtual page number is its three nine-bit digits, highest first |
| `Sv39.LeafIsRange` | src/mm/page_table.rs:122-194 | a leaf above level 0 translates every byte of its aligned range to the byte at the same place |
| `Sv39.TranslatedIff` | src/mm/page_table.rs:182-193 | an entry maps its page exactly if it is valid and readable, or executable and not writable |
| `Sv39.LacksIff` | src/mm/page_table.rs:132-175 | a page outside the kernel's slots has a leaf table exactly if its level-1 slot is filled |
| `Sv39.NewLevel1Same` | src/mm/page_table.rs:132-144 | adding an empty level-1 table changes no translation |
| `Sv39.NewLevel0Same` | src/mm/page_table.rs:146-175 | adding an empty leaf table changes no translation |
| `Sv39.SetEntryWalk` | src/mm/page_table.rs:177-194 | writing one leaf entry changes the walk of exactly that page |
| `Sv39.NoLeafTableFaults` | src/mm/page_table.rs:196-228 | without a leaf table the walk faults |
| `Sv39.CloneTranslates` | src/mm/page_table.rs:242-280 | the clone translates a page the same way if and only if the page does not map one of the space's own tables |
| `Sv39.CloneIsSpace` | src/mm/page_table.rs:242-280 | the clone is again a tree of its own tables in the same surroundings |
| `Sv39.CloneKeeps` | src/mm/page_table.rs:242-280 | the clone has the same leaf tables and shares the same kernel slots |
| `Sv39.OtherSpacesInvisible` | src/mm/page_table.rs:242-287 | no table outside the space and the kernel takes part in its translations |
| `AddressSpaces.CreateTable` | src/mm/page_table/handle.rs:43-55 | a table page that was nobody's, exactly if a page is free; or nothing changed |
| `AddressSpaces.CopyLowHalf` | src/mm/page_table/handle.rs:80-84 | the loop copies exactly the first 256 entries |
| `AddressSpaces.RedirectEntries` | src/mm/page_table.rs:259-277 | the loop redirects exactly the entries that point to copied tables |
| `AddressSpaces.CopyTables` | src/mm/page_table.rs:246-257 | every table is copied to a page of its own; on failure, exactly if there are fewer free pages than tables, all of them are returned |
| `AddressSpaces.CreateKernelSpace` | src/mm/page_table.rs:325-334 | a valid space in which every page faults, on a page that was nobody's, exactly if a page is free |
| `AddressSpaces.CreateUserSpace` | src/mm/page_table.rs:298-309 | a valid space of its own that translates the low half like the kernel and faults everywhere else; what it asks of the kernel's tables holds for a new kernel and is kept by mapping pages with some permission and by unmapping |
| `AddressSpaces.AddressSpace.EnsureLevel1` | src/mm/page_table.rs:132-144 | the root slot is filled or was, and no translation changes; a table costs exactly one page, and memory runs out only with no page free |
| `AddressSpaces.AddressSpace.EnsureLevel0` | src/mm/page_table.rs:146-175 | the leaf table is there, and no translation changes; the error exactly for kernel slots; a table costs exactly one page, and memory runs out only with no page free |
| `AddressSpaces.AddressSpace.Map` | src/mm/page_table.rs:122-194 | on success exactly that page translates to the new target and flags; on failure no translation changes; the error exactly for kernel slots; out of memory only with no page free and a table still missing |
| `AddressSpaces.AddressSpace.Unmap` | src/mm/page_table.rs:196-232 | exactly that page faults; tables are kept, and kernel slots are not touched |
| `AddressSpaces.AddressSpace.TryClone` | src/mm/page_table.rs:242-280 | a fresh space on fresh pages that translates the same, except exactly for pages that map own tables; on failure, exactly if there are not enough free pages for the root and all tables, nothing is kept |
| `Ranges.FindFreeRegion` | src/mm/memory_map.rs:130-147 | the highest gap that fits below the stack among the ranges below it, `None` exactly if nothing fits |
| `Ranges.FreeRegionIff` | src/mm/memory_map.rs:130-147 | the gap is free of all ranges if and only if no range reaching above the stack bottom comes down into it |
| `Ranges.AfterUnmapRanges` | src/mm/memory_map.rs:238-314 | survivors and kept parts are disjoint and cover exactly what was covered outside the window |
| `Ranges.UnmapExactIff` | src/mm/memory_map.rs:238-314 | as recorded with rounded sizes, exactly the window is lost if and only if every kept part has an exact size |
| `Ranges.InexactSpoils` | src/mm/memory_map.rs:238-314 | a kept part that is rounded up runs into the window or another range |
| `Ranges.PlacedIffTailFree` | src/mm/memory_map.rs:184-220 | a mapping placed at a free address stays apart from the others if and only if the addresses gained by rounding are free too |
| `Ranges.HighestPlacedIffExact` | src/mm/memory_map.rs:361-427 | with the stack in place, a mapping in the highest gap stays apart from the others if and only if its size is exact |
| `Ranges.ThreePagesHitTheStack` | src/mm/memory_map.rs:361-427 | three pages are placed right below the stack, and the fourth page delivered is mapped over the stack |
| `MappingTable.PhysInFrame` | src/mm/memory_map.rs:98-107 | an offset within the total lies in a page of one of the frames |
| `MappingTable.PhysDistinct` | src/mm/memory_map.rs:98-107 | different pages of a mapping are different physical pages |
| `MappingTable.PhysSplit` | src/mm/memory_map.rs:98-107 | the offset arithmetic across segments |
| `MappingTable.CanonicalIff` | src/mm/memory_map.rs:149-152 | a range passes if and only if in each of its addresses all bits from 38 on are equal |
| `MappingTable.VpnValue` | src/mm/memory_map.rs:122-130 | the page number of a canonical page is its address with the upper half moved down |
| `MappingTable.UntouchedView` | src/mm/memory_map.rs:295-307 | after the tear-down exactly the pages of overlapping mappings are gone |
| `KeptParts.CollectKeeps` | src/mm/memory_map.rs:247-269 | the loop collects the kept parts in order |
| `KeptParts.RestoredIff` | src/mm/memory_map.rs:247-313 | a torn-down page outside the window is in exactly the kept parts |
| `KeptParts.SameWindow` | src/mm/memory_map.rs:432-444 | a window that ends inside a page acts like one that ends with the page, when all kept parts are exact |
| `Protection.ProtFlagsAre` | src/mm/memory_map.rs:160-175 | for every choice of accesses, pages are writable and executable exactly as asked, readable if anything was asked, and the user's |
| `Protection.EveryProt` | src/mm/memory_map.rs:160-175 | every valid argument asks for some accesses, and only 0 for none |
| `PageMapping.MapPages` | src/mm/memory_map.rs:191-213 | the pages done so far show the frames in order, the rest is unchanged; outside the kernel's slots it succeeds if and only if there is a free page for every table that is missing |
| `PageMapping.UnmapPages` | src/mm/memory_map.rs:301-303 | exactly the pages of the range fault |
| `PageMapping.AgreesAppend` | src/mm/memory_map.rs:184-220 | after mapping, page tables and mapping table agree with the new entry |
| `PageMapping.RollbackRestores` | src/mm/memory_map.rs:202-208 | after the rollback they agree without it |
| `MemoryMap.MemorySet.Empty` | src/task.rs:84-88 | a memory set over a new space is valid, and nothing is mapped |
| `MemoryMap.MemorySet.MapFrame` | src/mm/memory_map.rs:184-220 | on success one more mapping, on failure none, with page tables and mapping table in agreement either way; ENOMEM only with fewer free pages than missing tables, EINVAL only for the kernel's slots |
| `MemoryMap.MemorySet.ZeroFrames` | src/mm/memory_map.rs:224-231 | the frames are zero, and nobody else's memory changes |
| `MemoryMap.MemorySet.CopyInto` | src/mm/memory_map.rs:279-291 | the frames hold the old pages in order; fails exactly for unmapped pages |
| `MemoryMap.MemorySet.MakeBuffers` | src/mm/memory_map.rs:274-293 | every kept part is copied to new frames; on failure, exactly if frames for some part cannot be had, all are returned and nothing has changed |
| `MemoryMap.MemorySet.TearDown` | src/mm/memory_map.rs:295-307 | exactly the overlapping mappings are gone, their blocks returned |
| `MemoryMap.MemorySet.Remap` | src/mm/memory_map.rs:309-313 | mapping the kept parts again cannot fail, and uses no new memory |
| `MemoryMap.UnmapView` | src/mm/memory_map.rs:238-314 | the three phases together take away exactly the pages of the window |
| `MemoryMap.MemorySet.UnmapRange` | src/mm/memory_map.rs:238-314 | on success exactly the pages of the window are gone, every other page keeps contents and flags; on ENOMEM nothing has changed; no other result, and ENOMEM exactly if frames for a kept part cannot be had, so never if nothing is kept |
| `MemorySyscalls.RebuiltIffTailClear` | src/mm/memory_map.rs:320-353 | a range that replaces another, in place or elsewhere, stays apart from what is left if and only if the addresses gained by rounding were mapped at most as part of the range it replaces |
| `MemorySyscalls.ExactMmapReady` | src/mm/memory_map.rs:361-427 | exact sizes meet the condition on rounding whatever is mapped |
| `MemorySyscalls.ViewTranslates` | src/mm/memory_map.rs:160-220 | the hardware takes every accessible page to its frame with its flags, and faults on every other page outside the kernel's slots |
| `MemorySyscalls.KernelDecides` | src/mm/memory_map.rs:160-220 | in a root slot shared with the kernel the kernel's tables alone say what a page translates to |
| `MemorySyscalls.KernelSlotStaysMapped` | src/mm/memory_map.rs:160-220 | a concrete space where a page mapped without access in such a slot does not fault |
| `MemorySyscalls.OutcomeOf` | src/mm/memory_map.rs:320-353 | what the free lists before a move say about how it ends |
| `MemorySyscalls.ChooseTarget` | src/mm/memory_map.rs:392-410 | the address asked for, or the highest gap; the errors |
| `MemorySyscalls.HighestAligned` | src/mm/memory_map.rs:130-147 | the highest gap for a whole number of pages starts on a page |
| `MemorySyscalls.PlaceZeroed` | src/mm/memory_map.rs:419-426 | the range delivered reads zero with the protection asked for, everything else as before; or nothing changed; it succeeds if and only if the blocks and the missing tables can be had and no page is in the kernel's slots |
| `MemorySyscalls.PlaceAt` | src/mm/memory_map.rs:412-426 | the same where a fixed mapping is replaced first, with enough memory for both |
| `MemorySyscalls.Mmap` | src/mm/memory_map.rs:361-427 | ENOSYS, EINVAL and EEXIST exactly for the arguments and ranges that call for them; on success every word delivered is zero, pages are writable and executable exactly as asked, and translate, or for no access fault; every other page is as before, for every size whose rounding adds only free addresses; only a fixed mapping replaces anything, also on failure; the ranges left in every case; it succeeds if there are a place and the memory for it, and without replacing anything only then |
| `MemorySyscalls.Munmap` | src/mm/memory_map.rs:432-444 | exactly the pages of the window are gone, for any length; EINVAL exactly for a bad address, length or end; ENOMEM exactly if frames for a kept part cannot be had; then nothing has changed |
| `MemorySyscalls.FullyMapped` | src/mm/memory_map.rs:90-94 | true exactly if every page belongs to a mapping |
| `MemorySyscalls.Rebuild` | src/mm/memory_map.rs:320-353 | on success the old contents up to the smaller size, then zeros up to the size delivered, at the destination; on failure nothing has changed or the old range is gone, the latter never if the destination has tables; the ranges left in every case; the error tied to what the free lists could supply, and success with enough memory |
| `MemorySyscalls.MoveTo` | src/mm/memory_map.rs:542-566 | on success the range has moved to a canonical destination that is clear of the old one; on failure only the two ranges may have changed; the ranges left in every case; ENOMEM for a destination that does not fit, and success with enough memory |
| `MemorySyscalls.ResizeInPlace` | src/mm/memory_map.rs:491-524 | on success resized with its contents; a failure within accessible pages leaves everything as it was; the ranges left in every case; success with enough memory |
| `MemorySyscalls.GapFits` | src/mm/memory_map.rs:529-532 | the highest gap takes a mapped range if and only if no mapping straddles the stack's lower end |
| `MemorySyscalls.MoveAnywhere` | src/mm/memory_map.rs:529-532 | the destination is the highest gap, and it was free; the ranges left in every case; ENOMEM without a gap, and success with a fitting gap and enough memory |
| `MemorySyscalls.Mremap` | src/mm/memory_map.rs:452-534 | EINVAL for exactly the arguments that call for it, and else only for the kernel's slots; on success moved or resized with its contents and protection, nothing else changed; EFAULT for a range not fully mapped; a failed shrink of accessible pages changes nothing; the ranges left in every case; how each kind of call ends, by what the free lists could supply |
| `MemoryRuns.FittingIffClear` | src/mm/memory_map.rs:98-220 | going through the ranges tells whether what rounding adds is clear, exactly |
| `MemoryRuns.PlainMapIsReady` | src/mm/memory_map.rs:361-427 | an exact-size mapping without a hint can be asked for in every state with the stack in place |
| `MemoryRuns.WholeIsReady` | src/mm/memory_map.rs:432-534 | one whole mapping other than the stack can be unmapped, or remapped to an exact size, in every such state |
| `MemoryRuns.UnmapWhole` | src/mm/memory_map.rs:432-444 | unmapping exactly one mapping always succeeds |
| `MemoryRuns.MapThenUnmap` | src/mm/memory_map.rs:361-444 | unmapping what an exact-size mapping has mapped always succeeds and restores what the task sees |
| `MemoryRuns.Serve` | src/mm/memory_map.rs:361-566 | one call that is ready: mappings stay disjoint and in agreement with the page tables, the stack stays in place, and mapped pages the call does not name stay as they are |
| `MemoryRuns.ServeAll` | src/mm/memory_map.rs:361-566 | the same over every sequence of calls, each made if it is ready when its turn comes, whichever of them fail; nobody else's memory changes, and a mapped page keeps contents and protection until a call names it |
| `Fork.CloneFrame` | src/mm/frame.rs:44-50 | a new frame with the same contents, nobody's memory changed; or nothing changed, exactly if there is no block for it |
| `Fork.CloneRun` | src/task.rs:111-114 | all frames of a mapping are cloned; on failure, exactly if one of their blocks cannot be had, none is kept |
| `Fork.CloneMappings` | src/task.rs:106-116 | all mappings are cloned; on failure, exactly if one of their blocks cannot be had, none is kept |
| `Fork.ChildOwns` | src/task.rs:96-154 | the child's frames are live, unshared, and not page tables |
| `Fork.ChildView` | src/task.rs:96-154 | every page of the child has the parent's contents and flags |
| `Fork.NeverOwnTable` | src/task.rs:96-154 | no page of a valid memory set maps a table of its space |
| `Fork.CloneTables` | src/task.rs:97-104 | a fresh space that translates like the parent's, exactly if there are pages for the root and all tables |
| `Fork.Populate` | src/task.rs:106-154 | the child's pages are rewritten to its own frames, one by one, with tables and mappings in agreement |
| `Fork.TryClone` | src/task.rs:96-154 | parent unchanged; child with the same pages, contents and flags, on memory that was nobody's; it fails if and only if the pages for the tables or the blocks for the frames cannot be had, and keeps at most the new page tables |
| `Fork.OtherTaskUnaffected` | src/task.rs:96-154 | whatever one task does within its own memory, another task's pages and their agreement with its tables stay as they are |
| `VirtioBlk.Device.ReadAt` | src/driver/virtio_blk.rs:183-204 | the slice of the flat byte disk, filled as far as it reaches; succeeds exactly if all of it does |
| `VirtioBlk.Device.WriteAt` | src/driver/virtio_blk.rs:208-246 | the buffer is spliced into the flat byte disk as far as it reaches, and no other byte changes |
| `VirtioBlk.WriteThenRead` | src/driver/virtio_blk.rs:183-246 | reading back what was written |
| `MinixSpec.DecodedAt` | src/fs/minix.rs:197-211 | entry i of a zone table is bytes 2i and 2i + 1, low byte first |
| `MinixSpec.EncodedAt` | src/fs/minix.rs:214-226 | a table is written low byte first |
| `MinixSpec.LayoutIs` | src/fs/minix.rs:129-148 | the first seven zones are in the inode, the next in the table of zone[7] |
| `MinixSpec.DoubleLayoutIs` | src/fs/minix.rs:150-156 | the zones after those are in tables whose zones are in the table of zone[8], in order |
| `MinixSpec.TableRoundTrip` | src/fs/minix.rs:182-226 | decoding an encoded zone table gives it back |
| `MinixSpec.ReadBack` | src/fs/minix.rs:129-156 | from direct, single and double tables that represent a list of zones exactly that list is read |
| `Minix.MinixFs.AllocZone` | src/fs/minix.rs:346-358 | a free data zone, the lowest, or none if there is none, if and only if some zone is free or no padding bit of the map looks free; the padding stays as it was |
| `Minix.FullDiskHandsOutAZone` | src/fs/minix.rs:346-358 | with clear padding a full disk hands out a zone past its end (a concrete map) |
| `Minix.MinixFs.FreeZone` | src/fs/minix.rs:361-377 | exactly that zone is free again, and the padding stays as it was |
| `Minix.MinixFs.WriteZoneTable` | src/fs/minix.rs:214-226 | the table is on disk low byte first and reads back, and no other zone changes |
| `Minix.MinixFs.ReadZoneTable` | src/fs/minix.rs:197-211 | the little-endian words of the zone, or an error exactly beyond the disk |
| `Minix.MinixFs.ReadZones` | src/fs/minix.rs:129-156 | reads exactly the represented zones; fails exactly if a table is beyond the disk |
| `Minix.MinixFs.EnsureZone` | src/fs/minix/write.rs:49-54 | the zone there, or a new one; on a padded map it fails exactly on a full disk |
| `Minix.MinixFs.WriteSingle` | src/fs/minix/write.rs:41-56 | the single-indirect table holds the second part of the list |
| `Minix.MinixFs.WriteDouble` | src/fs/minix/write.rs:58-89 | the double-indirect tables hold the third part of the list; how far it came on a full disk |
| `Minix.MinixFs.WriteFileZones` | src/fs/minix/write.rs:24-92 | on a padded map the inode represents the new list if and only if enough zones are free for tables; new tables are new zones, and no other used zone changes |
| `Minix.CannotReadBack` | src/fs/minix/write.rs:46-90 | after an early return the list cannot be read back |
| `Minix.MinixFs.FreeInodeBlocks` | src/fs/minix/write.rs:332-363 | exactly the data and table zones of the file are free again |
| `MinixFile.File.ReadAt` | src/fs/minix/file.rs:126-157 | over sectors, the slice of the contents, cut at the end |
| `MinixFile.File.Enlarge` | src/fs/minix/file.rs:173-192 | zones are added as needed; on a padded map, complete exactly if enough are free |
| `MinixFile.File.WriteAt` | src/fs/minix/file.rs:165-221 | over sectors, the contents with the buffer spliced in at the smaller of offset and size, for every buffer; on a padded map, complete if and only if there is room, and else cut off where the zones end with the disk full; never more zones than the bytes take; no zone of another file changes |
| `MinixFile.OtherFileKept` | src/fs/minix/file.rs:165-221 | another file keeps its contents and its tables |
| `MinixFile.NumbersInReach` | src/fs/minix/write.rs:71-74 | every list of 16-bit zone numbers is within the reach of the double-indirect scheme |
| `MinixDevice.ReadInZone` | src/fs/minix.rs:170-178 | over sectors, that part of that zone of the disk; an error exactly past its end |
| `MinixDevice.ReadZone` | src/fs/minix.rs:159-178 | over sectors, the zone of the disk; an error exactly past its end |
| `MinixDevice.StoreTable` | src/fs/minix.rs:197-226 | a zone table written to sectors replaces exactly that zone and reads back |
| `MinixDevice.WriteInZone` | src/fs/minix/file.rs:204-207 | over sectors, exactly that part of that zone of the disk is overwritten |
| `MinixFile.File.Data` | src/fs/minix.rs:110-125 | the whole contents |
| `MinixFile.EmptyFile` | src/fs/minix/write.rs:258-276 | an empty inode represents no zones |
| `MinixFile.CreateAndDelete` | src/fs/minix/write.rs:332-363 | writing a new file and freeing its blocks restores the zone bitmap and every used zone |
| `IdAlloc.OneForm` | crates/athera-id-alloc/src/lib.rs:157-176 | a set of free ids has one canonical interval map |
| `IdAlloc.JoinCanonical` | crates/athera-id-alloc/src/lib.rs:157-176 | joining with neighbours keeps the map sorted, disjoint and coalesced |
| `IdAlloc.JoinFree` | crates/athera-id-alloc/src/lib.rs:157-176 | joining adds exactly the range |
| `IdAlloc.InsertFreeRange` | crates/athera-id-alloc/src/lib.rs:157-176 | exactly that id becomes free, in canonical form |
| `IdAlloc.ReturnRange` | crates/athera-id-alloc/src/lib.rs:334-353 | exactly that range becomes free, in canonical form |
| `IdAlloc.CutCanonical` | crates/athera-id-alloc/src/lib.rs:309-331 | cutting a piece out keeps the canonical form |
| `IdAlloc.CutFree` | crates/athera-id-alloc/src/lib.rs:309-331 | cutting removes exactly the piece |
| `IdAlloc.Carve` | crates/athera-id-alloc/src/lib.rs:309-331 | the errors in order; otherwise exactly the range is taken |
| `IdAlloc.FlatTake` | crates/athera-id-alloc/src/lib.rs:256-268 | the least free id; `None` exactly if there is none |
| `IdAlloc.FlatTakeAt` | crates/athera-id-alloc/src/lib.rs:270-294 | the errors exactly; otherwise exactly that id is taken |
| `IdAlloc.FlatGive` | crates/athera-id-alloc/src/lib.rs:296-306 | the errors exactly; otherwise exactly that id is free |
| `IdAlloc.FlatIsAllocated` | crates/athera-id-alloc/src/lib.rs:223-236 | in range and not free |
| `IdAlloc.FindAlignedBlock` | crates/athera-id-alloc/src/lib.rs:239-254 | the lowest aligned free block; `None` exactly if there is none |
| `IdAlloc.Allocator.Alloc` | crates/athera-id-alloc/src/lib.rs:492-494 | the least free id outside the majors, and it was not allocated |
| `IdAlloc.Allocator.IsAllocated` | crates/athera-id-alloc/src/lib.rs:469-479 | exactly the allocated ids, routed to the major that has them |
| `IdAlloc.Allocator.AllocAt` | crates/athera-id-alloc/src/lib.rs:500-510 | the errors exactly; otherwise exactly that id is allocated, in its major if it has one |
| `IdAlloc.Allocator.Dealloc` | crates/athera-id-alloc/src/lib.rs:513-523 | the errors exactly; otherwise exactly that id is free |
| `IdAlloc.Allocator.AllocMajor` | crates/athera-id-alloc/src/lib.rs:530-543 | the lowest aligned free block becomes a major; `None` exactly if there is none |
| `IdAlloc.Allocator.AllocMajorAt` | crates/athera-id-alloc/src/lib.rs:546-569 | the errors exactly; otherwise that block becomes a major |
| `IdAlloc.Allocator.AllocMinor` | crates/athera-id-alloc/src/lib.rs:572-575 | the least free id of that major |
| `IdAlloc.Allocator.DeallocMajor` | crates/athera-id-alloc/src/lib.rs:578-585 | the whole block is free, whatever was allocated in it |
| `IdAlloc.Allocator.Used` | crates/athera-id-alloc/src/lib.rs:441-443 | the number of allocated ids |
| `IdAlloc.Allocator.AvailableIds` | crates/athera-id-alloc/src/lib.rs:446-453 | the number of ids in range that are not allocated |
| `IdAlloc.UsedPlusAvailable` | crates/athera-id-alloc/src/lib.rs:436-453 | used and available add up to the size |
| `IdAlloc.OneState` | crates/athera-id-alloc/src/lib.rs:157-364 | the allocated ids and the majors determine the whole state |
| `IdAlloc.AllocThenDealloc` | crates/athera-id-alloc/src/lib.rs:492-523 | allocating and giving back restores the state exactly |
| `IdAlloc.MajorThenBack` | crates/athera-id-alloc/src/lib.rs:530-585 | reserving a major and giving it back restores the state exactly |
| `RwLock.FreshInv` | src/sync/rwlock.rs:34-40 | a new lock satisfies the invariant |
| `RwLock.StepKeeps` | src/sync/rwlock.rs:43-140 | every step of every thread keeps: state is twice the readers plus the writer, never both, never two writers, and the waiting count is the writers waiting |
| `RwLock.RunKeeps` | src/sync/rwlock.rs:43-140 | so does every interleaving |
| `RwLock.WriterAlone` | src/sync/rwlock.rs:43-140 | in every run from a new lock, nobody reads or writes beside a writer |
| `RwLock.NobodyPasses` | src/sync/rwlock.rs:43-71 | while a writer waits, no reader gets past its look at the waiting writers, and one already past it gets in once |
| `RwLock.WriterPreferred` | src/sync/rwlock.rs:43-89 | while a writer waits, each thread acquires at most one read lock, and none unless it was past its look at the waiting writers |
| `RwLock.AfterAnnouncing` | src/sync/rwlock.rs:74-88 | the same from the step that announces the writer on |
| `RwLock.FreeLockIsTaken` | src/sync/rwlock.rs:78-88 | a waiting writer takes a free lock in one step |
| `RwLock.ReaderEnters` | src/sync/rwlock.rs:43-71 | left alone, an asking reader gets in if and only if no writer waits or holds the lock and the word has room; readers inside stay and do not keep it out |
| `RwLock.WriterEnters` | src/sync/rwlock.rs:74-89 | left alone, an asking writer gets in exactly if nobody is inside, and waits otherwise |
| `RwLock.GetsIn` | src/sync/rwlock.rs:43-89 | from every point on its way in a thread gets in within four turns of its own once the lock is open to it |
| `RwLock.AskAndLeave` | src/sync/rwlock.rs:43-140 | asking and dropping a guard take one turn each; after a writer has left, nobody is inside |
| `RwLock.NoOverflow` | src/sync/rwlock.rs:58-61 | the reader count does not overflow for fewer threads than the word has room for |
| `Scheduler.Tasks.FirstFrom` | src/task.rs:300-305 | the least runnable id behind the cursor |
| `Scheduler.Tasks.SelectNext` | src/task.rs:299-322 | the next runnable id in cyclic order; `None` exactly if no task can run |
| `Scheduler.Closer` | src/task.rs:299-322 | a selection of another task brings a runnable task strictly closer |
| `Scheduler.ChosenInTime` | src/task.rs:299-322 | a task that stays runnable is selected within its cyclic distance, whatever happens to the others in between |
| `TrieSpec.NameLessIs` | crates/athera-trie/src/lib.rs:64-69 | children are ordered lexicographically: a proper prefix first, else the first difference decides |
| `TrieSpec.KeyLessIs` | crates/athera-trie/src/lib.rs:340-368 | so are keys, component by component |
| `TrieProperties.InsertGet` | crates/athera-trie/src/lib.rs:243-253 | inserting changes exactly that key |
| `TrieProperties.RemoveGet` | crates/athera-trie/src/lib.rs:175-194 | removing changes exactly that key |
| `TrieProperties.InsertWellFormed` | crates/athera-trie/src/lib.rs:243-253 | edges stay sorted, and every node but the root leads to a value |
| `TrieProperties.RemoveWellFormed` | crates/athera-trie/src/lib.rs:175-194 | the same after pruning |
| `TrieProperties.ListedIffHeld` | crates/athera-trie/src/lib.rs:261-263 | the entries listed are exactly the entries held |
| `TrieProperties.EntriesAscending` | crates/athera-trie/src/lib.rs:340-368 | entries are listed in strictly ascending order |
| `TrieProperties.CountIs` | crates/athera-trie/src/lib.rs:78-84 | `count` is the number of entries |
| `TrieProperties.InsertCount` | crates/athera-trie/src/lib.rs:243-253 | one more entry exactly for a new key |
| `TrieProperties.RemoveCount` | crates/athera-trie/src/lib.rs:175-181 | one less exactly for a key that was held |
| `TrieProperties.OneShape` | crates/athera-trie/src/lib.rs:64-90 | tries with the same entries are equal |
| `Trie.Tree.NodeOf` | crates/athera-trie/src/lib.rs:223-229 | the loop reaches the node below the key |
| `Trie.Tree.Lookup` | crates/athera-trie/src/lib.rs:156-158 | the value held |
| `Trie.Tree.ContainsPrefix` | crates/athera-trie/src/lib.rs:218-220 | true exactly if some key extends the prefix |
| `Trie.Tree.Insert` | crates/athera-trie/src/lib.rs:243-253 | a finite map changed at one key, the old value returned, and the length kept exact |
| `Trie.Tree.Remove` | crates/athera-trie/src/lib.rs:175-194 | a finite map without the key, the old value returned, and the length kept exact |
| `Trie.Tree.LongestPrefix` | crates/athera-trie/src/lib.rs:201-214 | the longest prefix that is held; `None` exactly if there is none |
| `Trie.Iter.Next` | crates/athera-trie/src/lib.rs:340-368 | the next entry still to come, by an explicit stack |
| `Trie.IterateAll` | crates/athera-trie/src/lib.rs:261-263 | every entry once, in ascending order, as many as the length |
| `Trie.IteratePrefix` | crates/athera-trie/src/lib.rs:271-276 | exactly the entries whose key extends the prefix, each once, in ascending order, as many as announced |
| `Vfs.ComponentsAre` | src/fs/vfs.rs:433-438 | components are nonempty and free of separators |
| `Vfs.JoinThenSplit` | src/fs/vfs.rs:433-452 | splitting what was joined gives the components back |
| `Vfs.RelativePath` | src/fs/vfs.rs:442-452 | an absolute path with exactly these components |
| `Vfs.TrimmedComponents` | src/fs/vfs.rs:379-389 | trimming separators at the end keeps the components |
| `Vfs.MountPath` | src/fs/vfs.rs:379-389 | refused exactly if relative; otherwise the path without separators at its end, which has the same components |
| `Vfs.Mounts.Mount` | src/fs/vfs.rs:353-377 | the errors in order, the file system's own among them; otherwise exactly that key is mounted |
| `Vfs.Mounts.Resolve` | src/fs/vfs.rs:416-429 | the mount with the longest key that is a prefix, and key and rest make up the path; not found exactly if there is none |
| `Vfs.OneMount` | src/fs/vfs.rs:416-429 | that mount is unique |
| `Bitmap.TrailingZeros` | crates/athera-bitmap/src/lib.rs:132-135 | the lowest set bit of a word |
| `Bitmap.ScanWords` | crates/athera-bitmap/src/lib.rs:111-142 | the first wanted bit of the masked words |
| `Bitmap.ScanIsPlainIff` | crates/athera-bitmap/src/lib.rs:111-142 | the masked scan is the plain search if and only if the plain search succeeds or no bit from the end on looks wanted |
| `Bitmap.ScanIsPlain` | crates/athera-bitmap/src/lib.rs:111-142 | so it is with exactly the words the bits need |
| `Bitmap.ScanFindsPadding` | crates/athera-bitmap/src/lib.rs:128-131 | with one word too many a bit beyond the end is found (a concrete map) |
| `Bitmap.BitMap.IsAllocated` | crates/athera-bitmap/src/lib.rs:287-289 | exactly the used bits |
| `Bitmap.BitMap.FindFreeFrom` | crates/athera-bitmap/src/lib.rs:402-407 | the first free bit from there on |
| `Bitmap.BitMap.FindUsedFrom` | crates/athera-bitmap/src/lib.rs:417-422 | the first used bit from there on |
| `Bitmap.BitMap.AllocFrom` | crates/athera-bitmap/src/lib.rs:332-337 | the first free bit from there on becomes used, and the count with it |
| `Bitmap.CountUsed` | crates/athera-bitmap/src/lib.rs:106-108 | the number of used bits, counted word by word |
| `Bitmap.BitMap.FromWords` | crates/athera-bitmap/src/lib.rs:457-467 | a map made from words counts its used bits |
| `Bitmap.BitMap.AllocSpecific` | crates/athera-bitmap/src/lib.rs:343-353 | the errors exactly; otherwise exactly that bit becomes used, and the counter stays exact |
| `Bitmap.BitMap.Free` | crates/athera-bitmap/src/lib.rs:359-369 | the errors exactly; otherwise exactly that bit becomes free, and the counter stays exact |
| `Bitmap.BitMap.Reset` | crates/athera-bitmap/src/lib.rs:447-450 | every bit is free, and the counter says so |
| `Bitmap.BitMap.Set` | crates/athera-bitmap/src/lib.rs:298-307 | exactly that bit becomes used, and the counter stays exact |
| `Bitmap.BitMap.Clear` | crates/athera-bitmap/src/lib.rs:310-319 | exactly that bit becomes free, and the counter stays exact |
| `Bitmap.AllocRangeIn` | crates/athera-bitmap/src/lib.rs:145-168 | the lowest run of free bits becomes used; `None` exactly if there is none or none is asked for |
| `Bitmap.FreeRangeIn` | crates/athera-bitmap/src/lib.rs:172-185 | all of a used range becomes free, or none of it |
| `Bitmap.BitMap.AllocRange` | crates/athera-bitmap/src/lib.rs:374-381 | the lowest free run, with the counter kept exact |
| `Bitmap.BitMap.FreeRange` | crates/athera-bitmap/src/lib.rs:387-392 | all or nothing, with the counter kept exact |
| `Bitmap.BitIter.Next` | crates/athera-bitmap/src/lib.rs:867-871 | the next matching bit |
| `Bitmap.Indices` | crates/athera-bitmap/src/lib.rs:426-444 | exactly the matching bits, in ascending order |
| `InitialStack.WordAtIs` | src/task/exec.rs:123-145 | words are little-endian |
| `InitialStack.WordRoundTrip` | src/task/exec.rs:123-145 | reading a stored word gives it back |
| `InitialStack.StringsRead` | src/task/exec.rs:66-74 | every string is read back from its start |
| `InitialStack.Rounding` | src/task/exec.rs:54-59 | sizing first and aligning the pointer last agree |
| `InitialStack.PushCStr` | src/task/exec.rs:66-74 | the string and its terminator right below the pointer, and no other byte |
| `InitialStack.PushStrings` | src/task/exec.rs:103-115 | all strings below one another, and their starts |
| `InitialStack.StoreTable` | src/task/exec.rs:117-145 | the pointer table in place, and no other byte |
| `InitialStack.BuildInitialStack` | src/task/exec.rs:83-150 | refused exactly if the words and strings do not fit; otherwise writes only inside the frame and returns the highest 16-byte aligned pointer that leaves room for them |
| `InitialStack.StartReadsAll` | src/task/exec.rs:83-150 | a reader that starts at the returned pointer recovers argc, argv, envp and auxv exactly |

## Left out

- Slub.SlowCaches.AllocClass: pages and free lists are values; that the links inside free objects and the page headers are written in place is not modelled, only that objects stay clear of both.
- Slub.SlowCaches.Dealloc: one hart only; objects that are handed to the caches of another hart are the caller's business (`found` is false for them).
- IdAlloc.Allocator.Alloc: the nested flat allocators are values held by the allocator; range validation and `reset` are not modelled.
- Trie.Tree.Insert: rebuilds the path to the key instead of writing through references; the table of nodes is a value.
- Minix.MinixFs.AllocZone: the zone bitmap is kept as words beside the disk and has at least the words its bits need; reading and writing its blocks, the inode table and the inode bitmap are not modelled.
- Minix.MinixFs.WriteFileZones: for growing lists of distinct nonzero zones, the only ones its callers pass.
- MinixFile.File.WriteAt: file sizes are unbounded; the truncation of the stored size to 32 bits is not modelled.
- MinixDevice.ReadZone: the device is exactly as long as the zones of the disk, and a sector never fails to be read or written.
- AddressSpaces.CreateTable: that the page is cleared shows only in the empty tables its callers install, because tables are typed values.
- MemoryMap.MemorySet.UnmapRange: kept parts have exact sizes; for others the code does not unmap exactly the window, as `Ranges.UnmapExactIff` shows.
- MemorySyscalls.Munmap: kept parts have exact sizes, for the same reason.
- MemorySyscalls.Mremap: a failed move may have given up the destination, or both ranges, because `move_to` and `rebuild` give up ranges before their last step can fail; the contract lists what may be left and does not tell it apart by the error.
- MemorySyscalls.PlaceAt: where mappings are replaced first, success is promised for enough free 4 MiB blocks and not exactly, because the blocks freed on the way may merge.
- MemorySyscalls.Rebuild: where tables are missing at the destination, success is promised for enough free 4 MiB blocks and not exactly, for the same reason; where they are all there it is exact.
- MemoryRuns.ServeAll: calls that touch the lower end of the stack, or keep parts of inexact size, are not made.
- MemorySyscalls.Mmap: file-backed mappings are refused by the code, and the descriptor table behind them is not modelled.
- Fork.TryClone: when copying the frames fails, the new page tables stay with the new task id, as in the code; removing that task is not modelled.
- RwLock.StepKeeps: steps are sequentially consistent; weaker memory orderings are not modelled.
- AddressSpaces.AddressSpace.Map: page tables are typed tables at page numbers rather than bytes, and page numbers are not truncated to 44 bits.
- Memory below the page tables is page-granular: a page holds words, and contents are copied page by page.
- TLB flushes, traps, registers, boot code, device probing and the virtqueue protocol: hardware effects.
- ELF loading: a memory set starts from the mappings it was given.
- MINIX directories, links and names: entries are appended to blocks that are not cleared, so there is no simple contract.
- The device file system, the logger, procedural macros and the user programs: they would only add easy members.
