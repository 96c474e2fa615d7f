# PotatOS kernel: memory, tasks and console

A Dafny model of the core of the PotatOS kernel and proofs of what that core keeps over whole runs.

* **Frames** (`Bitmap`, `FrameRuns`). The bit-packed first-fit allocator of physical frames refines a set of free
  frames.
* **Page tables** (`PageTables`, `Paging`, `DataPages`, `StaleStores`, `Boot`). Physical memory is a map from frames to
  tables of 512 entries; the reference is the hardware walk of 4-level paging (Intel SDM volume 3A, section 4.5).
  `map_page` and `is_virtual_memory_mapped` reach the tables only through the recursive slot 510, and every load and
  store of the model has as its precondition that the hardware walk of the address it uses succeeds at that moment.
  Tables may be shared, as the boot tables are. `Recursive` is what `map_page` needs in order not to fault; that it
  still holds after the call, that nothing unintended gets mapped, and the bookkeeping of the region manager rest on the
  stronger `Separated`: no frame serves two levels apart from slot 510. The boot tables satisfy it.
* **Regions of virtual memory** (`PageRange`, `PageNumbers`, `AreaOrder`, `AreaMapping`, `RegionList`,
  `RegionHeaders`, `VmmOutcome`, `Vmm`, `StaleFrames`, `Reach`, `Kernel`, `FromBoot`). The intrusive list of `vmm.c`
  lives in the memory it describes, so a store into a header goes through the translation of its address. `RegionList`
  says what the calls mean for a sequence of regions; `RegionHeaders` ties that sequence to the words in memory;
  `AreaOrder` tells from the state before a call which free frame goes to which page, which becomes a table and which
  stays free; `VmmOutcome` states what `vmm_allocate` leaves, and the class `Vmm.Manager` does it. `StaleFrames` reaches
  the states in which it goes wrong, and `Reach` those in which `vmm_free` can read its tables. `Kernel` starts it all
  from the boot tables, and `FromBoot` follows runs from there.
* **The kernel heap** (`ByteMemory`, `HeapBlocks`, `HeapMemory`, `HeapStores`, `HeapRuns`, `KHeap`, `StringLib`).
  `HeapBlocks` treats the chain of 9-byte headers as a sequence; `HeapMemory` and `HeapStores` tie it to the bytes;
  the class `KHeap.KernelHeap` does the pointer walks and stores of `kheap.c`, and `HeapRuns` follows whole runs of
  them. `memcpy` and `memmove` work on the same bytes.
* **Tasks** (`Context`, `Scheduler`, `Multitasking`, `Processes`). The interrupt stub as a stack machine, round-robin
  scheduling, and the refinement that gives every task a processor of its own.
* **Console and numbers** (`Console`, `Digits`, `Stdlib`). The screen as a window onto an unbounded transcript; the
  digit printers against a parser.

Addresses are unbounded naturals. Where 64-bit arithmetic could wrap around, a precondition names the sum that must
not, or the wrap-around is written out.

## What the code does that its reader may not expect

Each of these is a proved statement about the code as it is.

* `vmm_free` unlinks a region and marks the frame of its first page free, but that page stays mapped to the frame. A
  later region at the same address writes its header through the stale mapping. After that call of `vmm_allocate` the
  older translations have survived exactly if the frame was no page table or its first two entries were absent; the
  words in memory are the list exactly if the frame is not the one behind another header and the way to no header led
  through those entries; and the list is sound exactly if the frame is also neither a page table nor left free. All of
  this can be told before the call (`Vmm.Manager.VmmAllocate`, `VmmOutcome.OlderTranslationsIff`). The failures are
  reached by a few calls: `StaleFrames.LoseTheList` (a header over a header) and `StaleFrames.LoseTranslations` (a
  header over a page table). `FromBoot.LoseTheListFromBoot` and `FromBoot.LoseTranslationsFromBoot` are such runs from
  the boot tables on.
* Where a gap is reused, its pages are mapped already: `vmm_allocate_area` takes n frames and makes no new mapping for
  them (`Vmm.Manager.FillGap`).
* `vmm_allocate` returns base + 256 instead of base + 16 for a reused gap, because `current + sizeof(vmm_region)`
  counts in regions. Passing that pointer to `vmm_free` unlinks nothing (`RegionList.FreeOfReturnedPointer`), and a
  block in a reused gap ends inside its region exactly if its size plus 256 bytes still fits there: one of 4000 bytes
  runs 160 bytes into whatever follows (`RegionHeaders.BlockEndsInside`).
* `get_physical_address`, and with it `vmm_free`, reads tables at their physical addresses. The boot tables map the
  first 4 MiB, and from 1 GiB less 48 MiB on the start of the framebuffer; a table can be read that way exactly if it
  lies in the first 4 MiB or is one of those framebuffer pages seen at its own address. The allocator hands out frames
  from 12 MiB above the kernel on, so a table created later is not among the first (`Boot.TablesInReach`). After
  init_memory and any number of calls of `vmm_allocate`, and nothing else, `vmm_free` cannot read the tables of any
  region; with at most 976 MiB of RAM every load from the second or third of them faults, with more it may show another
  frame (`FromBoot.AllocateFromBoot`). Two calls of `map_page`, which map the second and third table of a region onto
  themselves, make it work (`Reach.ReadTables`).
* `kfree` of the last block also merges whatever the bytes past the chain look like. Giving back a block straight
  after taking it restores the chain exactly if the block was split, was not the last one, or those bytes do not look
  free (`HeapBlocks.MallocThenFree`).
* `create_process` sets rsp to the lowest address of the stack block, so the first push of the new task overwrites the
  header of that block; a word below 2^56 turns the block into a free one (`Processes.FirstPushHitsTheHeader`). Nor is
  there room for an interrupt inside the block (`Processes.RoomInTheBlock`).
* `vga_check_if_scroll_needed` on a screen of one row moves the cursor to row -1
  (`Console.Vga.VgaCheckIfScrollNeeded`).
* `itoa` prints numerals for negative numbers in base 10 only, and not for the smallest `int`
  (`Stdlib.ItoaRoundTripIff`).

## Model

| member | source | states |
|---|---|---|
| Bitmap.MaskIsShift | src/mem/bitmap.c:39 | the tabulated masks are the shifts `1 << k` |
| Bitmap.SettingOneBit | src/mem/bitmap.c:37-71 | setting or clearing bit k of a byte changes bit k and no other |
| Bitmap.FreeSetAfterRow | src/mem/bitmap.c:42-71 | replacing one byte by one that differs in one bit adds or removes exactly that frame |
| Bitmap.FrameBitmap.InitBitmap | src/mem/bitmap.c:12-35 | afterwards the free frames are exactly those from floor((kernel end + 12 MB)/4096) up to total_pages |
| Bitmap.FrameBitmap.IsPageFree | src/mem/bitmap.c:37-40 | the bit test is membership in the set of free frames: the frame is free exactly if its bit is clear |
| Bitmap.FrameBitmap.SetPageFree | src/mem/bitmap.c:42-54 | exactly the frame is added; an index past the end changes nothing |
| Bitmap.FrameBitmap.SetPageUsed | src/mem/bitmap.c:56-71 | exactly the frame is removed; an index past the end changes nothing |
| Bitmap.FrameBitmap.SetPageRangeUsed | src/mem/bitmap.c:73-86 | exactly the frames floor(start/4096) up to but not including floor(end/4096) are removed |
| Bitmap.FrameBitmap.AllocatePhysicalPage | src/mem/bitmap.c:88-107 | the lowest free frame is removed and returned; once frame 0 is reserved a result of 0 means exactly that none was free |
| FrameRuns.FreedByRelease | src/mem/bitmap.c:42-107 | over any run of calls a frame becomes free only by set_page_free of it |
| FrameRuns.NoDoubleAllocation | src/mem/bitmap.c:88-107 | between two allocations of the same frame lies a set_page_free of it, in any interleaving |
| FrameRuns.ReservedFramesAreKept | src/mem/bitmap.c:32 | no frame below kernel end + 12 MB is handed out unless it was freed explicitly |
| FrameRuns.AllocationIsARun | src/mem/bitmap.c:88-107 | what allocate_physical_page promises is one allocation event, or none when no frame is free |
| FrameRuns.MarkedRangeIsARun | src/mem/bitmap.c:73-86 | what set_page_range_used promises is a run of markings inside the range |
| FrameRuns.MapPageIsARun | src/mem/paging.c:336-419 | what map_page promises is a run of allocations alone, one for each missing table |
| FrameRuns.VmmAllocateIsARun | src/mem/vmm.c:49-100 | what vmm_allocate promises is a run of allocations alone, one for each page and one for each missing link |
| FrameRuns.VmmFreeIsARun | src/mem/vmm.c:102-134 | what vmm_free promises is one release, of the frame behind the header it finds, or no event if it finds none |
| FrameRuns.InitVmmIsARun | src/mem/vmm.c:184-196 | what init_vmm promises is the allocation of the frame of vm_root, its marking, and then allocations alone |
| FrameRuns.FreedByACall | src/mem/vmm.c:36-134 | over any interleaving of such calls, a frame in use before one and free before a later one was released by a call in between, and that call is neither map_page nor vmm_allocate |
| FrameRuns.CallsAreARun | src/mem/vmm.c:36-134 | the events of any interleaving of whole calls, one after the other, are one run |
| FrameRuns.NoDoubleAllocationByCalls | src/mem/vmm.c:36-134 | over any interleaving of whole calls a release lies between two allocations of the same frame |
| PageTables.FlagBits | include/mem/paging.h:39-40 | present, writable and page size are bits 0, 1 and 7 of an entry; a link is the frame with the value 3 |
| PageTables.LinksTranslate | src/mem/paging.c:284-319 | a path that can be followed by links alone translates, writable, to the frame it leads to |
| PageTables.FollowRecursive | src/boot/boot.asm:113-115 | stepping through slot 510 any number of times leads back to the root |
| PageTables.WindowShowsTable | src/mem/paging.c:292-297 | the recursive page of a prefix walks to the physical table of that prefix, writable, whenever that table exists |
| PageTables.WalkIsFollow | src/mem/paging.c:284-319 | under the invariant the hardware walk is: follow three links, then test the present bit of the leaf |
| PageTables.TranslatedPath | src/mem/paging.c:248-269 | a translated address has its four tables, each named by the entry before it |
| PageTables.PreservedTranslations | src/mem/paging.c:360-416 | changing only absent entries and free frames keeps every translation |
| PageTables.InstallFollow | src/mem/paging.c:360-393 | after a table was linked and cleared, every path leads where it led, or led nowhere and now leads to the new table |
| PageTables.InstallKeepsRecursive | src/mem/paging.c:360-393 | linking a cleared free frame keeps the invariant of map_page |
| PageTables.InstallKeepsSeparated | src/mem/paging.c:360-393 | it also keeps the levels apart |
| PageTables.InstallMapsNothing | src/mem/paging.c:360-393 | a new table by itself maps no address outside the recursive window |
| PageTables.InstallOpens | src/mem/paging.c:360-393 | a path that becomes followable leads to the new table, through the absent slot on the way to v |
| PageTables.LeafTranslates | src/mem/paging.c:397-416 | storing the leaf entry makes v walk to exactly the given page |
| PageTables.LeafMapsOneSlot | src/mem/paging.c:397-416 | an address outside the window that becomes mapped by that store ends in the same leaf slot as v |
| PageTables.SeparatedIsRecursive | src/boot/boot.asm:99-152 | tables that keep their levels apart satisfy the invariant of map_page |
| PageTables.LevelOfPath | src/boot/boot.asm:99-152 | a table reached by k links, the first not through slot 510, has level 4 - k |
| PageTables.EnsuredPathCounts | src/mem/paging.c:360-393 | the three table steps take exactly one frame per missing level |
| PageTables.EnsuredPathWrites | src/mem/paging.c:360-393 | the three table steps write plain links on the way to v and clear the new tables, and change no other word |
| PageTables.LeafWrites | src/mem/paging.c:397-416 | the leaf step adds exactly the entry given |
| PageTables.MappedByPathAndLeaf | src/mem/paging.c:336-419 | the three table steps and the leaf step together give all that map_page promises |
| Paging.PathOfFields | include/mem/paging.h:51-57 | the four index macros take apart exactly the address that the composition macro puts together |
| Paging.PathOfEntries | include/mem/paging.h:51-57 | the address built from 510 and three indices, plus an offset, has these indices |
| Paging.AddressOfPath | include/mem/paging.h:51-57 | an address is the sign bits, its four indices and its page offset put together |
| Paging.AlignKeepsPath | src/mem/paging.c:23-26 | aligning an address to its page keeps its four indices |
| Paging.EntryIsWord | src/mem/paging.c:407 | the entry for a page has exactly the flags and the frame that were passed |
| Paging.TableAddresses | src/mem/paging.c:345-355 | the four table pointers of map_page are the recursive windows of the prefixes of v |
| Paging.TableAddressReaches | src/mem/paging.c:292-297 | entry i behind a table pointer is a mapped, writable word: entry i of the physical table of that level |
| Paging.AddressSpace.CleanNewTable | src/mem/paging.c:276-282 | 512 stores through a window that exists only since the entry was written clear exactly the new table |
| Paging.AddressSpace.CreateTable | src/mem/paging.c:360-369 | takes one free frame, links it and leaves it empty; every store goes to a mapped address |
| Paging.AddressSpace.EnsurePath | src/mem/paging.c:358-393 | afterwards the three tables on the way to v exist |
| Paging.AddressSpace.MapPage | src/mem/paging.c:336-419 | every old translation survives, aliases and window included; an unmapped v gets exactly the given page, a mapped v changes nothing; one frame per missing level; the invariant is kept; outside the window nothing is mapped but through v's leaf slot; word by word, new links have PRESENT and RW, the leaf is the entry given, new tables are otherwise clear and no other word changes |
| Paging.AddressSpace.IsVirtualMemoryMapped | src/mem/paging.c:284-319 | returns mapped exactly if the hardware walk succeeds, and loads only through mapped windows |
| Paging.AddressSpace.MapFreshFrame | src/mem/paging.c:328-329 | maps the lowest free frame with PRESENT and RW; the frame for the page is taken before those for the tables |
| Paging.AddressSpace.MapIfNotMapped | src/mem/paging.c:321-334 | returns 1 exactly if the address was unmapped, and then maps it to the lowest free frame; otherwise nothing changes |
| Paging.AddressSpace.GetNextTableEntry | src/mem/paging.c:176-190 | the physical address of the next table, or null for a null table or an absent entry |
| Paging.AddressSpace.GetPhysicalAddress | src/mem/paging.c:176-269 | for a mapped address the hardware translation plus the page offset; an absent leaf gives whatever frame its entry names, and a missing table the word that a null table pointer leads to |
| Paging.AddressSpace.IsPhysicalMemoryMapped | src/mem/paging.c:82-122 | returns mapped exactly if the hardware walk takes the address to the physical page of the same number |
| DataPages.DataStore | src/mem/vmm.c:72-98 | a store into a frame that is no page table changes no translation, no table and no level |
| DataPages.MoreFree | src/mem/vmm.c:124 | marking a frame free that is no page table keeps the invariant |
| StaleStores.StoreKeepsTranslationsIff | src/mem/vmm.c:73-97 | one store of an absent word keeps every translation if and only if it hits no page table or an entry that was absent |
| StaleStores.CutKeepsTranslationsIff | src/mem/vmm.c:73-97 | the same for any set of entries of one frame |
| StaleStores.CutWalk | src/mem/vmm.c:73-97 | a walk through one of the lost entries faults, every other one ends where it did |
| StaleStores.StillATable | src/mem/vmm.c:73-97 | a frame stays a page table when entries of it are lost |
| StaleStores.LostWithItsSlot | src/mem/vmm.c:73-97 | an entry of a page table that is lost takes an older translation with it, whatever tables and pages were added before |
| StaleStores.MappedPassesKept | src/mem/vmm.c:36-43 | adding entries does not change through which entries a mapped page leads |
| Boot.BuildTables | src/boot/boot.asm:105-152 | the stores of the boot code leave exactly the described entries in five zeroed frames |
| Boot.MapPdTable | src/boot/boot.asm:131-139 | the first loop links the two page tables |
| Boot.MapPtTables | src/boot/boot.asm:142-152 | the second loop runs through both page tables and maps frames 0 to 1023 in order |
| Boot.MapFramebuffer | src/boot/boot.asm:220-246 | links the framebuffer table through slot 488 and fills its 512 entries with consecutive frames, through the mappings that the tables themselves provide |
| Boot.LastIsAnnounced | src/boot/boot.asm:207-270 | of several framebuffer tags the last one counts, whatever tags stand before, between and behind them |
| Boot.ReadMultiboot | src/boot/boot.asm:207-270 | over any list of tags: the tables are those after boot, with the framebuffer of the last such tag wherever it stands, and without one if there is no such tag |
| Boot.BootIsSeparated | src/boot/boot.asm:99-246 | the boot tables satisfy the invariant, with or without the framebuffer table, although two of them are linked twice |
| Boot.BootTranslation | src/boot/boot.asm:99-246 | outside the window exactly the first 4 MiB are mapped, at four places each, and if a framebuffer tag was met 2 MiB of it through slot 488, at four places each |
| Boot.BootMapsTheKernel | src/boot/boot.asm:105-152 | physical address x below 4 MiB is seen at x and at the higher-half base plus x |
| Boot.BootMapsTheFramebuffer | src/boot/boot.asm:220-246 | byte x of the first 2 MiB of the framebuffer is seen at the address that the framebuffer driver uses, plus x |
| Boot.BootRangeIsLinear | src/boot/boot.asm:99-246 | no page below 510 GiB but those shown is mapped after boot, and no two of the others share a table |
| Boot.VmmAreaIsInRange | src/mem/vmm.c:188 | the region list of init_vmm starts about 6 GiB up, inside that range, because the addition counts in words and wraps |
| Boot.TablesInReach | src/mem/paging.c:248-269 | after boot a table can be read at its physical address exactly if it lies in RAM below 4 MiB or shows there through the framebuffer mapping |
| Kernel.FramesFitInRam | src/mem/bitmap.c:15-30 | the bitmap covers as many whole rows of eight frames as fit into all_memory KiB |
| Kernel.SmallIsBelowTheFramebuffer | src/mem/pmm.c:26 | no frame has the number of a page at the framebuffer's 976 MiB exactly if all_memory is below 976 MiB plus 32 KiB |
| Kernel.NamedBelowTheWindow | src/mem/pmm.c:26 | all frames have page numbers below 510 GiB exactly if all_memory is below 510 GiB plus 32 KiB |
| Kernel.FirstFrameIsAbove | src/mem/bitmap.c:32 | the first frame not kept back contains the byte 12 MiB above the end of the kernel |
| Kernel.InitPmm | src/mem/pmm.c:20-46 | afterwards the free frames are exactly those above the reserved limit that no reserved area of the memory map covers; each lies wholly in the all_memory KiB of RAM and beyond 12 MiB above the kernel, and less than one row of frames is given away at the end |
| Kernel.InitMemory | src/kernel/kernel.c:23-30 | from the boot tables, with or without the framebuffer mapped, and four frames to spare, init_pmm and init_vmm lead to a region list in which, as long as nothing is freed, distinct pages have distinct frames and none of them is a page table; every later page table was one of the frames left free, which are exactly those that init_pmm leaves, and data in use is untouched |
| PageRange.PathsStayApart | src/mem/paging.c:358-416 | paths that meet in no table keep meeting in none when map_page maps any page outside the window |
| PageRange.InjectiveKept | src/mem/vmm.c:36-43 | a range of pages without shared leaf slots stays one under map_page of one of them |
| PageRange.LinearStep | src/mem/vmm.c:36-43 | mapping the next page of a linear range keeps: distinct pages, distinct frames, none of them a page table, the rest unmapped |
| PageRange.AreaStep | src/mem/vmm.c:36-43 | mapping one more page keeps the earlier pages mapped, every old translation and the bytes of data frames |
| PageRange.FewMissing | src/mem/paging.c:360-393 | a page misses at most the tables of the prefixes it does not share with the page before it |
| PageNumbers.PagePathIs | include/mem/paging.h:54-57 | the indices of a page are the digits of its number in base 512 |
| PageNumbers.SharedPrefix | include/mem/paging.h:54-57 | two pages share the indices of a level exactly if their numbers agree divided by 512, 512^2 or 512^3 |
| PageNumbers.TablesWithinBound | src/mem/vmm.c:38-42 | n pages meet at most (ceil(n/512)+1) + (ceil(n/512^2)+1) + (ceil(n/512^3)+1) tables |
| PageNumbers.OneMorePage | src/mem/vmm.c:38-42 | the tables counted for j + 1 pages cover those for j pages and the prefixes that page j is the first to use |
| RegionList.PlaceIsFirst | src/mem/vmm.c:63-89 | the walk stops at the first gap that is large enough |
| RegionList.InsertTakesTheLowestFit | src/mem/vmm.c:63-97 | the new region overlaps nothing, and no lower address above vm_root would fit |
| RegionList.InsertKeepsSorted | src/mem/vmm.c:63-97 | page-aligned, ascending and non-overlapping before and after |
| RegionList.PackedInsert | src/mem/vmm.c:91-97 | without frees a new region goes straight after the last one |
| RegionList.RemovalLeavesAHole | src/mem/vmm.c:111-127 | freeing a region that is not the last one of a list without gaps leaves one gap, of its size |
| RegionList.PlaceWithOneHole | src/mem/vmm.c:63-97 | with one gap a region goes into it if it fits, otherwise after the last region |
| RegionList.RemoveAt | src/mem/vmm.c:111-127 | removing by base address removes exactly that region |
| RegionList.RemoveKeepsSorted | src/mem/vmm.c:111-127 | the list stays sorted and keeps its root |
| RegionList.RemoveUndoesInsert | src/mem/vmm.c:49-134 | freeing a region by its own header restores the list |
| RegionList.FreeOfReturnedPointer | src/mem/vmm.c:83-127 | freeing the returned pointer restores the list exactly if the region went after the last one; a reused gap stays on the list |
| RegionList.RunStaysSorted | src/mem/vmm.c:49-134 | over any run of allocations and frees of regions other than the root |
| AreaOrder.TrackedStep | src/mem/vmm.c:36-43 | after one more page exactly the paths stuck at its missing links became followable, each link on a table of its own |
| AreaOrder.SlotsCount | src/mem/vmm.c:36-43 | a page adds as many missing links to those of the pages before it as map_page has tables to create for it |
| AreaOrder.InOrderStep | src/mem/vmm.c:36-43 | the frame of page j is the one with as many free frames below it as pages and missing links come before |
| AreaOrder.Fate | src/mem/vmm.c:36-43 | a free frame stays free exactly if its rank is at least the number of frames taken, and it goes to a page exactly if its rank is the turn of one |
| AreaOrder.TablesCreated | src/mem/vmm.c:36-43 | the frames that became tables are as many as the links that were missing |
| AreaOrder.OpenedByPage | src/mem/vmm.c:36-43 | a path that becomes followable while a range is mapped ends in an index that leads one of its pages from table to table |
| AreaOrder.NewTableServes | src/mem/vmm.c:36-43 | a table that came out of the free frames lies on the way of one of the pages |
| RegionHeaders.HeadersDiffer | src/mem/vmm.c:49-134 | a sorted list in memory has a frame of its own behind every header |
| RegionHeaders.ReturnedPointer | src/mem/vmm.c:85-99 | vmm_allocate returns the address behind the two 8-byte words of the header, in a gap sixteen times as far |
| RegionHeaders.BlockEndsInside | src/mem/vmm.c:54-99 | the block lies behind every word of its header, and ends inside its region exactly if the region is the last one or the size leaves 256 bytes of it |
| RegionHeaders.LinkedIsInserted | src/mem/vmm.c:71-97 | the three header stores turn the words of the list into those of the list with the region inserted |
| RegionHeaders.ClashBreaksTheList | src/mem/vmm.c:73-80 | if the frame behind the new header is behind another header too, memory holds no such list, whatever frames one takes for it |
| RegionHeaders.HeadersKeepTranslationsIff | src/mem/vmm.c:73-97 | all older translations survive the three header stores if and only if the frame of the new header is no page table or its entries 0 and 1 are absent |
| RegionHeaders.HeadersLosePages | src/mem/vmm.c:73-97 | exactly the pages whose way leads through entry 0 or 1 of that frame fault afterwards; every other page walks as before |
| RegionHeaders.LostHeader | src/mem/vmm.c:71-97 | a list with a header in a free frame or in a page table is not sound, whatever frames one takes for it |
| AreaMapping.ProgressStep | src/mem/vmm.c:36-43 | one more page of an area: translations, order of frames, count of frames and linearity carry on |
| AreaMapping.AreaWritesStep | src/mem/vmm.c:36-43 | one more page of an area writes on the way to that page only, and new tables are otherwise clear |
| AreaMapping.FateOfFrame | src/mem/vmm.c:36-43 | told before the area is mapped, a frame is in use and no page table afterwards exactly if it is no table, and not free or handed to a page; it becomes a table exactly if it is free, among those taken, and handed to no page |
| AreaMapping.WillPassIff | src/mem/vmm.c:36-43 | told before, a new page needs entry 0 or 1 of the frame behind its first page exactly if that frame becomes a table, or is one that a page already leads through there |
| AreaMapping.InVain | src/mem/vmm.c:76 | mapping pages that are all mapped takes exactly n frames, the lowest, and changes no word of memory |
| Vmm.Manager.VmmAllocateArea | src/mem/vmm.c:36-43 | after the loop every page of the area translates, nothing older changed, and every frame taken is accounted for: which went to a page and which became a table; no word changes but entries on the way to a page and those of new tables, which are otherwise clear |
| Vmm.Manager.FindGap | src/mem/vmm.c:63-89 | the walk over the words in memory finds the place that the list prescribes |
| Vmm.Manager.LinkIntoGap | src/mem/vmm.c:71-75 | for a reused gap the headers are written through mapped pages before the area is mapped, also where the stale frame is a page table; the new pages stay mapped |
| Vmm.Manager.FillGap | src/mem/vmm.c:36-76 | in a reused gap the n lowest free frames are taken and no word of memory changes, so no new mapping is made for them |
| Vmm.Manager.VmmAllocate | src/mem/vmm.c:49-100 | older translations survive if and only if the stale header frame, if any, is no page table or has entries 0 and 1 absent; exactly n frames and one for each missing link are taken, the lowest, and the latter are page tables afterwards, linked where the links were missing, unless pages are lost; an unmapped header page gets the lowest; all pages of the region translate if and only if the header hits no table they need; memory holds the list with the region inserted if and only if no other header is overwritten or cut off; the manager is sound afterwards if and only if, besides, the frame of the header is then in use and no page table; all conditions are told before the call; the returned pointer lies right behind the two words of the header, in a gap sixteen headers on, and the block ends inside its region exactly if that leaves room; memory is that of the mapped area with three header words, and data in use is otherwise untouched |
| VmmOutcome.AllocatedAfterwards | src/mem/vmm.c:49-100 | the outcome of both ways through the call, from what was told of the header frame before it |
| VmmOutcome.OlderTranslationsIff | src/mem/vmm.c:71-97 | on both ways through the call, older translations survive it if and only if the page of the new header was unmapped, or its stale frame is no page table or has entries 0 and 1 absent |
| VmmOutcome.WordsAfterwards | src/mem/vmm.c:71-97 | the header has its size and next pointer, its predecessor points at it, and every other word of a data frame in use is as it was |
| VmmOutcome.WaysAfterwards | src/mem/vmm.c:71-97 | memory holds the new list exactly if the header overwrites no other header and cuts the way to none |
| VmmOutcome.TablesAfterwards | src/mem/vmm.c:36-97 | new page tables were free frames, linked where a new page lacked a link, one for each such link unless the header cuts some off again |
| VmmOutcome.UsableCanStore | src/mem/vmm.c:71-97 | where no translation is at stake the stores reach their pages |
| VmmOutcome.ForetoldInGap | src/mem/vmm.c:71-80 | in a gap a free stale frame comes into use exactly if fewer than n free frames lie below it |
| VmmOutcome.ForetoldAtTheEnd | src/mem/vmm.c:91-97 | behind the last region what was told before the call of the header frame comes true: free, table or in use |
| StaleFrames.SurvivesInGap | src/mem/vmm.c:71-80 | reusing a gap leaves a sound list if and only if the stale frame holds no header, is no page table, and is not free or has fewer than n free frames below it |
| StaleFrames.GapLosesNoPage | src/mem/vmm.c:71-80 | reusing a gap never loses one of its own pages, as long as the ways to them avoid the words of the header |
| StaleFrames.LoseTheList | src/mem/vmm.c:49-134 | after a run without frees, vmm_free of a one-page region whose frame comes before all free ones, then two pages, then one page leave words in memory that are not the list, whatever frames one takes for it |
| StaleFrames.TurnIntoATable | src/mem/vmm.c:102-134 | vmm_free of a region and map_page of an address that lacks its last table and has leaf index 0 or 1 leave a sound list, in which the page of the freed region shows the new table, no page that was mapped before leads through the first two entries of that table, and a header written there loses older translations |
| StaleFrames.NewTableIsAvoided | src/mem/paging.c:336-419 | a page that was mapped while a frame was free does not lead through the first two entries of that frame once map_page has made it a table |
| StaleFrames.LoseTranslations | src/mem/vmm.c:49-134 | in a list without gaps, vmm_free of a one-page region that is not the last, map_page of such an address and vmm_allocate of one page put the region back on the list and lose translations that memory had before the last call |
| StaleFrames.ConsistentKept | src/mem/vmm.c:49-134 | the list survives whatever keeps the translations, the frames in use and the levels apart |
| StaleFrames.LastTableIsLowest | src/mem/paging.c:385-416 | where only the last table is missing, the lowest free frame becomes that table, with the entry of the page present |
| Reach.ReadInPlaceIff | src/mem/paging.c:176-190 | a frame can be read at its physical address exactly if the page of its own number is mapped to it |
| Reach.LinearWithout | src/mem/paging.c:336-419 | map_page of one page of a range without shared leaf slots keeps the mapped part and leaves the other pages unmapped |
| Reach.MapInPlace | src/mem/paging.c:336-419 | one call of map_page makes a page table readable at its physical address and keeps the region list and the run without frees |
| Reach.ReadTables | src/mem/paging.c:248-269 | two calls of map_page make all tables of an address readable for get_physical_address, where the first one is |
| FromBoot.TableOutOfReach | src/mem/paging.c:248-269 | in a run without frees the page table of every mapped page was a frame that init_pmm left free, and cannot be read at its physical address |
| FromBoot.NothingInReach | src/mem/vmm.c:123 | so the tables of no region can all be read by get_physical_address, whatever pointer to the root table it has |
| FromBoot.RegionFaults | src/mem/paging.c:248-269 | with at most 976 MiB of RAM the second and third table of every region exist, and a load of any word of them at its physical address faults |
| FromBoot.AllocateFromBoot | src/mem/vmm.c:49-134 | after init_memory and any sequence of vmm_allocate calls that the frames suffice for, vmm_free cannot read the tables of any region; with at most 976 MiB of RAM every load from the second and third of them faults |
| FromBoot.LoseTheListFromBoot | src/mem/vmm.c:49-134 | from the boot tables of a machine with at most 976 MiB: init_memory, two one-page regions, two calls of map_page, vmm_free of the first, then two pages and one page leave words in memory that are not the list, whatever frames one takes for it |
| FromBoot.LoseTranslationsFromBoot | src/mem/vmm.c:49-134 | on the same machine: init_memory, two one-page regions, two calls of map_page, vmm_free of the first, map_page of the address 8 MiB and one page lose translations that memory had before the last call, while all those of the boot tables had survived until then |
| Vmm.Manager.VmmFree | src/mem/vmm.c:102-134 | unlinks exactly the region 16 bytes below the pointer, adds the frame of its first page to the free ones, leaves the page mapped; the next pointer of the region before is the only word that changes; any other pointer changes nothing |
| Vmm.StartIsTheNextPage | src/mem/vmm.c:188 | vm_root lies at the first page boundary at or above the symbol plus 8 GiB, wrapped to 64 bits |
| Vmm.Manager.InitVmm | src/mem/vmm.c:184-196 | leaves a list of one page-sized region on the lowest free frame, takes the lowest of the others for its tables, and keeps every older translation; memory is that with the one page mapped and its size word written, and data in use is untouched |
| Vmm.Manager.VmmAllocateNeverFreed | src/mem/vmm.c:49-100 | in a run without frees, distinct pages of the range have distinct frames, none a page table; the region goes after the last one, its header into the lowest free frame; new page tables were free frames, linked where the new pages lacked links; other watched pages stay unmapped |
| HeapBlocks.InOrder | src/mem/kheap.c:125-165 | nodes of the chain lie one after the other without overlap |
| HeapBlocks.LiveBlocksAreDisjoint | src/mem/kheap.c:100-178 | two live payloads do not overlap |
| HeapBlocks.LiveBlockMeetsNoHeader | src/mem/kheap.c:100-178 | a live payload meets no header of the chain |
| HeapBlocks.LiveBlockIsInTheHeap | src/mem/kheap.c:125-172 | nothing live lies beyond the end of the chain |
| HeapBlocks.FirstFitFits | src/mem/kheap.c:125-165 | the first free node that is large enough, and none before it would do |
| HeapBlocks.DroppedRemainderIsLast | src/mem/kheap.c:146-149 | a split remainder falls out of the chain only behind the last node |
| HeapBlocks.SecondFitsBehind | src/mem/kheap.c:125-165 | the same for the chain as a sequence, also where the rest drops out of it |
| HeapBlocks.AllocKeepsInv | src/mem/kheap.c:100-178 | kmalloc keeps the chain, the serving of every live block and the separation of free nodes, and returns a new address |
| HeapBlocks.FindsExactlyLive | src/mem/kheap.c:214-230 | kfree finds a node exactly for the live pointers |
| HeapBlocks.FreeKeepsInv | src/mem/kheap.c:180-235 | kfree of any pointer keeps all of it, whatever the header past the end looks like |
| HeapBlocks.FewFreeNodes | src/mem/kheap.c:180-200 | free nodes number at most one more than used ones, as no two neighbours are free |
| HeapBlocks.MallocThenFree | src/mem/kheap.c:129-223 | kfree straight after a hole-reusing kmalloc restores the chain exactly if the hole was split, was not last, or the bytes past the end do not look free |
| HeapBlocks.FreedEnd | src/mem/kheap.c:216-222 | the end of the chain moves by no more than the header past it claims |
| ByteMemory.LoadStored | include/mem/kheap.h:6-10 | a 64-bit little-endian store is read back and touches its eight bytes only |
| HeapMemory.HeaderStored | include/mem/kheap.h:6-10 | a header written to memory is read back |
| HeapMemory.HeaderIsItsBytes | include/mem/kheap.h:6-10 | a header depends on the nine bytes from its address on, on each of them, and on no other |
| HeapMemory.ChainIsTiled | src/mem/kheap.c:125-165 | a walk over memory finds nodes back to back up to the first address at or above heap_head |
| HeapMemory.ChainIsUnique | src/mem/kheap.c:125-165 | a tiled sequence whose headers are in memory is what the walk finds |
| HeapMemory.ChainAfterSplice | src/mem/kheap.c:73-86 | rewriting headers inside some nodes replaces exactly these nodes of the chain |
| HeapStores.HoleReused | src/mem/kheap.c:129-157 | the stores into a reused hole give the specified chain, touch no live payload, and leave a dropped remainder where the chain ends |
| HeapStores.HoleHandsOut | src/mem/kheap.c:129-157 | what the stores into a reused hole give out: the first fit, whole or cut right behind the block |
| HeapStores.BlockAppended | src/mem/kheap.c:167-172 | the stores of a new last block give the specified chain |
| HeapStores.BlockFreed | src/mem/kheap.c:180-223 | the stores of kfree, next before previous, give the specified chain and touch headers only |
| HeapStores.WriteKeepsChain | src/mem/kheap.c:100-235 | a write into a live payload or outside the heap is seen by no header |
| HeapRuns.MallocStep | src/mem/kheap.c:100-178 | one kmalloc on the bytes of memory keeps the heap and every live payload |
| HeapRuns.FreeStep | src/mem/kheap.c:180-235 | one kfree of any pointer on the bytes of memory keeps the heap and every live payload, whatever the header past the end holds |
| HeapRuns.RunStaysValid | src/mem/kheap.c:100-235 | over any run of kmalloc, kfree of any pointer, writes into live payloads and writes outside the heap and heap_root, the walk from heap_start finds every live block in use with at least the bytes asked for, nothing live lies beyond its end, and free nodes number at most used ones plus one |
| HeapRuns.BlockIsIsolated | src/mem/kheap.c:100-235 | over any such run a block that nobody frees or writes keeps its address, size and bytes, and no other live block overlaps it |
| KHeap.KernelHeap.InitKheap | src/mem/kheap.c:237-243 | the heap starts empty 144 bytes above its root |
| KHeap.KernelHeap.Split | src/mem/kheap.c:73-86 | afterwards two nodes lie back to back where one was, the first with the given size and status, the second free, ending where the old one ended; no other byte changes |
| KHeap.KernelHeap.KMalloc | src/mem/kheap.c:100-178 | the chain in memory becomes the specified one; the result is new; live payloads and everything outside the heap keep their bytes; what the bytes past the end look like afterwards; the block is the first free node that is large enough or a new last one of exactly the size, a hole is given out with at most nine bytes in excess or cut right behind the block with a free node of at least one byte up to its old end, and only headers change |
| KHeap.KernelHeap.AllocateTwo | src/mem/kheap.c:125-165 | a second block that fits into the rest of the hole, and into no hole before it, follows the first one and its own header |
| KHeap.KernelHeap.KheapMerge | src/mem/kheap.c:180-200 | every stretch of free nodes around the current one is one free node afterwards, from the start of the first to the end of the last; only headers change |
| KHeap.KernelHeap.KFree | src/mem/kheap.c:202-235 | the chain becomes the specified one, exactly the block is no longer live, every payload keeps its bytes, and a pointer that is not live changes nothing |
| KHeap.KernelHeap.AllocateAndRelease | src/mem/kheap.c:129-223 | the same round trip on the bytes in memory |
| StringLib.MemCpyMovesIff | src/lib/string.c:24-37 | memcpy moves a buffer exactly if the destination does not start inside the source or the source repeats with the distance |
| StringLib.MemCpy | src/lib/string.c:24-37 | the loop copies byte by byte from the lowest address |
| StringLib.MemMove | src/lib/string.c:39-62 | for every overlap the destination ends up with what the source held; other live bytes, all bytes outside the heap and the set of live blocks are as before |
| Context.FrameIsStatus | include/arch/x86_64/idt/idt.h:23-49 | the pushed words, read as a cpu_status, have the interrupted registers in the fields of their names |
| Context.Processor.TakeInterrupt | src/arch/x86_64/idt/idt_stub.asm:5-35 | the processor aligns rsp to 16 and pushes ss, rsp, rflags, cs, rip and an error code if there is one |
| Context.Processor.SaveContext | src/arch/x86_64/idt/idt_stub.asm:38-56 | pushes the fifteen registers in order |
| Context.Processor.EnterRoutine | src/arch/x86_64/idt/idt_stub.asm:5-14 | at the call rdi points at the cpu_status of the interrupted code, the stack is 16-byte aligned, and nothing outside the 176 bytes changed |
| Context.Processor.RestoreContext | src/arch/x86_64/idt/idt_stub.asm:58-76 | every register gets the field of its name |
| Context.Processor.LeaveRoutine | src/arch/x86_64/idt/idt_stub.asm:15-18 | the processor becomes the one that the structure at rax describes, whatever the registers held |
| Scheduler.EachTaskOnce | src/scheluding/scheluder.c:187-188 | n calls in a row select each of n tasks exactly once and return to the first |
| Scheduler.TurnAfter | src/scheluding/scheluder.c:187-188 | after k calls the current task is number (start + k) mod n |
| Scheduler.OneTaskRuns | src/scheluding/scheluder.c:184-190 | from the (n-1)-th call on exactly the current task is RUNNING and all others are READY |
| Scheduler.FewerCallsAreNotEnough | src/scheluding/scheluder.c:184-190 | for every n, with fewer than n - 1 calls the task whose turn comes last keeps whatever status it had |
| Scheduler.RoundRobin.Schelude | src/scheluding/scheluder.c:181-196 | saves the context, moves on by one modulo n, sets the two statuses and returns the saved context of the new task |
| Multitasking.StepRefines | src/arch/x86_64/idt/idt_stub.asm:5-76 | a step of the shared machine is a step of a machine in which each task has its own processor and a tick only changes whose turn it is |
| Multitasking.RunIsAllowed | src/scheluding/scheluder.c:181-196 | over any run the invariant is kept and the turn depends on the number of ticks only |
| Multitasking.WaitingChangesNothing | src/arch/x86_64/idt/idt_stub.asm:5-76 | a task that waits keeps all its registers and every byte it relies on, over any number of ticks and any work of other tasks |
| Multitasking.PreemptedTaskResumes | src/arch/x86_64/idt/idt_stub.asm:5-76 | after n ticks the preempted task runs again with exactly the registers, rip, cs, rflags, rsp and ss it had |
| Multitasking.InterruptDispatch | src/arch/x86_64/idt/idt.c:177-283 | vectors below 0x20 stop the machine, the timer switches tasks, any other vector returns to where it came from |
| Multitasking.TimerInterrupt | src/arch/x86_64/idt/idt_stub.asm:5-19 | stub, dispatch, schelude and return together make the tick of the model |
| Multitasking.OtherInterrupt | src/arch/x86_64/idt/idt_stub.asm:5-35 | after any other vector the interrupted code goes on with exactly its registers |
| Processes.CreateProcess | src/scheluding/scheluder.c:77-115 | the new context starts at the entry point with the argument in rdi and rsp at the lowest address of a new block of 16 KiB; older blocks and everything outside the heap keep their bytes |
| Processes.FirstPushHitsTheHeader | src/scheluding/scheluder.c:101 | the first push overwrites the header of the stack block, which stays in use exactly if the top byte of the word is 1 |
| Processes.RoomInTheBlock | src/scheluding/scheluder.c:92-101 | a task that owns just its stack block has room for an interrupt exactly where 176 bytes of the block lie below rsp; at the rsp of a new task it has none |
| Console.EntryIsTwoBytes | src/drivers/vga.c:28-31 | the low byte of a cell is the character, cut to eight bits, and the high byte the colour |
| Console.TypedMeans | src/drivers/vga.c:68-101 | what each character does to the lines, the cell it reaches and the cursor |
| Console.NewLineShows | src/drivers/vga.c:52-66 | a new line moves the cursor down, or the window when the cursor is in the last row but one |
| Console.PutShows | src/drivers/vga.c:77-93 | a cell stored on the screen is the same cell of the transcript |
| Console.TextWraps | src/drivers/vga.c:88-99 | text without newlines and erase codes fills the transcript in reading order, as many characters to a line as the screen is wide |
| Console.EraseTakesBack | src/drivers/vga.c:77-86 | the erase code takes back the last character exactly if that did not fill its line |
| Console.Vga.VgaClearScreen | src/drivers/vga.c:39-50 | every cell is 0x0700, a blank in light grey on black, and the transcript is empty |
| Console.Vga.VgaScrollScreen | src/drivers/vga.c:142-154 | every row moves up by one and zeros come in |
| Console.Vga.VgaCheckIfScrollNeeded | src/drivers/vga.c:52-59 | the cursor ends in the last row but one if it was below; on a screen of one row that is row -1 |
| Console.Vga.VgaNextLine | src/drivers/vga.c:61-66 | the screen shows the transcript with a line more |
| Console.Vga.VgaWriteChar | src/drivers/vga.c:68-101 | the screen goes on showing the end of the transcript, with the cursor inside the screen, for every character: a newline begins exactly one line, the erase code blanks the cell before the cursor or at the start of a line that of the cursor, any other character is shown in its cell and colour and moves the cursor on; nothing else changes |
| Console.Vga.PutStr | src/lib/stdio.c:35-44 | for every text |
| Digits.ParseNumeral | src/lib/stdlib.c:44-69 | parsing a numeral gives the number back |
| Digits.NumeralIsUnique | src/lib/stdlib.c:44-69 | a number has only one numeral without leading zeros |
| Stdlib.StrLen | src/lib/string.c:5-11 | the length of the text before the first zero |
| Stdlib.Reverse | src/lib/stdlib.c:4-14 | reverses the text in place and nothing behind it |
| Stdlib.Itoa64 | src/lib/stdlib.c:44-69 | the buffer holds the numeral of the value and a zero, nothing behind it changed, and temp never overflows |
| Stdlib.Itoa64RoundTrip | src/lib/stdlib.c:44-69 | the text parses back to the value, has no leading zero and at most 64 digits |
| Stdlib.DigitTable | src/lib/stdlib.c:46 | the digits are those of the table |
| Stdlib.StoreDigits | src/lib/stdlib.c:27-31 | the digits from the least significant one, with division towards zero |
| Stdlib.DivisionIsExact | src/lib/stdlib.c:29-31 | quotient and remainder of signed numbers belong together and change sign with the number |
| Stdlib.MirroredText | src/lib/stdlib.c:16-42 | for a negative number in another base than 10, and for the smallest int, itoa prints for each digit d of the magnitude the character d places below '0' |
| Stdlib.Itoa | src/lib/stdlib.c:16-42 | the string holds the specified text and a zero |
| Stdlib.ItoaRoundTripIff | src/lib/stdlib.c:16-42 | the text parses back to the value exactly if the value is not negative, or the base is 10 and it is not the smallest int |
| Stdlib.PrintersAgree | src/lib/stdlib.c:4-69 | on numbers that are not negative the two printers differ in the case of letters only |

## Left out

- Bitmap.FrameBitmap.AllocatePhysicalPage: callers do not look for the result 0 that means "no free frame"; map_page, vmm_allocate and init_vmm are stated for enough free frames.
- Paging.AddressSpace.MapPage: TLB contents, accessed and dirty bits, and bits 8 to 11 and 52 to 63 of an entry are not represented.
- Paging.AddressSpace.GetPhysicalAddress: stated only where the words it reads can be read at the physical addresses of their tables, as the code would fault or read other words otherwise; likewise Paging.AddressSpace.IsPhysicalMemoryMapped and Vmm.Manager.VmmFree. Boot.TablesInReach says which tables that is after boot.
- Vmm.Manager.VmmAllocate: where a former region left the header page mapped, that page is taken to be writable RAM, as vmm_allocate_area maps it, and the ways to it and to the header before it, in a gap also to the new pages, not to lead through the two words of the new header; otherwise the stores of the header could fault, or map_page would fill the entries again.
- Vmm.Manager.VmmFree: covers regions other than vm_root, for which the code writes through a null pointer.
- Vmm.Manager.InitVmm: takes the next pointer of vm_root to be zero in the frame it lands in, as the code sets only its size.
- KHeap.KernelHeap.KMalloc: the calls of map_if_not_mapped and range_map are left out; the heap's bytes are taken to be mapped, and heap_root is held in fields.
- HeapRuns.RunStaysValid: as heap_root is held in fields, writes over its 16 bytes, 144 below the first node, are not covered.
- KHeap.KernelHeap.KFree: sums of sizes must not exceed 64 bits; this is the precondition about the header past the end.
- StringLib.MemMove: a buffer lies in one live block, below the heap and beside heap_root, or above all that one more block can take.
- Multitasking.TimerInterrupt: a tick is one atomic step; schelude executes sti before the stub switches stacks, and an interrupt in that window is not covered.
- Multitasking.StepRefines: assumes that every task owns the memory below its rsp that an interrupt needs; a task from create_process owns it only if something other than its stack block gives it that memory.
- Multitasking.InterruptDispatch: the messages of exceptions, the keyboard driver and the acknowledgements to the interrupt controller are left out.
- FromBoot.AllocateFromBoot: RAM is at most 510 GiB, and the framebuffer does not lie at the 976 MiB where the boot tables happen to show it.
- Kernel.InitMemory: the framebuffer driver's own set-up before it and the call of init_kheap at its end are left out; reserved areas come as a parameter instead of Multiboot tags.
- Processes.CreateProcess: the process_t block, the name and the count of tasks are left out.
- Scheduler.RoundRobin.Schelude: starts from populated, distinct slots; init_scheluder dereferences slots before they are set.
- Console.Vga.VgaWriteChar: x and y are the cursor, as putchar passes them; vga_resize without clearing is covered only as a new console over the same buffer.
- Stdlib.Itoa: bases 2 to 16, for which the parser is defined.
- Port and serial output, control registers, the interrupt controller, the framebuffer, the keyboard tables, hexdump, the Multiboot tags and the format-string interpreters have effects outside this model.
- convert_x86_64_vm_flags, print_pagedir, kheap_print_travel, check_allocations and translate_virtual_address only compute unused values or print.
- bitmap.c keeps row indices in an int; memories of more than 2^31 rows are not considered.
- The variant of boot.asm with 2 MiB pages, and Multiboot tags other than the framebuffer's, are not part of this model.
