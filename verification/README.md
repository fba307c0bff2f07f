# A verified model of the kernel's memory management, locking and block reads

This project models, in Dafny, the parts of the kernel that everything else rests on, and proves what they keep.

* **Physical frames** (`PmmSpec`, `PmmOrder`, `Pmm`, `Bits`): bitmaps in memory the boot loader left behind, a 256-entry
  refill stack and `first_free` hints. `PmmSpec` says which frames are clear, stacked and handed out, without hints;
  `Pmm.Allocator` works on bytes, an array and the hints and is proved to compute exactly those functions.
* **Page tables** (`PageTables`, `PageRuns`, `LowMegabyte`, `Paging`): memory is a sequence of frames of 512 words. The
  tables stay a forest of distinct frames that the pool has handed out, and what the processor's four-level walk finds
  is what the same operations leave in a finite map. `Paging.Pager` writes the words of an array in place.
* **The processor** (`Mmu`, `Words`): the bits of entries and addresses, and translation over bit positions.
* **Data** (`PageData`): what owners of frames store through the page tables. The paging code writes to no frame that
  somebody owns, so a word changes only by a store to it.
* **The kernel's address space** (`VmmSpec`, `Vmm`, `AddressSpace`): the loops of `vmm_init`, and the space they leave,
  address by address. Frames stay identity-mapped through every later run.
* **The kernel's heap** (`HeapSpec`, `HeapGrowth`, `KHeap`, `HeapHeaders`): a heap that searches a linked list and grows
  a page at a time. The search is proved to be a bump allocator, and the list of headers read through the mapped heap
  pages stays the list of blocks.
* **Locks** (`Locks`, `LockGuards`, `PmmThreads`): the compare-and-swap byte lock under any number of threads and any
  schedule, the lock sequences of the kernel's calls and what they guard, and threads that allocate and release frames
  in any interleaving.
* **Block reads and FAT16** (`Blkdev`, `BlkCache`, `FatGeometry`, `FatFormat`, `FatDir`, `FatFiles`, `FatDescs`):
  partitions, the one-block cache, the layout of a volume, directory walks, file positions and open files.
* **Number formats** (`Printers`): decimal, hexadecimal and binary.

Physical frames are named by their number, words and addresses are natural numbers, and 64-bit wrap-around is written
out with `Wrap64` wherever a register can wrap. Methods of classes are proved equal to functions on values, and the
theorems are about those functions; where a class has more than one field that counts, `Abs()` gives its value.

Several promises turn out not to hold of the code as it is. Each of these is stated as an exact condition, with an
input that fails it: releasing a frame that waits on the refill stack (`PmmSpec.FreeKeepsIff`,
`PmmSpec.StackedRelease`), running out of frames while mapping (`PageTables.MapKeepsIff`, `PageRuns.MapOnLastFrame`),
the no-execute flag in a directory entry (`PageTables.DirectoryPointerIff`, `PageTables.MapNoExecIff`; by
`PageTables.NoExecMissesTable` every table is an input), heap requests near 2^64 (`HeapSpec.FoundFitsIff` and
`HeapSpec.FoundIsNewIff`; `HeapSpec.HugeIsFound`, `HeapSpec.HugeOverlaps`), partition and read bounds that wrap
(`Blkdev.PartInsideIff` and `Blkdev.RangeCheckIff`; `Blkdev.PartMayWrap`, `Blkdev.RangeMayWrap`), the cache's "nothing
loaded" value (`BlkCache.OneBlockCheckedIff`, `BlkCache.SentinelRead`), reads across blocks that need one block more
than they ask for (`BlkCache.CrossReadExactIff`, `BlkCache.CrossReadMisses`), volumes smaller than their metadata
(`FatGeometry.AcceptedSoundIff`, `FatGeometry.TooSmallAccepted`), seeking backwards (`FatFiles.SeekMeaning`,
`FatFiles.SeekBack`), reads whose end wraps (`FatFiles.MayReadIff`, `FatFiles.ReadMayWrap`) and reads that leave a
file's first cluster (`FatFiles.ReadsFirstClusterIff`, `FatFiles.ReadsNextCluster`).

## Model

| member | source | states |
|---|---|---|
| `Bits.SetBit` | kernel/kernel/src/pmm.c:127-130 | Sets one bit of the bitmap bytes and no other. |
| `Bits.ClearBit` | kernel/kernel/src/pmm.c:112-115 | Clears one bit of the bitmap bytes and no other. |
| `Bits.BitIs` | kernel/kernel/src/pmm.c:109-112 | Page `j` has bit `j % 8`, from the least significant, of byte `j / 8`. |
| `Pmm.BitmapFits` | kernel/kernel/src/pmm.c:36-44 | For every region of at least 16 pages the reserved pages hold a bit for each managed page, are as few as hold seven bytes for eight pages, and make up, with the managed pages, exactly the whole pages of the region. |
| `Pmm.BitmapsApart` | kernel/kernel/src/pmm.c:36-44 | The frames managed in one region never meet the pages set aside for the bitmap of any region. |
| `Pmm.SpansValid` | kernel/kernel/src/pmm.c:32-45 | Managed frames of different regions never coincide, are page-aligned and are never address 0. |
| `Pmm.Allocator.Init` | kernel/kernel/src/pmm.c:27-49 | After start-up the allocator owns exactly the managed frames whose bits memory happened to hold clear, with the first 256 of them already on the stack. |
| `Pmm.Allocator.FeedStk` | kernel/kernel/src/pmm.c:121-140 | The hinted scan moves exactly the first clear frames of the whole layout to the stack, as many as there is room for, and no clear bit is left below a hint. |
| `Pmm.Allocator.MoveHint` | kernel/kernel/src/pmm.c:138-154 | The hint moves past the page it named to the next clear bit, or past the end, and no clear bit is lost below it. |
| `Pmm.Bitmap.FindFirstFree` | kernel/kernel/src/pmm.c:142-154 | Returns the first clear bit at or after `start`, or a value past the end when there is none. |
| `Pmm.Allocator.Alloc` | kernel/kernel/src/pmm.c:75-93 | Computes `PmmSpec.Alloc` on bitmaps, stack and hints. |
| `Pmm.Allocator.Free` | kernel/kernel/src/pmm.c:95-119 | Computes `PmmSpec.Free`, ignores addresses outside every region, and keeps the hints below every clear bit. |
| `PmmSpec.AllocMeaning` | kernel/kernel/src/pmm.c:80-92 | NULL exactly when no bit is clear in any bitmap and the stack is empty; otherwise one frame that nobody owned changes hands and everything else stays. |
| `PmmSpec.FreeKeepsIff` | kernel/kernel/src/pmm.c:100-116 | A release keeps every frame owned once exactly when the frame is not on the refill stack; releasing an owned frame makes one more available. |
| `PmmSpec.StackedRelease` | kernel/kernel/src/pmm.c:100-116 | A concrete release of a stacked frame, after which the frame is both clear and stacked. |
| `PmmSpec.RefillKeeps` | kernel/kernel/src/pmm.c:121-140 | A refill loses no frame and owns none twice, and stops only at a full stack or with no clear bit left. |
| `PmmSpec.RunKeeps` | kernel/kernel/src/pmm.c:75-140 | Over every run in which callers release only what they own: clear, stacked and owned frames stay disjoint, their union is unchanged and so is their count. |
| `PmmSpec.StaysLive` | kernel/kernel/src/pmm.c:75-119 | A frame a caller owns stays owned until it is released. |
| `PmmSpec.NoDoubleAlloc` | kernel/kernel/src/pmm.c:75-119 | If a run returns the same frame twice, it was released in between. |
| `PmmSpec.DrainTakesAll` | kernel/kernel/src/pmm.c:75-154 | Allocating as often as there are available frames returns each of them once, and then NULL. |
| `PmmOrder.RefillOrder` | kernel/kernel/src/pmm.c:121-140 | A refill stacks clear frames in the order of the layout until 256 are stacked or none is clear, and every frame it leaves clear comes after all of them. |
| `PmmOrder.AllocPops` | kernel/kernel/src/pmm.c:80-92 | Frames come off the stack last in, first out, after a refill when it was empty. |
| `PmmOrder.FreeInside` | kernel/kernel/src/pmm.c:100-116 | Releasing any address inside a managed frame clears the bit of that frame and changes nothing else. |
| `PmmOrder.FreeOutside` | kernel/kernel/src/pmm.c:103-110 | Releasing an address outside every region changes nothing. |
| `PageTables.EntryFacts` | kernel/arch/x86_64/src/arch/paging.c:42-51 | An entry made of an address and low flags is present, points to the address's frame and is writable as the flags say. |
| `Mmu.EntryBit` | kernel/arch/x86_64/src/arch/paging.c:50-51 | Every bit of the word written to an entry: bit 0, the bits of the flags, from bit 12 on the bits of the address, and no other. Low flags and PF_XD. |
| `PageTables.EntryBits` | kernel/arch/x86_64/src/arch/paging.c:50-51 | On page-aligned addresses, the disjunction with flags in the low twelve bits and bit 63 is the sum the model uses, less bit 63 where both have it. |
| `PageTables.PresentOr` | kernel/arch/x86_64/src/arch/paging.c:50-51 | `PF_P` or-ed to the flags adds 1 exactly where it is not set. |
| `PageTables.DirectoryPointerIff` | kernel/arch/x86_64/src/arch/paging.c:87-91 | `next_pg_dir` reads back the table it stored exactly when the flags add no address bit. |
| `PageTables.NoExecMissesTable` | kernel/arch/x86_64/src/arch/paging.c:87-91 | With bit 63 in the flags it never does. |
| `PageTables.SamePage` | kernel/arch/x86_64/src/arch/paging.c:69-78 | Two addresses share all four indices exactly when bits 12 to 47 agree. |
| `Mmu.IndexBits` | kernel/arch/x86_64/src/arch/paging.c:69-78 | The four indices are bits 39 to 47, 30 to 38, 21 to 29 and 12 to 20 of the address. |
| `PageTables.WalkFindsTables` | kernel/arch/x86_64/src/arch/paging.c:80-101 | In a table forest the processor's walk finds exactly the recorded tables. |
| `Mmu.TranslateIs` | kernel/arch/x86_64/src/arch/paging.c:80-101 | Four-level translation as the processor does it, defined over bit positions, finds what the walk finds, with the rights all levels allow. |
| `PageTables.OneParent` | kernel/arch/x86_64/src/arch/paging.c:80-92 | No table is pointed to by two entries or at two levels, and no top-level table by any. |
| `PageTables.NextDirKeeps` | kernel/arch/x86_64/src/arch/paging.c:80-92 | A directory step keeps the forest, leaves every page table's words alone, keeps old entries, gives a new one the address of its table and the flags, and takes a frame exactly when the table was missing. |
| `PageTables.MapMeaning` | kernel/arch/x86_64/src/arch/paging.c:38-52 | After `paging_map` the walk of every page of every map gives the new entry when all four indices agree and its old result otherwise; exactly the missing tables were allocated. Low flags, and PF_XD where no directory entry is made. |
| `Mmu.MapTranslates` | kernel/arch/x86_64/src/arch/paging.c:38-52 | After `paging_map` every address of the page is translated to its byte of the frame, writable and open to user mode only if the flags say so; every other address of every map is translated as before. |
| `PageTables.AtMostThree` | kernel/arch/x86_64/src/arch/paging.c:46-48 | A mapping needs at most three new tables. |
| `PageTables.UnmapMeaning` | kernel/arch/x86_64/src/arch/paging.c:54-67 | `paging_unmap` writes 0 to that page's entry, makes that page absent and no other, changes no table, and does nothing when a level is missing. |
| `PageTables.MapKeepsIff` | kernel/arch/x86_64/src/arch/paging.c:80-92 | The tables stay a forest exactly when the pool has a frame for each missing table, since the allocation is not checked. |
| `PageTables.MapNoExecIff` | kernel/arch/x86_64/src/arch/paging.c:38-52 | With no-execute in the flags the tables stay a forest exactly when every directory on the way exists already. |
| `PageTables.WalkStaysInside` | kernel/arch/x86_64/src/arch/paging.c:46-51 | From a sound forest, the tables `paging_map` reads and writes lie in memory, even when the pool runs dry on the way. |
| `PageTables.MapWritableIff` | kernel/arch/x86_64/src/arch/paging.c:46-51 | The page just mapped can be written exactly when the flags ask for it and no table already on the way forbids it. |
| `PageTables.PageWritableIff` | kernel/arch/x86_64/src/arch/paging.c:80-92 | Where all directories allow writing, a page can be written exactly when its own entry says so. |
| `PageRuns.CreateStep` | kernel/arch/x86_64/src/arch/paging.c:19-30 | `paging_create_map` makes a new map whose pages are the first megabyte, identity-mapped, from exactly four frames, and disturbs no other map. |
| `AddressSpace.CreatePages` | kernel/arch/x86_64/src/arch/paging.c:19-30 | In the tables `paging_create_map` leaves, every address below 0x100000 leads to itself by a word with bits 0 and 1, and no other address leads anywhere. |
| `AddressSpace.CreateSpaceIs` | kernel/arch/x86_64/src/arch/paging.c:19-30 | The same of the processor's translation, byte for byte. |
| `PageRuns.PagesLegalIff` | kernel/arch/x86_64/src/arch/paging.c:26-27 | A mapping loop never runs short of frames exactly when there is one for each distinct new table. |
| `PageRuns.PagesKeepIff` | kernel/arch/x86_64/src/arch/paging.c:26-27 | A mapping loop keeps the tables a forest exactly when there is a frame for each distinct new table. |
| `PageRuns.CreateKeepsIff` | kernel/arch/x86_64/src/arch/paging.c:19-30 | `paging_create_map` keeps the tables a forest exactly when four frames are left. |
| `PageRuns.MapOnLastFrame` | kernel/arch/x86_64/src/arch/paging.c:80-92 | A concrete mapping, with no frame left, that breaks the tables. |
| `PageRuns.MapNewStep` | kernel/kernel/src/vmm.c:53-57 | A page mapped to a new frame gets one that nobody owned and no table ever is. |
| `PageRuns.StepFresh` | kernel/arch/x86_64/src/arch/paging.c:80-92 | No operation makes a table of a frame somebody owned, and only a release gives up ownership. |
| `PageRuns.RunRefines` | kernel/arch/x86_64/src/arch/paging.c:19-101 | Over every run of create, map, unmap, stores by owners and other frame traffic the tables stay a forest of owned, distinct frames, and the processor sees exactly the finite map the run leaves. |
| `PageRuns.TableCount` | kernel/arch/x86_64/src/arch/paging.c:44-48 | The number of table frames is the number of paths there were plus the distinct prefixes mapped since; unmapping never lowers it. |
| `PageRuns.StartOk` | kernel/arch/x86_64/src/arch/paging.c:19-30 | Before any map exists the invariant holds with an empty map. |
| `PageRuns.PageStays` | kernel/arch/x86_64/src/arch/paging.c:38-67 | A writable page stays mapped to its frame, and writable, through every run that does not touch it. |
| `PageData.DataStays` | kernel/arch/x86_64/src/arch/paging.c:38-92 | Whatever a run creates, maps, unmaps, allocates, releases and stores elsewhere, a word of a frame somebody owns changes only by a store to that word. |
| `PageData.LoadAfterStore` | kernel/arch/x86_64/src/arch/paging.c:94-101 | A load through the map finds the word just stored, and every other word as it was. |
| `Mmu.LoadTranslates` | kernel/arch/x86_64/src/arch/paging.c:94-101 | The loads of `PageData` read the word at the address the processor translates to. |
| `PageData.LoadStays` | kernel/arch/x86_64/src/arch/paging.c:38-92 | What is loaded from a page of owned data stays the same through every run that leaves page and word alone. |
| `LowMegabyte.LowLoopInside` | kernel/arch/x86_64/src/arch/paging.c:19-30 | The loop of `paging_create_map` reads and writes only memory, however many frames are left. |
| `Paging.Pager.NextPgDir` | kernel/arch/x86_64/src/arch/paging.c:80-92 | Computes `PageTables.NextDir` on words of memory, allocating and clearing a table when the entry is absent. |
| `Paging.Pager.SomeNextPgDir` | kernel/arch/x86_64/src/arch/paging.c:94-101 | Follows a present entry, and gives null for a null table or an absent entry. |
| `Paging.Pager.Map` | kernel/arch/x86_64/src/arch/paging.c:38-52 | Computes `PageTables.Map` in place, whatever the pool holds, wherever the tables it walks are in memory. |
| `Paging.Pager.Unmap` | kernel/arch/x86_64/src/arch/paging.c:54-67 | Computes `PageTables.Unmap` in place and keeps the invariant. |
| `Paging.Pager.MapConsecutive` | kernel/kernel/src/vmm.c:35-50 | A loop over consecutive pages maps each of them in turn, whatever the pool holds, wherever the tables it walks are in memory. |
| `Paging.Pager.CreateMap` | kernel/arch/x86_64/src/arch/paging.c:19-30 | Computes `PageRuns.CreateMap` in place, however many frames are left. |
| `VmmSpec.FlagsLowIff` | kernel/kernel/src/vmm.c:81-92 | The flags `vmm_map` passes on are low bits exactly without no-execute, and ask for writing exactly when the caller does. |
| `AddressSpace.FlagBits` | kernel/kernel/src/vmm.c:81-92 | `vmm_map` passes on P always, R/W, PCD and XD as it is asked, and no other bit. |
| `VmmSpec.PagesApart` | kernel/arch/x86_64/src/arch/paging.c:69-78 | For canonical addresses, pages are the same exactly when the page numbers are. |
| `VmmSpec.BootMaps` | kernel/kernel/src/vmm.c:26-57 | After `vmm_init` every page of usable memory is identity-mapped and writable, kernel pages lead to the kernel image, and the eight stack pages to distinct frames that hold no table. |
| `AddressSpace.KernelIsMapped` | kernel/kernel/src/vmm.c:34-40 | Every byte of the kernel image, wherever the boot loader put it, lies in a page that leads, writable, to its physical page. |
| `AddressSpace.BootSpaceIs` | kernel/kernel/src/vmm.c:26-57 | The whole address space after `vmm_init`, byte by byte: usable memory and the first megabyte at themselves, a page-aligned kernel image where the boot loader put it, 32 KiB of stack on eight frames of its own, all of it writable and closed to user mode; and no other address is mapped. |
| `VmmSpec.BootBudget` | kernel/kernel/src/vmm.c:31-57 | `vmm_init` never runs short of frames exactly when the allocator has one for the root, one for each distinct table below it and one for each stack page. |
| `VmmSpec.FramesStayMapped` | kernel/kernel/src/vmm.c:43-50 | Every frame the allocator can ever hand out stays identity-mapped and writable at all levels through every later run outside the low half. |
| `VmmSpec.TablesStayMapped` | kernel/kernel/src/vmm.c:43-50 | So does every page table: the physical pointers that later calls of `paging_map` dereference stay valid. |
| `VmmSpec.LegalBootInside` | kernel/kernel/src/vmm.c:31-57 | With the frames it needs, `vmm_init` walks only tables in memory and leaves the tables sound. |
| `Vmm.MapNewPage` | kernel/kernel/src/vmm.c:53-57 | Allocates a frame and maps it, as one step of the run model, whatever the pool holds, wherever the tables walked are in memory. |
| `Vmm.TryMapNewPage` | kernel/kernel/src/kheap.c:75-83 | The same with the check for NULL: nothing changes when there is no frame, and a page without frames for its tables is the step of the model too. |
| `Vmm.MapUsable` | kernel/kernel/src/vmm.c:43-50 | Maps the usable regions one after the other, whatever the pool holds, wherever the tables walked are in memory. |
| `Vmm.VmmInit` | kernel/kernel/src/vmm.c:26-57 | Computes `VmmSpec.VmmInit` in place: low megabyte, kernel, usable memory, stack, whatever the pool holds, wherever the tables walked are in memory. |
| `HeapSpec.FindFromIsBump` | kernel/kernel/src/kheap.c:117-149 | For a request that wraps no register, the quadratic search finds the place right above the last block, or nothing. |
| `HeapSpec.FoundFitsIff` | kernel/kernel/src/kheap.c:117-149 | A block the search returns lies in the mapped pages exactly when the request does not wrap at the top of the heap. |
| `HeapSpec.FoundIsNewIff` | kernel/kernel/src/kheap.c:117-149 | The search hands out the address of a block in use exactly when the last block's address plus the request wraps a register that the request alone fits; otherwise what it finds is the place above the last block. |
| `HeapSpec.RequestBound` | kernel/kernel/src/kheap.c:117-149 | What a caller can check: a request up to `MAX_REQUEST` wraps in no heap. |
| `HeapSpec.HugeIsFound` | kernel/kernel/src/kheap.c:117-149 | A concrete request of almost 2^64 bytes that the initial heap satisfies. |
| `HeapSpec.HugeOverlaps` | kernel/kernel/src/kheap.c:117-149 | The same request on a heap with one block is given that block. |
| `HeapSpec.BlocksDisjoint` | kernel/kernel/src/kheap.c:117-149 | In a bump heap headers and data never overlap, blocks are 16-aligned, ascending and inside the mapped pages. |
| `HeapSpec.BlockPlaces` | kernel/kernel/src/kheap.c:135-149 | Each header of 16 bytes lies at the first multiple of 16 above the end of the block before it, between 0xfffffbbb00000000 and the end of the mapped pages. |
| `HeapSpec.FitsIff` | kernel/kernel/src/kheap.c:122-123 | A block fits exactly when the heap has the pages it needs, so one page fewer would not do. |
| `HeapGrowth.InitOk` | kernel/kernel/src/kheap.c:28-51 | `kheap_init` gives a heap of one page with a dummy block. |
| `HeapGrowth.FourFramesSuffice` | kernel/kernel/src/kheap.c:75-82 | A heap page and its tables never take more than four frames. |
| `HeapGrowth.GrowMeaning` | kernel/kernel/src/kheap.c:71-98 | While every page has frames for its tables, the growth loop stops at the first page count that holds the block, or at the page limit, or when no frame is left; otherwise it leaves the tables broken. |
| `HeapGrowth.AllocMeaning` | kernel/kernel/src/kheap.c:53-103 | Every request. One that wraps no register and whose pages can be paid for: a block right above the last one and no page more than needed, or NULL when the heap is at its limit and too small or no frame is left. One whose pages cannot be paid for: the tables are left broken. One that wraps: NULL, or a block past the end of the heap. |
| `HeapGrowth.OutcomePlace` | kernel/kernel/src/kheap.c:53-103 | Such a block by address: data 16 bytes behind the first multiple of 16 above the last block, inside the mapped pages, the last of which was needed. |
| `HeapGrowth.OutcomeNull` | kernel/kernel/src/kheap.c:71-102 | It returns NULL only when all 0x40000 pages are mapped or no frame is left, and the pages mapped do not hold the block. |
| `HeapGrowth.AllocKeepsIff` | kernel/kernel/src/kheap.c:53-103 | For a request that does not wrap, `kheap_alloc` leaves heap and tables sound exactly when it maps no page whose tables the pool cannot pay for. |
| `HeapGrowth.AllocBudget` | kernel/kernel/src/kheap.c:71-98 | The same as a count: the frames left cover the pages wanted and their distinct new tables, or run out exactly on a page. |
| `HeapGrowth.HeapRunKeeps` | kernel/kernel/src/kheap.c:53-103 | Over every run of allocations and other kernel activity the heap stays a bump heap on frames of its own, and blocks and pages are never given up. |
| `HeapGrowth.AllocationsApart` | kernel/kernel/src/kheap.c:53-103 | Two allocations of a run never overlap, whatever happens in between. |
| `HeapGrowth.HeapPageMapped` | kernel/kernel/src/kheap.c:75-83 | The processor finds every heap page at its own frame, writable. |
| `AddressSpace.HeapFound` | kernel/kernel/src/kheap.c:75-83 | Every byte of the heap is translated to a frame of its own, writable and closed to user mode. |
| `HeapGrowth.HeapRunIsRun` | kernel/kernel/src/kheap.c:71-98 | What heap calls do to memory is a legal run of page mappings outside the low half. |
| `HeapGrowth.IdentityMapStays` | kernel/kernel/src/kheap.c:75-83 | From `vmm_init` through `kheap_init` and all later heap growth every frame the allocator can hand out stays mapped to itself and writable. |
| `KHeap.KernelHeap.Init` | kernel/kernel/src/kheap.c:28-51 | Computes `HeapGrowth.Init` in place, whatever the pool holds; returns 1 and changes nothing without a frame. |
| `KHeap.KernelHeap.IsFree` | kernel/kernel/src/kheap.c:117-133 | Walks the list and decides `HeapSpec.IsFree`, in 64-bit arithmetic. |
| `KHeap.KernelHeap.FindFree` | kernel/kernel/src/kheap.c:135-149 | Walks the list and computes `HeapSpec.FindFree`. |
| `KHeap.KernelHeap.Alloc` | kernel/kernel/src/kheap.c:53-103 | Computes `HeapGrowth.HeapAlloc` on linked headers and real page tables, whatever the pool holds and for every request that is not given a block in use. |
| `HeapHeaders.InitHeaders` | kernel/kernel/src/kheap.c:40-48 | After `kheap_init` the dummy header is in the first heap page. |
| `HeapHeaders.AllocKeepsHeaders` | kernel/kernel/src/kheap.c:57-69 | The header an allocation writes and the link from the tail, stored through the heap's own pages, keep the list in memory in step with the blocks. |
| `HeapHeaders.HeadersStay` | kernel/kernel/src/kheap.c:53-103 | Over every run of allocations and of mapping, allocating, releasing and storing by others, the list read through the page tables stays the list of blocks. |
| `Locks.StepKeeps` | kernel/arch/x86_64/src/arch/aatomic.S:5-20 | Every step, successful or not, keeps each byte equal to the number of threads that hold its lock. |
| `Locks.MutualExclusion` | kernel/arch/x86_64/src/arch/aatomic.S:5-20 | In every reachable state of any number of threads the byte is 1 exactly when one thread holds the lock and 0 exactly when none does. |
| `Locks.ReleaseAtOnce` | kernel/arch/x86_64/src/arch/aatomic.S:14-20 | A holder's release succeeds at the first try. |
| `Locks.DriverExclusive` | kernel/kernel/src/blkdev.c:203-221 | Driver calls under one mutex never overlap. |
| `Locks.DeadlockFree` | kernel/kernel/src/katomic.c:7-21 | With locks taken in ascending rank, while a thread is unfinished some thread's next compare-and-swap succeeds. |
| `Locks.CanFinish` | kernel/kernel/src/katomic.c:7-21 | From every reachable state all threads can finish, in as many steps as there are acts left. |
| `Locks.SuccessesBounded` | kernel/kernel/src/katomic.c:7-21 | Under every schedule the number of successful steps is exactly the number of acts done. |
| `Locks.PrintNests` | kernel/kernel/src/kutil.c:50-139 | Printing takes the serial lock inside the print lock and again after it, and leaves held locks as they were. |
| `Locks.PmmNests` | kernel/kernel/src/pmm.c:75-119 | Frame allocation and release take their lock above all outer ones, and print only under it. |
| `Locks.HeapNests` | kernel/kernel/src/kheap.c:53-103 | Heap allocation takes the frame allocator's lock inside its own on every path. |
| `Locks.AtaNests` | kernel/kernel/src/ata_pio.c:176-237 | Every way out of a disk read gives back the driver's lock. |
| `Locks.RdNests` | kernel/kernel/src/blkdev.c:200-222 | A device read calls the driver only under the device's mutex and gives it back on every path. |
| `Locks.CacheNests` | kernel/kernel/src/blk_cache.c:23-65 | A cached read nests heap and device locks inside its own on every path. |
| `Locks.PartNests` | kernel/kernel/src/blkdev.c:122-169 | Partitioning gives back the mutex on every path. |
| `Locks.CallNests` | kernel/kernel/src/katomic.c:7-21 | Every modelled kernel call takes locks upwards in one ranking and leaves held locks as they were. |
| `LockGuards.PrintGuarded` | kernel/kernel/src/kutil.c:50-139 | A line is printed under the print lock, from taking to giving back, up to its end, which is written under the serial lock alone. |
| `LockGuards.PmmGuarded` | kernel/kernel/src/pmm.c:75-119 | Everything `pmm_alloc` and `pmm_free` do is between taking and giving back the frame lock. |
| `LockGuards.HeapGuarded` | kernel/kernel/src/kheap.c:53-103 | Everything `kheap_alloc` does is between taking and giving back the heap lock, on every path. |
| `LockGuards.AtaGuarded` | kernel/kernel/src/ata_pio.c:194-235 | A disk read works between taking and giving back the driver's lock. |
| `LockGuards.RdGuarded` | kernel/kernel/src/blkdev.c:200-222 | Range check and driver call are between taking and giving back the device's mutex. |
| `LockGuards.PartGuarded` | kernel/kernel/src/blkdev.c:130-169 | Partitioning a device that is no partition is between taking and giving back its mutex. |
| `LockGuards.CacheGuarded` | kernel/kernel/src/blk_cache.c:29-64 | A cached read of at least one byte is between taking and giving back the cache's lock, on every path. |
| `LockGuards.DriverInside` | kernel/kernel/src/blkdev.c:207-221 | The driver is called between taking the mutex and giving it back, exactly when the range is right. |
| `LockGuards.CallGuarded` | kernel/kernel/src/katomic.c:7-21 | Which lock guards each modelled call from beginning to end. |
| `LockGuards.CallInProgram` | kernel/kernel/src/katomic.c:7-21 | Every call of a thread is part of what the thread does, in its place. |
| `LockGuards.StartFollows` | kernel/kernel/src/katomic.c:7-21 | Threads start at the beginning of their calls, with every lock byte 0. |
| `LockGuards.GuardedApart` | kernel/kernel/src/katomic.c:7-21 | Any number of threads, any calls, any schedule: only one thread at a time is inside a call, or a call within a call, that is guarded by a lock. |
| `LockGuards.HeapCallsApart` | kernel/kernel/src/kheap.c:53-103 | No two threads are inside `kheap_alloc` at once. |
| `LockGuards.PrintTakes` | kernel/kernel/src/kutil.c:50-139 | A line of `k` pieces takes the print lock once and the serial lock `k + 1` times. |
| `LockGuards.HeapTakes` | kernel/kernel/src/kheap.c:53-103 | `kheap_alloc` takes its lock once and the frame lock once for each frame it asks for. |
| `LockGuards.RdTakes` | kernel/kernel/src/blkdev.c:200-222 | A device read takes its mutex once, and the drive's lock once exactly when the driver gets to the drive. |
| `LockGuards.CacheTakes` | kernel/kernel/src/blk_cache.c:23-65 | A cached read takes its lock once, the device's mutex unless it hits, and the heap's lock exactly when it goes across blocks. |
| `LockGuards.CacheLines` | kernel/kernel/src/blk_cache.c:23-65 | A cached read prints the lines of the calls it makes and one more when the device read failed. |
| `LockGuards.CallLines` | kernel/kernel/src/katomic.c:7-21 | How many lines every modelled call prints. |
| `Locks.KernelNeverDeadlocks` | kernel/kernel/src/katomic.c:7-21 | Any number of threads running any series of these calls never deadlock under any schedule and can always finish. |
| `Locks.DiskCallsTakeTurns` | kernel/kernel/src/blkdev.c:130-161 | Driver calls on a disk and on any of its partitions, the same or different ones, never overlap, whichever threads make them. |
| `PmmThreads.CallsMakeARun` | kernel/kernel/src/pmm.c:75-119 | Any number of threads, any calls of `pmm_alloc` and `pmm_free`, any interleaving of their steps: the calls make a legal run of the sequential allocator, and each returns what it returns there. |
| `PmmThreads.FramesApart` | kernel/kernel/src/pmm.c:75-119 | No two threads ever own the same frame. |
| `PmmThreads.WorkUnderLock` | kernel/kernel/src/pmm.c:75-119 | Whoever is between entering and leaving a call holds the frame lock, alone. |
| `PmmThreads.ActsOfCall` | kernel/kernel/src/pmm.c:75-119 | The lock acts of those calls are the ones of `Locks.PmmAlloc` and `Locks.PmmFree`. |
| `PmmThreads.AllocAlone` | kernel/kernel/src/pmm.c:75-93 | Undisturbed, the steps of `pmm_alloc` hand the thread the allocator's next frame and give back the lock. |
| `PmmThreads.FreeAlone` | kernel/kernel/src/pmm.c:95-119 | Undisturbed, the steps of `pmm_free` release the frame once and give back the lock. |
| `PmmThreads.FailAlone` | kernel/kernel/src/pmm.c:84-88 | With no frame left, `pmm_alloc` changes nothing and prints under the lock. |
| `Blkdev.OneMutex` | kernel/kernel/src/blkdev.c:130-161 | Reads of a disk and of its partitions, and partitioning it, take one mutex: the disk's own, or its parent's when it depends on it. |
| `Blkdev.PartAcceptedIff` | kernel/kernel/src/blkdev.c:124-146 | A partition is accepted exactly when the device is none itself, has fewer than 32, and `base + limit` is in range or wraps into it. |
| `Blkdev.PartInsideIff` | kernel/kernel/src/blkdev.c:142-146 | An accepted partition lies inside its disk exactly when `base + limit` does not wrap. |
| `Blkdev.PartMayWrap` | kernel/kernel/src/blkdev.c:142-146 | A concrete partition that is accepted although it starts past the end of its disk. |
| `Blkdev.Blkdev.MkPart` | kernel/kernel/src/blkdev.c:122-169 | Appends the partition, of the range asked for and with the disk's block size and flag, exactly when the device is no partition, has a slot left and the range check passes; otherwise changes nothing. |
| `Blkdev.PartOnDisk` | kernel/kernel/src/blkdev.c:215-216 | A partition's bytes are its disk's bytes, `base` blocks further on, inside the disk. |
| `Blkdev.PartRd` | kernel/kernel/src/blkdev.c:200-222 | A partition is read like a disk of `limit` blocks whose block `src` is the disk's block `base + src`, and refuses everything beyond. |
| `Blkdev.RdMeaning` | kernel/kernel/src/blkdev.c:200-222 | A device read delivers exactly its slice of the device and is refused exactly when it leaves it, unless its end wraps: then it is refused exactly when the wrapped end leaves the device. |
| `Blkdev.RangeCheckIff` | kernel/kernel/src/blkdev.c:209-213 | A range that passes the check lies in the device exactly when `src + n` does not wrap. |
| `Blkdev.RangeMayWrap` | kernel/kernel/src/blkdev.c:209-213 | A concrete range that passes the check and starts past the end of the device. |
| `Blkdev.RdInto` | kernel/kernel/src/blkdev.c:200-222 | Fills the buffer with what the driver delivers and touches no byte after it; leaves the buffer alone on failure. |
| `BlkCache.OneBlockRead` | kernel/kernel/src/blk_cache.c:53-64 | A read inside one block returns the disk's bytes and keeps the cache right; out of range it fails with the cache unchanged, except on the "nothing loaded" block, where it succeeds with the buffer's garbage. |
| `BlkCache.OneBlockCheckedIff` | kernel/kernel/src/blk_cache.c:53-60 | Reads inside one block succeed exactly in range, except exactly for block `nblk` while nothing is loaded. |
| `BlkCache.SentinelRead` | kernel/kernel/src/blk_cache.c:12 | A concrete read past the device that succeeds on a fresh cache. |
| `BlkCache.BlocksNeeded` | kernel/kernel/src/blk_cache.c:33-39 | A read across blocks needs the blocks it asks for or exactly one more, and which of the two is decided by where it ends. |
| `BlkCache.CrossRead` | kernel/kernel/src/blk_cache.c:38-51 | A read across blocks returns the disk's bytes as far as the blocks asked for go and then what follows the scratch buffer; it never touches the cache. |
| `BlkCache.CrossReadExactIff` | kernel/kernel/src/blk_cache.c:38-51 | It returns the disk's bytes whatever follows the scratch buffer exactly when it ends inside the blocks asked for. |
| `BlkCache.CrossReadMisses` | kernel/kernel/src/blk_cache.c:38-51 | A concrete two-byte read across the first boundary whose second byte is not the device's. |
| `BlkCache.CrossCheckedIff` | kernel/kernel/src/blk_cache.c:38-45 | It succeeds exactly in range, unless it needs one block more than it asks for and that block is the first past the device. |
| `BlkCache.ReadKeeps` | kernel/kernel/src/blk_cache.c:23-65 | No read, failed or not, leaves a wrong block in the cache, and a read of no bytes succeeds and changes nothing. |
| `BlkCache.AfterReads` | kernel/kernel/src/blk_cache.c:23-65 | The cache is right after every series of reads. |
| `BlkCache.CacheAgrees` | kernel/kernel/src/blk_cache.c:23-65 | After any series of reads, a read covered by the blocks it asks for returns the device's bytes. |
| `BlkCache.PartitionCacheAgrees` | kernel/kernel/src/blk_cache.c:23-65 | The same through a partition: the bytes are the disk's, `base` blocks further on. |
| `BlkCache.BlockCache.Read` | kernel/kernel/src/blk_cache.c:23-65 | Computes `BlkCache.CacheRead` on the buffer and the caller's array, and writes nothing past the bytes asked for. |
| `FatGeometry.Verify` | kernel/kernel/src/fat.c:53-90 | Returns 0 exactly for the volumes whose boot sector passes all checks, and divides by zero exactly for a boot sector with cluster size 0 that passes the checks before. |
| `FatGeometry.AcceptedIff` | kernel/kernel/src/fat.c:66-89 | A volume is taken exactly for the signature, 512-byte sectors, a FAT16 layout, and a size that leaves room for 4085 clusters behind the metadata, or not even for the metadata. |
| `FatFormat.ParseLaidOut` | kernel/kernel/src/fat.c:8-23 | Reading a boot sector gives the little-endian values of the fields of the packed `struct bpb` it is laid out from, and the signature. |
| `FatFormat.DividesOnLaidOut` | kernel/kernel/src/fat.c:66-79 | For which boot sectors, field by field, `fat_verify` divides by zero. |
| `FatGeometry.AcceptedSoundIff` | kernel/kernel/src/fat.c:76-89 | The layout of an accepted volume is sound exactly when its metadata fits it. |
| `FatGeometry.TooSmallAccepted` | kernel/kernel/src/fat.c:76-89 | A concrete one-sector volume that is accepted. |
| `FatGeometry.AreasTile` | kernel/kernel/src/fat.c:108-123 | Reserved sectors, FATs, root directory, clusters 2 to `cluster_cnt + 1` and less than a cluster of leftover tile the volume: every sector lies in exactly one. |
| `FatGeometry.AreaSizes` | kernel/kernel/src/fat.c:108-123 | The areas have the numbers of sectors the boot sector gives, and the root directory as many as hold its entries. |
| `FatGeometry.RootPosition` | kernel/kernel/src/fat.c:146-150 | The root directory starts where its area starts, entry-aligned, and its area holds its entries with less than a sector to spare. |
| `FatGeometry.ClusterPosition` | kernel/kernel/src/fat.c:505-510 | A cluster's position is its first byte, its sector is its own, and the cluster ends inside the volume. |
| `FatGeometry.ClusterPositionIff` | kernel/kernel/src/fat.c:505-510 | The position computed for a 16-bit cluster number lies in the clusters exactly for 2 to `cluster_cnt + 1`. |
| `FatDir.FindMeaning` | kernel/kernel/src/fat.c:293-328 | The search looks at the standard entries before the end marker once each, in order, up to the first that matches, and returns where its group starts; nothing exactly when none matches. |
| `FatDir.GroupBytes` | kernel/kernel/src/fat.c:241-328 | What is compared with the name is every byte from the first entry of the group through its standard entry. |
| `FatDir.StandardsNext` | kernel/kernel/src/fat.c:209-239 | Skipping deleted and long-name entries reaches the next standard entry and leaves exactly the others for later. |
| `FatDir.ReadEntry` | kernel/kernel/src/fat.c:160-164 | The 32 bytes read through the cache are the volume's entry, and the read succeeds. |
| `FatFormat.KindLaidOut` | kernel/kernel/src/fat.c:25-35 | How a packed `struct dirent_std` is told to be the end, deleted, part of a long name, or an entry. |
| `FatDir.SkipToStandard` | kernel/kernel/src/fat.c:209-239 | Stops at the next standard entry or at the end marker. |
| `FatDir.NextDe` | kernel/kernel/src/fat.c:152-200 | Returns the position behind the next standard entry, or 0 at the end marker, although its second loop rereads the entry the first one stopped at. |
| `FatDir.FindDirent` | kernel/kernel/src/fat.c:293-328 | Terminates, computes `FatDir.Find` through the cache, looks at exactly the entries of `FatDir.Visits`, returns 32 times the number of the group's first entry, and 0 exactly when none matches, unless the search starts at position 0. |
| `FatFiles.SeekMeaning` | kernel/kernel/src/fat.c:445-471 | Seeking goes to the clamped target exactly except backwards from a current position above 0, which lands at the end of the file. |
| `FatFiles.SeekBack` | kernel/kernel/src/fat.c:454-458 | A concrete step back by one byte that lands at the end of the file. |
| `FatFiles.OpenMeaning` | kernel/kernel/src/fat.c:395-419 | Opening takes the lowest free slot, fails exactly for directories, writing to read-only files or no free slot, and alters no open descriptor. |
| `FatDescs.CloseMeaning` | kernel/kernel/src/fat.c:422-435 | A closed file is not open, has size 0, passes no read, and every other descriptor is as it was. |
| `FatDescs.ReopenMeaning` | kernel/kernel/src/fat.c:395-435 | After a close the next open of a readable file succeeds, with the ID closed or a lower one. |
| `FatDescs.FullAt128` | kernel/kernel/src/fat.c:514-529 | An open that nothing else forbids fails exactly when all 128 descriptors are open. |
| `FatDescs.SameSlot` | kernel/kernel/src/fat.c:395-435 | With no lower slot free, it is the ID closed. |
| `FatDescs.OpenFiles` | kernel/kernel/src/fat.c:387-435 | Over every run a file ID is open exactly when it was opened and not closed since. |
| `FatFiles.Run` | kernel/kernel/src/fat.c:405-496 | Over every run of open, seek, read and close each position stays within its file. |
| `FatFiles.OpenFilesApart` | kernel/kernel/src/fat.c:405-496 | An open file is not disturbed by anything done to other files. |
| `FatFiles.MayReadIff` | kernel/kernel/src/fat.c:479-487 | A read that passes the checks lies in the file exactly when `file_pos + n` does not wrap. |
| `FatFiles.ReadMayWrap` | kernel/kernel/src/fat.c:479-487 | A concrete read far past the end of the file that the checks let through. |
| `FatFiles.EndRefuses` | kernel/kernel/src/fat.c:479-482 | At the end of a file every read is refused, also of no byte. |
| `FatFiles.ReadAgrees` | kernel/kernel/src/fat.c:489-495 | On a sound volume, inside a file's first cluster and for reads the blocks asked for cover: the read succeeds exactly when it ends inside the file, and then returns the bytes of the file's first cluster from the file's position on. |
| `FatFiles.FileReadIff` | kernel/kernel/src/fat.c:473-496 | A read inside a file on a sound volume delivers bytes of the file's first cluster, whatever follows the scratch buffer, exactly when the blocks asked for cover it and it ends in that cluster. |
| `FatFiles.ReadsFirstClusterIff` | kernel/kernel/src/fat.c:489-490 | What is read are bytes of the file's first cluster exactly when the read ends inside it. |
| `FatFiles.ReadsNextCluster` | kernel/kernel/src/fat.c:489-490 | On a concrete accepted volume, the second sector of a file is read from the cluster behind its first. |
| `FatFiles.FatDriver.FindSlot` | kernel/kernel/src/fat.c:518-529 | Finds the lowest slot that is not open. |
| `FatFiles.FatDriver.OpenFile` | kernel/kernel/src/fat.c:395-420 | Computes `FatFiles.Open` on the descriptor array. |
| `FatFiles.FatDriver.CloseFile` | kernel/kernel/src/fat.c:422-435 | Resets one descriptor, which then is not open, and no other. |
| `FatFiles.FatDriver.SeekFile` | kernel/kernel/src/fat.c:445-471 | Moves one descriptor's position and nothing else. |
| `FatFiles.FatDriver.ReadFile` | kernel/kernel/src/fat.c:473-496 | Reads through the cache at the file's position after the two checks, and moves no position. |
| `Printers.NumeralUnique` | kernel/kernel/src/kutil.c:170-249 | A number has one numeral without leading zeros, so the formats below are determined by decoding to `n`. |
| `Printers.DecodeDigits` | kernel/kernel/src/kutil.c:196-197 | The last `k` digits of a number read back as the number modulo the base to the `k`. |
| `Printers.DigitChars` | kernel/kernel/src/kutil.c:173 | The digits are 0 to 9 and a to f, worth 0 to 15. |
| `Printers.WidthBits` | kernel/kernel/src/kutil.c:172-180 | The modifiers Q, D, W and B ask for 64, 32, 16 and 8 bits in either base. |
| `Printers.FmtU` | kernel/kernel/src/kutil.c:232-249 | For every 64-bit number: decimal digits without leading zero that decode to it, at most 20. |
| `Printers.FmtX` | kernel/kernel/src/kutil.c:170-200 | The same in hexadecimal, at most 16 digits; with a width exactly that many digits, decoding to the number modulo that width. |
| `Printers.FmtB` | kernel/kernel/src/kutil.c:202-230 | The same in binary, at most 64 digits. |

## Left out

- PageTables.MapNoExecIff: for memory below 2^63, so that bit 63 leads outside it.
- Vmm.VmmInit: takes as given that the tables its loops walk are in memory, which `VmmSpec.LegalBootInside` shows when the frames that `VmmSpec.BootBudget` counts are there; short of them, frame 0 becomes a table whose entries the later loops follow. It ends before the switch to the new map.
- AddressSpace.BootSpaceIs: for managed memory below 2^52, where entries can point, and canonical addresses.
- Pmm.Allocator.Init: takes the boot loader's facts as given: entries page-aligned, disjoint, of at least 16 pages, ending below 2^64. Bitmap bytes are arrays of their own, which `Pmm.BitmapFits` and `Pmm.BitmapsApart` show never reach a managed frame.
- KHeap.KernelHeap.Alloc: excludes exactly the requests that `HeapSpec.FoundIsNewIff` shows are given a block in use, where the list of headers becomes a cycle or loses its end, and heaps that such a request or one past the end of the heap has left behind. The class keeps headers by address; `HeapHeaders` has them in memory, on values.
- BlkCache.BlockCache.Read: a driver that succeeds (`blkdev_rd` drops its result), a heap with room for the scratch buffer, and no wrap in `addr + n`.
- FatFiles.FatDriver.ReadFile: a read that passes the checks only because its end wraps (`FatFiles.MayReadIff`) is left out where the cache's own sums would wrap.
- FatDir.FindDirent: the comparison of names is a predicate on the bytes that hold the name; long-name assembly, dates and times, and directories without an end marker are not modelled.
- FatFiles.FatDriver.OpenFile: starts from what the path walk found; splitting the path is not modelled.
- Hint overflow: a `first_free` hint advances past the end of a full bitmap by one at each refill and is kept as an unbounded number.
- Mutexes inside the sequential models of heap, cache and devices: `Locks` treats them separately, and `PmmThreads` joins lock and pool for the frame allocator only. Interrupts that re-enter a lock on the same processor are not modelled.
- TLB invalidation, CR3 and the switch to the new stack; Limine responses and `meml_init`'s filter enter as preconditions.
- ATA data transfer and drive selection, port, serial, RTC and PIC access: only their lock use is modelled, and the driver is a correct multi-block read.
- `pmm_avl`, the VFS layer, format-string dispatch, GDT, IDT, syscalls and the functions with empty bodies (freeing heap memory, destroying maps, writes).
