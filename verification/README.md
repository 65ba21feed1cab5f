# Verified models of the FlowOS kernel

FlowOS is a small 32-bit kernel. This project models its kernel heap, physical page allocator, page tables, ELF loader,
FAT32 reader, scheduler and timer, context switch and keyboard ring in Dafny, and proves what these parts promise over
every input, every run or every interleaving.

Each part comes in two layers. A `...Spec` module defines the behaviour as functions on plain values (a list of blocks, a
set of free pages, a queue of slots) and proves properties of whole runs. A second module holds the code itself: classes
and loops that work in place on memory, bitmaps, page tables and linked lists, each method proved to compute the
specification function. Machine words are natural numbers below 2^32 and wrap around where the C code does.

| file | models |
|---|---|
| `HeapSpec.dfy`, `Heap.dfy` | `src/heap.c`; block headers live as words inside the managed memory |
| `Bits.dfy`, `PmmSpec.dfy`, `Pmm.dfy` | `src/pmm.c`; the bitmap is an array of 32-bit vectors |
| `Memory.dfy`, `PagingSpec.dfy`, `Permissions.dfy`, `Mmu.dfy`, `Paging.dfy` | `src/paging.c`; directories and tables live in byte-addressed memory, and are reached through the translation they define; write and user rights as the hardware derives them |
| `ElfSpec.dfy`, `ElfRights.dfy`, `Loader.dfy`, `Elf.dfy` | the loading part of `elf_exec` in `src/elf.c`, on top of paging, pages and files |
| `Fat32Spec.dfy`, `Fat32Image.dfy`, `Fat32.dfy` | `src/fat32.c`; the disk is a function from sector numbers to sectors or errors, and what is on it is described byte by byte |
| `SchedSpec.dfy`, `SchedOrder.dfy`, `Sched.dfy` | `src/process.c` and `src/timer.c` |
| `Switch.dfy` | `context_switch` in `src/switch.asm`, and the stack frames `process_create` prepares |
| `ProcessHeap.dfy` | the `kfree` in the failing path of `process_create` |
| `Kernel.dfy` | scheduler, heap-allocated stacks and context switch together, in one memory everybody sees alike |
| `Virtual.dfy` | `context_switch` as `schedule` calls it, through the page tables of the next process |
| `Spaces.dfy` | the kernel of `Kernel.dfy` with a directory for every process and physical memory behind the tables |
| `Growth.dfy` | heap growth as other address spaces see it, and the bound it has to keep |
| `Start.dfy` | what `kmain` in `src/kernel.c` does to the page tables before the first process |
| `Keyboard.dfy` | `src/keyboard.c`, the handler interrupting the reader between any two loads or stores |

Main results: `Heap.Heap.Kmalloc`, `HeapSpec.RunTiles`, `HeapSpec.RunThenFreeAll` and `Heap.Heap.FreeTwice` for the heap;
`PmmSpec.RunConserves`, `PmmSpec.AllocationsSafe` and `PmmSpec.RunOfOne` for pages; `Mmu.RunShares`, `Mmu.MapEffect` and
`Mmu.MapReach` for address spaces; `Loader.ElfLoads` for programs; `Fat32Spec.ReadIsSlice`, `Fat32Image.ReaddirItems` and
`Fat32Image.FinddirItems` for files; `SchedSpec.ReachableInv`, `SchedSpec.BoundedWait`, `SchedSpec.SleepLasts`,
`SchedOrder.YieldGoesLast` and `SchedOrder.PreemptedAtTheTenth` for processes; `Switch.SuspendAndResume`,
`Spaces.EverySwitchIsSafe` and `Growth.SwitchIffShared` for the context switch; `Keyboard.ReadersGetWhatWasTyped`,
`Keyboard.AcceptedUnlessFull` and `Keyboard.ReaderReturns` for the keyboard.

## Where the code falls short of the plain statement

These properties hold only under a condition. Where the text says "exactly" or "only then", both directions are proved.

- `kmalloc` refines first fit up to 0xFFFFFFE8 bytes. Any larger request wraps around, and the caller gets a block smaller
  than 48 bytes unless nothing is free and no page is left (`Heap.Heap.Kmalloc`).
- `heap_get_free` is 16 less than the free bytes, and wraps around exactly when nothing is free (`Heap.Heap.HeapGetFree`).
- `pmm_init` frees exactly the usable pages of a region unless the region's 64-bit end wraps around
  (`PmmSpec.RegionExact`). Its counter is right when the usable parts of the regions do not overlap, and only then for
  maps of fewer than 4096 entries (`PmmSpec.InitConserved`).
- `pmm_alloc_pages` also answers 0 when the lowest run starts at page 0 (`PmmSpec.AllocRunFails`). No page is ever lost
  while page 0 is not free (`PmmSpec.RunPartitions`); if it is, the next allocation loses it (`PmmSpec.PageZeroLost`).
- Without a memory map `pmm_init` frees the right pages exactly when memory ends below 4 GB (`Pmm.UpperExact`).
- The code reaches directories and tables by their physical addresses, through the tables themselves. While every
  directory, every table and every frame taken for one is mapped to itself it does what it should (`Mmu.StepThroughIs`). A
  mapping or unmapping keeps that up exactly when its page is none of these, or is mapped to itself (`Mmu.MapReach`,
  `Mmu.UnmapReach`); mappings at or above 1 GB do while frames below it last (`Mmu.HighRunSafe`). Otherwise the kernel can
  lose its directory (`Mmu.MapOverDirectory`, `Loader.DirectoryLost`) or fault while clearing a new table; a mapping
  faults exactly when it needs a table and the frame it gets is not mapped (`Mmu.MapFaults`, `Mmu.HighTableFaults`).
- `schedule` loads the next process's directory before it calls `context_switch`, so the switch goes through exactly when
  everything it touches lies in slots the two directories share (`Growth.SwitchIffShared`). `kmalloc` maps a growth page
  in the current directory only, where it is seen exactly by those that share its slot, and nowhere when a table is needed
  and no second frame is free (`Growth.GrowthSeen`). While the heap ends within slots that have tables when the first
  process is cloned, every switch of every run is safe (`Spaces.EverySwitchIsSafe`); as `kmain` sets things up that is up
  to 0xC0400000 (`Start.TablesFitAtStart`). Past that a new process can get a stack it cannot reach, and the switch to it
  faults (`Growth.NewStackFaults`).
- A program's pages have the rights its headers ask for as far as their slots allow: wholly where the loader brings the
  table, but a slot with a kernel table stays out of bounds for user mode (`ElfRights.ExecRights`).
- A page fault that needs a new table is resolved exactly when a second frame is free; otherwise the handler returns with
  the page still missing (`Mmu.FaultResolves`).
- The timer dispatches nobody while the idle process has never been scheduled: it is READY, not RUNNING, until somebody
  calls `process_yield` or `process_sleep` (`SchedSpec.TimerNeverStarts`). From then on the bound on waiting holds.
- A sleep lasts as long as asked while neither the conversion to ticks, nor the deadline, nor the tick counter wraps
  around (`SchedSpec.SleepLasts`). In general the next schedule call wakes the sleeper exactly when the counter, modulo
  2^32, is at or past the deadline word (`SchedSpec.FirstCallWakes`), so after a wrap it can sleep on
  (`SchedSpec.SleepsPastWrap`).
- A typed character is lost exactly when 255 are waiting already (`Keyboard.AcceptedUnlessFull`).

The comment in `src/pmm.c:3` says the bitmap covers 512 MB; with 32768 words of 32 bits it covers 4 GB, and the model
follows the code. The Microsoft FAT specification, section 6.2, hides an entry as a long-name entry when all four low
attribute bits are set; the code hides it when any of them is, and the model follows the code.

## Model

| member | source | states |
|---|---|---|
| `HeapSpec.FirstFit` | src/heap.c:39-50 | the first free block of sufficient size: everything before it does not fit |
| `HeapSpec.BlocksDisjoint` | src/heap.c:8-13 | any two blocks of a tiled heap, headers and payloads included, are disjoint and in address order |
| `HeapSpec.SumWhole` | src/heap.c:185-191 | allocated and free bytes add up to the heap |
| `HeapSpec.MallocTiles` | src/heap.c:103-144 | kmalloc keeps the block list an exact tiling, longer by one page exactly when the heap grows |
| `HeapSpec.MallocFails` | src/heap.c:103-144 | NULL if and only if the size is 0, or no free block fits and no page that would fit can be had |
| `HeapSpec.MallocBlock` | src/heap.c:103-144 | the result is 8-aligned, new, large enough, the lowest fit, and every other allocated block is neither moved nor resized |
| `HeapSpec.FreeKeeps` | src/heap.c:163-183 | kfree keeps the tiling and takes away exactly the block freed |
| `HeapSpec.FreeUndoesMalloc` | src/heap.c:77-101 | freeing what was just allocated restores the block list, split undone |
| `HeapSpec.CoalescedAllocate` | src/heap.c:52-75 | splitting and taking a block never makes two free neighbours |
| `HeapSpec.CoalescedRelease` | src/heap.c:77-101 | the two-sided merge leaves no two free neighbours |
| `HeapSpec.RunTiles` | src/heap.c:103-183 | every run of kmalloc and kfree of live pointers keeps the list an exact tiling with block sizes multiples of 8 and at least 24 |
| `HeapSpec.RunKeepsLive` | src/heap.c:103-183 | over every run a live block stays where and what it is until its own kfree |
| `HeapSpec.RunCoalesced` | src/heap.c:77-144 | a run that does not grow the heap never leaves two adjacent free blocks |
| `HeapSpec.FreeAllRestores` | src/heap.c:163-183 | freeing every live pointer once, in any order, leaves one free block |
| `HeapSpec.RunThenFreeAll` | src/heap.c:24-183 | from heap_init, after any run without growth, freeing what is left in any order gives back the initial heap |
| `Heap.Heap.constructor` | src/heap.c:24-37 | heap_init: one free block, in memory and in the model |
| `Heap.Heap.FindFreeBlock` | src/heap.c:39-50 | walking the next pointers returns the first fit, or NULL if there is none |
| `Heap.Heap.SplitBlock` | src/heap.c:52-75 | every word written by the split, for any request |
| `Heap.Heap.MergeFreeBlocks` | src/heap.c:77-101 | every word written by the two merges |
| `Heap.RepSplit` | src/heap.c:52-75 | the words written by a split represent the split block list: prev inverts next, heap_end is last |
| `Heap.RepMergeNext` | src/heap.c:78-88 | the words written by the forward merge represent the merged list, live payloads untouched |
| `Heap.RepMergePrev` | src/heap.c:90-100 | the same for the backward merge |
| `Heap.RepRelease` | src/heap.c:163-183 | freeing, on words, represents releasing the block and leaves the payload of every other allocated block alone |
| `Heap.Heap.TakeBlock` | src/heap.c:138-140 | splits and marks the block, adding its final size to heap_used |
| `Heap.Heap.ExpandHeap` | src/heap.c:111-128 | growth appends a free page without merging, payloads untouched |
| `Heap.Heap.FindOrGrow` | src/heap.c:109-132 | a second search after growing, when a page could be had |
| `Heap.Heap.Place` | src/heap.c:109-143 | search, growth, split and accounting for a rounded size, wrapped totals included |
| `Heap.Heap.Kmalloc` | src/heap.c:103-144 | refines first fit and leaves live payloads alone up to 0xFFFFFFE8 bytes; above that, exactly when it fails and that the block is too small |
| `Heap.TakeWrapped` | src/heap.c:107-140 | a request whose total wraps around leaves a block smaller than 48 bytes |
| `Heap.Heap.KmallocAligned` | src/heap.c:146-161 | the aligned bytes lie inside a new block, the original pointer is stored in the word before, no other payload changes; when the total wraps around, how small the block is |
| `HeapSpec.MallocTight` | src/heap.c:52-75 | the block handed out is less than 56 bytes larger than the request |
| `Heap.AlignedRoom` | src/heap.c:146-161 | the padding asked for is always enough for the alignment and the stored pointer |
| `Heap.Heap.Kfree` | src/heap.c:163-183 | frees a live pointer, word for word as KfreeWords; NULL, foreign and already free pointers change nothing; stale headers stay stale |
| `Heap.Heap.FreeEach` | src/heap.c:163-183 | freeing any list of pointers, live or freed before, repeats included, follows the model run on blocks and on words |
| `Heap.Heap.FreeOne` | src/heap.c:163-183 | whatever could be freed before a kfree, its own pointer included, can be freed after it |
| `Heap.Heap.FreeTwice` | src/heap.c:175-177 | with only kfree calls in between, repeats included, freeing a pointer again leaves every word and the block list as if the last call had not been made, even if its block was merged away |
| `Heap.StaleMergeNext` | src/heap.c:78-88 | the forward merge keeps every stale header reading as free |
| `Heap.StaleMergePrev` | src/heap.c:90-100 | the backward merge keeps every stale header reading as free |
| `Heap.Heap.WritePayload` | src/heap.c:142-143 | writing inside a live payload disturbs no header and no other payload |
| `Heap.Heap.HeapGetUsed` | src/heap.c:185-187 | 16 plus the bytes in allocated blocks |
| `Heap.Heap.HeapGetFree` | src/heap.c:189-191 | free bytes minus 16, wrapping around exactly when nothing is free |
| `PmmSpec.RunOfOne` | src/pmm.c:81-133 | the run scan for one page and the word-skipping scan give the same result and state |
| `PmmSpec.AllocRunFails` | src/pmm.c:113-133 | 0 if and only if there is no run of n free pages, or the lowest run starts at page 0 |
| `PmmSpec.RunConserves` | src/pmm.c:81-145 | pmm_get_free_pages is the number of clear bits after any sequence of calls, double frees included |
| `PmmSpec.TakesWhatItReturns` | src/pmm.c:113-133 | pmm_alloc_pages takes exactly the n pages from the address it returns on, all of which were free, and no lower ones would have done |
| `PmmSpec.FreeUndoesAlloc` | src/pmm.c:113-145 | giving back n pages at the address returned restores the pool, counters included |
| `PmmSpec.RunPartitions` | src/pmm.c:81-145 | in a run that frees only the pages behind addresses it was given, none is both free and held, and each that was free at the start is one or the other, unless page 0 was |
| `PmmSpec.PageZeroLost` | src/pmm.c:81-95 | if page 0 is free the next pmm_alloc_page takes it and answers that there is none |
| `PmmSpec.RegionExact` | src/pmm.c:38-61 | the pages freed for a region are the whole pages below 4 GB clear of 1 MB and the kernel, exactly unless its end wraps around |
| `PmmSpec.InitExact` | src/pmm.c:34-65 | after pmm_init a page is free if and only if it lies wholly inside an available region and clear of the kernel |
| `PmmSpec.InitCounts` | src/pmm.c:53-60 | total_pages counts the free pages exactly when no page was counted twice |
| `PmmSpec.InitConserved` | src/pmm.c:24-79 | pmm_get_free_pages starts out right when the usable parts of the regions are disjoint; and only then, for maps of fewer than 4096 entries |
| `PmmSpec.AllocationsSafe` | src/pmm.c:24-133 | in every disciplined run from pmm_init, on any memory map, each page either allocator hands out is held by nobody, available, and above 1 MB and the kernel |
| `Pmm.OneBit` | src/pmm.c:12-22 | setting or clearing a bit of the bitmap removes or adds exactly that page |
| `Pmm.WordFull` | src/pmm.c:83 | a word equals 0xFFFFFFFF if and only if none of its 32 pages is free |
| `Pmm.Pmm.BitmapSet` | src/pmm.c:12-14 | takes exactly that page out of the free set |
| `Pmm.Pmm.BitmapClear` | src/pmm.c:16-18 | adds exactly that page to the free set |
| `Pmm.Pmm.BitmapTest` | src/pmm.c:20-22 | true if and only if the page is not free |
| `Pmm.Pmm.AllocPage` | src/pmm.c:81-95 | takes the lowest free page; 0 and no change if there is none |
| `Pmm.Pmm.FreePage` | src/pmm.c:97-103 | frees the page; the counter moves only if it was not free |
| `Pmm.Pmm.GetFreePages` | src/pmm.c:105-107 | the number of free pages, in every conserved state |
| `Pmm.Pmm.AllocPages` | src/pmm.c:113-133 | takes the lowest run of n free pages, which starts at the address returned, and changes no other bit |
| `Pmm.Pmm.FreePages` | src/pmm.c:135-145 | frees exactly the pages reached, with index wrap-around, counting those that were not free |
| `Pmm.Pmm.InitRegion` | src/pmm.c:37-62 | frees and counts the pages of one memory-map entry |
| `Pmm.UpperExact` | src/pmm.c:66-76 | without a memory map the pages freed are the whole ones between the kernel and the end of memory, if and only if that end is below 4 GB |
| `Pmm.Pmm.Init` | src/pmm.c:24-79 | the free set and counters after pmm_init, with and without a memory map |
| `PagingSpec.SharedExactly` | src/paging.c:161-171 | two address spaces share a second-level table if and only if both had it from the kernel directory when cloned |
| `PagingSpec.MapPagePrivate` | src/paging.c:95-107 | a mapping through a slot that was empty is seen by the current space only |
| `PagingSpec.MapPageFails` | src/paging.c:94-98 | exactly when there is neither a table nor a frame for one, and that memory then stays as it is |
| `PagingSpec.BootInv` | src/paging.c:64-87 | paging_init establishes the invariant and the identity map |
| `Mmu.MapThroughIs` | src/paging.c:89-117 | run through the translation in force, with directories, tables and the frame it takes for a table mapped to themselves, paging_map_page faults nowhere and changes the tables as intended |
| `Mmu.UnmapThroughIs` | src/paging.c:119-134 | the same for paging_unmap_page |
| `Mmu.CloneThroughIs` | src/paging.c:161-171 | the same for paging_clone_pd |
| `Mmu.GetPhysicalIs` | src/paging.c:136-155 | paging_get_physical answers with the hardware translation, or 0 |
| `Mmu.MapReach` | src/paging.c:109-113 | a mapping keeps directories, tables and the free frames counted on within the kernel's reach if and only if its page is none of them, or is mapped to itself |
| `Mmu.UnmapReach` | src/paging.c:129-130 | an unmapping does so if and only if its page is none of them |
| `Permissions.MapRights` | src/paging.c:103-113 | in every sharer the mapped page is writable, and open to user mode, as flags and its directory entry say together; a new directory entry allows writing, and user mode if flags does; all other rights everywhere are unchanged |
| `Permissions.StepKernelOnly` | src/paging.c:89-176 | the first gigabyte stays closed to user mode in every address space when a step maps above it |
| `Permissions.BootKernelOnly` | src/paging.c:64-87 | paging_init sets it up so |
| `Mmu.MapEffect` | src/paging.c:89-117 | the mapping appears, with the rights of flags and directory entry together, in exactly the address spaces sharing the slot; every other translation and right everywhere is unchanged; nothing changes when no table can be had |
| `Mmu.UnmapEffect` | src/paging.c:119-134 | the page disappears from exactly the sharers; every other translation and right is unchanged |
| `Mmu.CloneCopies` | src/paging.c:161-171 | a clone translates and allows what the kernel directory does, and changes no other address space |
| `Mmu.StepThroughIs` | src/paging.c:89-176 | every safe map, unmap, clone or switch runs without a fault, as intended, and keeps within reach |
| `Mmu.RunShares` | src/paging.c:89-176 | over every safe run nothing faults and two address spaces share exactly the tables in the kernel directory when they were cloned |
| `Mmu.HighRunSafe` | src/paging.c:70-77 | runs that map above the identity-mapped first gigabyte are safe and leave it identity-mapped, while frames in it last for tables and directories; free frames above it do not matter |
| `Mmu.BootRunShares` | src/paging.c:64-176 | the same from paging_init on, for every run that maps at or above 1 GB, with the first gigabyte closed to user mode |
| `Mmu.FaultResolves` | src/paging.c:12-40 | exactly when a fault panics, and exactly when one that does not leaves the page mapped, to a frame that was free, writable, and open to user mode if the fault came from there |
| `Mmu.MapOverDirectory` | src/paging.c:90-110 | after a mapping over the page of the current directory the kernel takes the mapped frame for its directory |
| `Mmu.TableOutOfReach` | src/paging.c:97-104 | paging_map_page faults when the frame it gets for a table is not mapped |
| `Mmu.MapFaults` | src/paging.c:94-104 | paging_map_page faults if and only if it needs a table, gets a frame for it, and that frame is not mapped |
| `Mmu.HighTableFaults` | src/paging.c:97-104 | so it does right after paging_init when the lowest free frame is past the first gigabyte |
| `Paging.Paging.constructor` | src/paging.c:64-87 | paging_init fills the kernel directory and its 256 tables |
| `Paging.Paging.MapPage` | src/paging.c:89-117 | in place and through the translation in force, computes MapThrough |
| `Paging.Paging.UnmapPage` | src/paging.c:119-134 | in place, computes UnmapThrough |
| `Paging.Paging.GetPhysical` | src/paging.c:136-155 | computes GetPhysicalThrough |
| `Paging.Paging.ClonePd` | src/paging.c:161-171 | in place, computes CloneThrough |
| `Paging.Paging.SwitchTo` | src/paging.c:173-176 | makes the directory current |
| `Paging.Paging.HandlePageFault` | src/paging.c:12-40 | in place, computes FaultThrough |
| `ElfSpec.WriteBytesImage` | src/elf.c:94-105 | bytes written through the page tables read back, and all other loaded bytes stay |
| `Loader.LoadPagesIs` | src/elf.c:77-92 | pages off the kernel's own are mapped without a fault, and the kernel keeps everything within reach |
| `Loader.LoadSegmentIs` | src/elf.c:67-105 | one segment is loaded without a fault, as intended |
| `Loader.ExecIs` | src/elf.c:63-120 | so are all segments and the stack |
| `ElfSpec.PagesExact` | src/elf.c:72-75 | the pages of a segment are exactly those its bytes lie on, and the one under an empty segment that starts inside a page |
| `ElfRights.ExecRights` | src/elf.c:77-120 | every page of a segment is open to user mode, and writable if and only if its header has PF_W, both stack pages are both, as far as the slot's directory entry allows |
| `Loader.SegmentBytes` | src/elf.c:94-97 | the bytes read for a segment are the filesz bytes of the file from its offset on; all of them if and only if the file has that many |
| `Loader.ElfLoads` | src/elf.c:63-120 | with frames enough and segments off the kernel's pages, nothing faults, byte vaddr + k of every segment reads as byte offset + k of the clusters the FAT links, or zero past filesz, with the rights its header asks for, every page, stack included, on its own fresh frame |
| `Loader.LoadsAfterBoot` | src/elf.c:63-120 | straight after paging_init, with two free frames in the first gigabyte for each page, every file linked at or above 1 GB loads, with exactly the rights its headers ask for |
| `Loader.DirectoryLost` | src/elf.c:72-105 | a segment over the page of the current directory loads, and the kernel then reads its directory as empty |
| `Elf.MapPages` | src/elf.c:77-92 | the page loop computes LoadPagesThrough, stopping at the first missing frame or fault |
| `Elf.LoadOne` | src/elf.c:67-105 | maps, reads and zeroes one segment in place |
| `Elf.ExecFile` | src/elf.c:63-120 | the segment loop and the stack compute ExecThrough |
| `Elf.MapUserStack` | src/elf.c:110-120 | maps the two stack pages below 3 GB |
| `Fat32.Fat32Init` | src/fat32.c:241-279 | accepts a boot sector if and only if none of the four checked fields is zero, with the FAT and data sectors computed from it |
| `Fat32Spec.LayoutIs` | src/fat32.c:266-269 | the FAT starts after the reserved sectors and the data region after all FATs |
| `Fat32Spec.ClustersApart` | src/fat32.c:35-38 | distinct clusters occupy disjoint, ordered sector ranges of the data region |
| `Fat32Spec.FatApart` | src/fat32.c:41-57 | with 512-byte sectors, FAT entries are read from the first FAT, past the reserved sectors and short of the data region |
| `Fat32Spec.ReadSkips` | src/fat32.c:63-69 | skipping a cluster reads on from the next one, or nothing at the end of the chain |
| `Fat32Spec.ReadChunk` | src/fat32.c:74-94 | a read is the rest of this cluster followed by the read of the next |
| `Fat32Spec.NextIsFat` | src/fat32.c:41-57 | on a FAT written as little-endian words, the successor of a cluster is its word without the top four bits |
| `Fat32Spec.ContentsAt` | src/fat32.c:35-38 | byte k of sector j of the i-th cluster of a file is that byte of that sector of the data region, cluster 2 first |
| `Fat32Spec.ReadIsSlice` | src/fat32.c:59-98 | along the chain the FAT links, the read is that slice of the concatenated clusters: min(size, length - offset) bytes, none past the end |
| `Fat32.Fat32Read` | src/fat32.c:59-98 | fills the buffer with exactly the bytes the file has there and touches nothing beyond; terminates on every FAT, cyclic ones included |
| `Fat32.SkipClusters` | src/fat32.c:63-69 | finds the cluster holding the offset |
| `Fat32.ReadClusters` | src/fat32.c:71-97 | copies cluster after cluster until the request, the chain or the disk ends |
| `Fat32.BuildName` | src/fat32.c:146-157 | builds the 8.3 name without padding, dot before a non-empty extension, zero-terminated, in at most 13 bytes |
| `Fat32.SameString` | src/fat32.c:206-213 | the comparison loop decides equality of C strings |
| `Fat32Spec.ChainHasWalk` | src/fat32.c:126-167 | every directory whose cluster chain ends can be walked |
| `Fat32Spec.GoesOn` | src/fat32.c:126-167 | a walk that neither ends nor has found its entry has one more cluster to look at |
| `Fat32.PickEntry` | src/fat32.c:135-164 | the entry loop over one cluster counts visible entries up to the end marker |
| `Fat32.Readdir` | src/fat32.c:124-170 | returns the index-th visible entry in disk order, NULL past the last; on cyclic directories too, when the entry is reached |
| `Fat32.PickNamed` | src/fat32.c:185-232 | the entry loop over one cluster finds the first visible entry of that name |
| `Fat32.Finddir` | src/fat32.c:173-239 | returns the node of the first visible entry of that name, NULL if there is none; on cyclic directories too, when the name is reached |
| `Fat32Image.ReadsBpb` | src/fat32.c:241-269 | a boot sector written with the fields at their offsets reads back as those fields |
| `Fat32Image.NameIs` | src/fat32.c:146-157 | an entry written with a padded name and extension reads back as the name, a dot and the extension |
| `Fat32Image.ClusterIs` | src/fat32.c:158-159 | and with the cluster and length written |
| `Fat32Image.AttributesAre` | src/fat32.c:136-141 | it is visible if and only if none of the four low attribute bits is set, and a directory if and only if bit 4 is |
| `Fat32Image.ListingIsScan` | src/fat32.c:126-167 | walking a directory cluster by cluster lists what scanning it in one piece would |
| `Fat32Image.ReaddirItems` | src/fat32.c:101-170 | on a directory as written, readdir gives the index-th item that is neither deleted nor hidden, by name and cluster, and NULL past the last |
| `Fat32Image.FinddirItems` | src/fat32.c:173-239 | finddir gives cluster, length and kind of the first such item of that name, and NULL if there is none |
| `Fat32Spec.WalksAgree` | src/fat32.c:101-239 | finddir gives the inode of the least index whose readdir name matches, and NULL if and only if none does |
| `SchedSpec.FreeSlot` | src/process.c:65-72 | the first unused slot |
| `SchedSpec.ScheduleInv` | src/process.c:231-259 | schedule restores the invariant and leaves the current process RUNNING |
| `SchedSpec.CreateInv` | src/process.c:74-126 | process_create keeps the invariant, failures included |
| `SchedSpec.ReachableInv` | src/process.c:30-266 | in every reachable state the queue holds each non-idle READY process once, idle only if READY, and never the current one, only the current one is RUNNING, and unused slots have no stack |
| `SchedSpec.StepAdvances` | src/process.c:178-259 | each call of schedule moves the queue up by one, the head onto the processor; nothing else reorders it |
| `SchedSpec.DispatchedInTurn` | src/process.c:231-259 | a process at position k is dispatched by the (k+1)-th call of schedule |
| `SchedSpec.BoundedWait` | src/timer.c:14-33 | with preemption on and the current process RUNNING, it is dispatched within 10(k+1) timer interrupts |
| `SchedSpec.TimerNeverStarts` | src/timer.c:26-30 | while idle is current and READY, no number of timer interrupts dispatches anybody |
| `SchedSpec.SleepExact` | src/process.c:155-158 | the stored deadline is the one asked for exactly when neither the conversion nor the sum wraps around |
| `SchedSpec.WakeExact` | src/process.c:218-229 | waking changes exactly the sleepers whose deadline has come |
| `SchedSpec.SleeperStep` | src/process.c:218-259 | a sleeper is queued or run by the first schedule at or after its deadline, and left alone before |
| `SchedSpec.SleepsUntilDeadline` | src/process.c:152-162 | over every run before its deadline a sleeper never becomes READY |
| `SchedSpec.SleepLasts` | src/process.c:152-162 | while nothing wraps around, a sleeper is left alone by every schedule call before the ticks asked for have gone by, and queued or run by the first one after |
| `SchedSpec.FirstCallWakes` | src/process.c:218-229 | wrap-around or not, the first schedule call wakes the sleeper exactly when the tick counter modulo 2^32 is at or past the deadline word |
| `SchedSpec.SleepsPastWrap` | src/process.c:223 | five ticks from 0xFFFFFFF0 with the next schedule call twenty ticks later: the sleeper sleeps on |
| `SchedSpec.TerminatedForGood` | src/process.c:128-142 | a TERMINATED process never runs again and its slot is never reused |
| `SchedSpec.CreationsBounded` | src/process.c:65-126 | no run creates more processes than there were unused slots, 255 at most |
| `SchedOrder.WakeQueue` | src/process.c:218-229 | waking queues exactly the due sleepers, in slot order, behind everybody else |
| `SchedOrder.YieldGoesLast` | src/process.c:144-150 | a RUNNING process that yields, or whose slice ends, goes behind those waiting and before the sleepers woken then, or runs on if nobody waits, and nothing else about it changes |
| `SchedOrder.PreemptedAtTheTenth` | src/timer.c:14-33 | a slice ends at exactly its tenth tick, whoever runs, and a RUNNING process is preempted then and by no earlier tick |
| `SchedOrder.EnablingBeginsSlice` | src/timer.c:65-68 | turning preemption on begins a slice of ten ticks and touches no process |
| `SchedOrder.NeverWhenOff` | src/timer.c:19 | while preemption is off no tick of any run calls schedule |
| `SchedOrder.ExitRecorded` | src/process.c:128-142 | over every run after it, a process that exited stays TERMINATED with its exit code |
| `SchedOrder.PidsUnique` | src/process.c:78 | over every run with fewer than 2^32 creations no two processes have the same pid |
| `SchedOrder.BootPids` | src/process.c:30-37 | process_init sets that up |
| `Sched.Scheduler.constructor` | src/process.c:30-63 | process_init and scheduler_init set up the booted state |
| `Sched.Scheduler.SchedulerAdd` | src/process.c:178-190 | appends to the linked queue, tail included |
| `Sched.Scheduler.SchedulerRemove` | src/process.c:192-216 | takes the process out wherever it is in the linked queue; no effect if it is not queued |
| `Sched.Scheduler.WakeSleepingProcesses` | src/process.c:218-229 | wakes the due sleepers in slot order |
| `Sched.Scheduler.Schedule` | src/process.c:231-259 | computes Schedule on the linked queue |
| `Sched.Scheduler.FindFreeSlot` | src/process.c:65-72 | the loop finds the first unused slot |
| `Sched.Scheduler.ProcessCreate` | src/process.c:74-126 | computes Create, failures of both allocations included |
| `Sched.Scheduler.ProcessExit` | src/process.c:128-142 | is the exit step; idle cannot exit |
| `Sched.Scheduler.ProcessYield` | src/process.c:144-150 | is the yield step |
| `Sched.Scheduler.ProcessSleep` | src/process.c:152-162 | is the sleep step |
| `Sched.Scheduler.TimerCallback` | src/timer.c:14-33 | is the tick step, preempting when the slice ends |
| `Sched.Scheduler.TimerEnablePreemption` | src/timer.c:65-68 | turns preemption on with a full slice |
| `Sched.Scheduler.TimerDisablePreemption` | src/timer.c:70-72 | turns preemption off |
| `ProcessHeap.FreeBeforeAlloc` | src/process.c:84-89 | the kfree before any stack was allocated changes nothing while the heap ends at or below 0xFFFFEFF0 |
| `Switch.Processor.DoContextSwitch` | src/switch.asm:28-48 | instruction by instruction, computes ContextSwitch |
| `Switch.SwitchEffect` | src/switch.asm:28-48 | the switch writes only below the old stack pointer and the saved one, and loads exactly the registers saved for the target |
| `Switch.StepInv` | src/switch.asm:28-48 | switching, creating, exiting and computing keep every suspended stack intact, stacks coming and going |
| `Switch.ResumesAsSuspended` | src/switch.asm:28-48 | over every run a process resumes with the registers and stack it was suspended with |
| `Switch.SuspendAndResume` | src/switch.asm:28-48 | a process that calls context_switch gets back the same ebx, esi, edi, ebp and stack, at its return address, whenever it is next switched to |
| `Switch.FirstDispatch` | src/process.c:99-112 | the first dispatch of a new process, however late, and on memory that may have been a stack before, enters process_wrapper with the entry function as argument and zeroed registers |
| `Kernel.AreasApart` | src/process.c:91-97 | stacks taken from the heap do not overlap each other or the boot stack, and hold no saved stack pointer |
| `Kernel.PickedIsSuspended` | src/process.c:231-259 | whomever schedule picks other than the caller is suspended, its stack as it left it |
| `Kernel.StepInv` | src/process.c:74-259 | in one memory everybody sees alike, scheduling, creating, exiting with its kfree, and any other use of the heap keep processes, stacks and suspended contexts in step |
| `Kernel.BootInv` | src/process.c:30-63 | process_init sets that up |
| `Virtual.PushAllIs` | src/switch.asm:28-33 | pushes through page tables go through if and only if every word is mapped, and then do what they do in flat memory |
| `Virtual.SwitchThroughIs` | src/process.c:261-265 | context_switch through the next process's tables goes through if and only if they map every word it touches, and then does what it does in flat memory |
| `Growth.SwitchIffShared` | src/process.c:261-265 | that is if and only if every word lies in a slot both directories share, given that the next one has no table of its own there |
| `Growth.GrowthSeen` | src/heap.c:111-117 | the growth page is mapped, writable and closed to user mode, in exactly the directories that share its slot, if the slot has a table or a second frame is free; otherwise no translation changes |
| `Spaces.GrowMaps` | src/heap.c:111-117 | below the limit a growth page is mapped to the same frame in every address space, and nothing else changes |
| `Spaces.CloneFits` | src/process.c:84 | a clone maps the kernel's data as every other directory does |
| `Spaces.SwitchRuns` | src/process.c:261-265 | the switch to any suspended process goes through in its directory, and is the flat one |
| `Spaces.SwitchResumes` | src/process.c:261-265 | it gives that process the registers it was suspended with, and a stack that reads, in its own address space, as it left it |
| `Spaces.SchedRuns` | src/process.c:144-162 | yielding, sleeping and timer interrupts never fault, and do to processes and memory what they do in flat memory |
| `Spaces.ExitRuns` | src/process.c:128-142 | the same for process_exit, which frees its own stack |
| `Spaces.MallocRuns` | src/heap.c:103-144 | kmalloc below the limit, growth included, leaves every address space in order |
| `Spaces.CreateRuns` | src/process.c:74-126 | so does process_create: clone, stack, first frame, failures included |
| `Spaces.PagingRuns` | src/paging.c:89-134 | so does mapping or unmapping pages that are not the kernel's data |
| `Spaces.StepRuns` | src/process.c:74-266 | no step faults, and every step keeps tables, memory, heap, processes and suspended contexts in step |
| `Spaces.StartInv` | src/process.c:30-63 | process_init sets that up |
| `Spaces.EverySwitchIsSafe` | src/process.c:231-266 | over every run whose heap stays below the limit nothing faults, and each context_switch schedule makes, run through the next process's tables, resumes it as it was suspended |
| `Growth.FirstLimit` | src/kernel.c:389-399 | with one table at 0xC0000000 before the first clone, every page up to 0xC0400000 may be given to the heap |
| `Start.MapKernelHeap` | src/kernel.c:397-399 | the loop that maps the heap, in place, computes MapHeap |
| `Start.MapsAll` | src/kernel.c:397-399 | it faults nowhere, given one low frame for the table, and maps every heap page to its frame, the kernel image staying where it is |
| `Start.TablesFitAtStart` | src/kernel.c:383-402 | paging_init and that loop leave the tables as every run needs them, with the limit at 0xC0400000 |
| `Start.KernelStarts` | src/kernel.c:383-434 | so once process_init has run every run is safe |
| `Growth.LostToTheNext` | src/heap.c:111-117 | pages the heap grows into past the shared slots are there for the process that made it grow, and missing for the one it creates next |
| `Growth.StackPastTheEnd` | src/heap.c:103-183 | on a heap with no room, two requests of 4000 bytes, both freed, and a request for a stack: the stack starts 16 bytes past the old end |
| `Growth.NewStackFaults` | src/process.c:261-265 | so past 0xC0400000 that run gives a new process a stack its directory does not map, and the switch to it faults |
| `Keyboard.Keyboard.Callback` | src/keyboard.c:25-43 | the handler, in place, computes Interrupt |
| `Keyboard.Keyboard.HasInput` | src/keyboard.c:52-54 | true if and only if a character waits |
| `Keyboard.Keyboard.GetChar` | src/keyboard.c:61-63 | takes the oldest character off the ring |
| `Keyboard.ExactlyOneKey` | src/keyboard.c:14-23 | each character on a US keyboard comes from the key it is printed on and no other, the minus also from the number pad |
| `Keyboard.ReleaseIgnored` | src/keyboard.c:30-33 | a key release changes nothing |
| `Keyboard.ReleasesIgnored` | src/keyboard.c:25-64 | over every run, leaving out the releases makes no difference to ring, reader, accepted and returned characters |
| `Keyboard.TypedIsText` | src/keyboard.c:25-43 | pressing and releasing the keys of a text types that text, each character once |
| `Keyboard.InterruptAppends` | src/keyboard.c:35-42 | the handler appends the character unless 255 are waiting |
| `Keyboard.BumpDrops` | src/keyboard.c:61-62 | advancing buffer_start drops exactly the oldest character |
| `Keyboard.StepInv` | src/keyboard.c:25-64 | every load, store and interrupt keeps: accepted is returned followed by what waits |
| `Keyboard.ReadersGetWhatWasTyped` | src/keyboard.c:25-64 | under every interleaving the characters returned are a prefix of those accepted, the rest is what waits, at most 255 |
| `Keyboard.AcceptedUnlessFull` | src/keyboard.c:35-42 | the characters accepted are exactly the typed ones that find fewer than 255 waiting, in order; all of them if and only if none comes to a full ring |
| `Keyboard.ReaderReturns` | src/keyboard.c:56-64 | while a character waits the reader returns the oldest within seven of its own steps, whatever the interrupts |

## Left out

- Heap.Heap.Kmalloc: when the heap has to grow, requires the new page to end below the top of the address space.
- Heap.Heap.constructor: requires an aligned start and a size that is a multiple of 8, as at its one call.
- Heap.Heap.Kmalloc: takes the growth page to be mapped; `Growth.GrowthSeen` says exactly when and where it is.
- Heap.Heap.KmallocAligned: only for powers of two, which the mask in the code is made for.
- Heap.Heap.Kfree: pointers into the middle of a live block, which the code cannot tell apart, are excluded.
- Pmm.Pmm.AllocPages: requires n at most 2^20, above which the unsigned bound of the loop in the code wraps around.
- Pmm.Pmm.Init: the memory map is a list of entries; walking it by entry sizes in memory is not modelled.
- Pmm.Pmm.Init: requires total_pages to be 0, as it is at the one call at boot.
- Paging.Paging.MapPage: an access that faults ends the operation; the page fault handler running inside the kernel's own table code is not modelled.
- Elf.ExecFile: finding the file, reading and checking the headers are not modelled; the program headers are an argument.
- Elf.ExecFile: requires filesz at most memsz and segments that end below the top of the address space.
- Elf.LoadOne: file bytes are staged in a buffer before they are stored to user memory; protection bits are not enforced on the kernel's stores.
- Loader.ElfLoads: segments that share a page are excluded, since the second would be mapped over the first.
- Fat32.Fat32Read: volumes of 512-byte sectors only; `kmalloc` for cluster buffers is taken to succeed.
- Fat32.Readdir: requires a walk that ends or reaches the entry; on other cyclic directories the code loops for ever.
- Fat32.Readdir: the second `kfree` after a failed read is covered by `Heap.Heap.FreeTwice`, not called here.
- Fat32.Finddir: requires a walk that ends or reaches the name, for the same reason.
- Sched.Scheduler.ProcessCreate: what `paging_clone_pd` and `kmalloc` return is an argument; process names and parents are not modelled.
- Sched.Scheduler.ProcessExit: the `kfree` of the stack is not part of this method; `Kernel.StepInv` has it.
- Kernel.StepInv: one memory everybody sees alike; `Spaces.StepRuns` has the page tables.
- Spaces.StepRuns: page tables and the kernel's data words are kept in two memories; that no process writes to page tables other than through paging is assumed.
- Spaces.StepRuns: freeing frames is not among the steps; the frames of pages a process maps for itself are not followed.
- Start.TablesFitAtStart: that image and heap frames are in use, and different, is a condition; `pmm_init` and `pmm_alloc_pages` are in `PmmSpec`.
- Kernel.StepInv: heap blocks as in `HeapSpec`, not their header words; header updates count as memory the caller may write.
- Switch.Processor.DoContextSwitch: words are stored at addresses; overlapping unaligned words are not modelled.
- Keyboard.ReadersGetWhatWasTyped: one reader; `hlt` is a step that waits for nothing.
- Interrupts inside heap, page and scheduler operations: the code takes no locks there; each operation is one step.
- Disk ports, screen, serial log, descriptor tables, interrupt controller, system calls, virtual file system and user programs are not part of this model.
- TLB invalidation, CR3 loads and the jump to user mode have no effect in the model.
