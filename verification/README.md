# GooseOS verification

A Dafny model of GooseOS's kernel, with proofs. The main part is the memory
stack: the physical page allocator, whose bitmap lives in the memory it manages,
the four-level page-table mapper, which takes its tables from that allocator,
and the bump heap, which grows by mapping fresh pages. The second part is the
console: the format interpreter, number printing, the cursor, the scaled glyph
painter, and the spinlock under which several processors print. Two smaller
parts are the walk over the MADT and the ramdisk.

Run `dafny verify dfyconfig.toml` (Dafny 4.11) to check everything.

## How it is built

| module | what it holds |
|---|---|
| `Options`, `Bits`, `BitFields` | optional values; the algebra of and, or, masks, powers of two and bit fields |
| `PhysicalMemory` | memory as bytes, and the same memory as frames of 512 64-bit entries |
| `PageAllocator` | the bitmap's meaning: marks and the ascending list of free pages |
| `PageTables` | the hardware's page walk (section 5.3 of the AMD64 Architecture Programmer's Manual Volume 2), the tree of tables, and what the mapper's two writes do to it |
| `MemoryStack` | the operations on one memory, the partition invariant, and an abstract machine: linked paths, rights, page map, free list, data pages |
| `LargePages` | the mapper's calls on any path, large pages included |
| `MemoryRuns` | whole runs: refinement, accounting, translations, access rights, allocation order |
| `MemoryMap`, `MemoryBoot` | the boot loader's memory map, which pages should be free, the clone of the loader's root table |
| `Machine` | the code of `pmm.cpp`, `vmm.cpp`, `alloc-backend.cpp` and the paging part of `init.cpp` as a class over an array of bytes |
| `KernelRuns` | all of it together, from the hand-over through any run |
| `Heap`, `HeapPages`, `KernelHeap` | the heap's pointers, its pages, and the code as a class over the machine |
| `Digits`, `Format`, `FormatRoundTrip`, `EntryPoints`, `Literals`, `Console` | numbers as text, the format language, its meaning, whole calls, the same in letters and numbers, and the printing code as a class over a framebuffer |
| `Cores` | printing processors, the lock and the start-up gate as a state machine |
| `Framebuffer`, `Grid` | colours, pixels and glyphs; the console's cursor and its cells |
| `Madt`, `Ramdisk` | the MADT walk (section 5.2.12 of the ACPI Specification) and the ramdisk |

Code that changes state is a method of a class, proved to do what a function
says; the properties are lemmas about those functions and about every run of
them. The partition invariant is `MemoryStack.Valid`: free pages, bitmap frames,
data pages and live tables are pairwise disjoint, and no table is reached by two
paths. A panic is an outcome (`None` or `false`) that ends a run.

## What the callers owe

- Memory map: usable entries are page-aligned, not empty and overlap no other
  entry (the Memory Map guarantee of the Limine Boot Protocol), no entry wraps
  64-bit addresses, some usable entry above address 0 can hold the bitmap, and
  all usable memory exists. The page count may be anything. Two more conditions
  on the map limit what is said of the hand-over, and each is exact: `NoStaleBits`
  (`MemoryMap.InitExactIff`) and `TailInUsable` (`MemoryBoot.BitmapInUsableIff`).
- The loader's own tables lie outside usable memory and form a tree.
- `MapPage`: the results about the page map ask for no large page on the way;
  `LargePages` says what happens otherwise.
- Heap: the results about its pages take it as at least one page. `MappedIff` takes the page at the heap's start
  as mapped beforehand, which `Allocator::Init` relies on, and the page just past
  the initial heap as not mapped beforehand.

## What the proofs found

Each of these is a property that the code does not have on all inputs. The lemma
named as its condition says exactly when it holds; where the condition does not
show a failing input at once, a second lemma is one.

- **Bits of the last pages.** `bitmap_size` is rounded down
  (`kernel/arch/x86_64/mem/pmm.cpp:57`), so up to seven pages at the top keep the
  bit memory happened to hold. Condition: `MemoryMap.InitExactIff`; input:
  `MemoryMap.InitTailCounterexample`.
- **Reserved bytes in free pages.** Init rounds the page count of a non-usable
  entry without its offset in its first page
  (`kernel/arch/x86_64/mem/pmm.cpp:116-118`) and may miss its last page; among the
  pages of the point above, that leaves one free that holds the entry's bytes.
  Condition: `MemoryMap.InitCleanIff`; input: `MemoryMap.ReservedLeftFree`.
- **The bitmap's last byte.** When the rounded size fills its last page and the
  page count is not a multiple of eight, the last bits lie on a page that init
  does not reserve (`kernel/arch/x86_64/mem/pmm.cpp:99-103`) and may hand out.
  Condition: `MemoryBoot.BitmapApartIff`, `MemoryBoot.InitSoundIff` and
  `Machine.EarlyInit`; input: `MemoryBoot.BitmapHandedOut`, where the kernel's
  own root table is that page.
- **User pages.** New tables never grant user access
  (`kernel/arch/x86_64/mem/vmm.cpp:38`), so `PTE_USER` has no effect below one.
  Condition: `MemoryRuns.MapRights`; input: `MemoryRuns.UserFlagLost`.
- **Address bits in flags** change the frame or are lost. Condition:
  `PageTables.LeafMappingIff`; input: `PageTables.FlagsMoveFrame`.
- **Pages under a large page** are not mapped: the call takes the page's memory
  for a table and writes into it. Condition: `LargePages.MapCallIff`.
- **Heap arithmetic.** `kmalloc` adds without an overflow check. Condition:
  `Heap.KmallocOrderedIff`, and `Heap.OverflowCheckRightIff` for the check alone;
  input: `Heap.KmallocWraps`. A heap of less than one page never comes up
  (`HeapPages.SmallHeapPanics`).
- **A page missing from the heap.** Growth maps `End + 4096` rather than `End`
  (`kernel/mem/alloc.cpp:64`), so the page just past the initial heap is never
  mapped. Condition: `HeapPages.KmallocMappedIff`; input: `HeapPages.UnmappedBlock`,
  two calls after set-up.
- **Style tags.** After a tag the loop does not check for another tag or the end
  (`kernel/arch/x86_64/console/console.cpp:312-349`), and colour 8 passes the clamp
  (line 212). Condition: `FormatRoundTrip.RoundTripIff`; inputs:
  `EntryPoints.ClearScreenOverruns`, which is `LateInit`'s own `C[c,3]`, and
  `FormatRoundTrip.ColourEightOverruns`. A tag type of three letters is stored
  past its buffer before the panic (lines 153-163). Condition:
  `FormatRoundTrip.TypeOverrunIff`; input: `FormatRoundTrip.LongTagOverruns`.
- **Text off the screen.** `PrintChar` checks the right edge only and never the
  bottom. Condition: `Grid.TextFitsIff`.
- **Wide colour channels.** Above 24 bits the scaling product wraps. Condition:
  `Framebuffer.ChannelScale`.

Observations on the way, without a proof: `Error` is documented as printing `ERR`
and prints `LOG`, and the comments of palette entries 1 and 2 name each other's
colour; the model follows the code. The type buffer of a tag is not initialised,
so what it held is a parameter (`stale`).

## Model

| member | source | states |
|---|---|---|
| `PageAllocator.SetMarkBit` | kernel/arch/x86_64/mem/pmm.cpp:35 | setting one page's bit changes that page's mark and no other page's, whatever the byte held |
| `PageAllocator.MarkedInNumbers` | kernel/arch/x86_64/mem/pmm.cpp:35-37 | page p is bit p % 8 of byte p / 8 of the bitmap |
| `PageAllocator.ClearMarkBit` | kernel/arch/x86_64/mem/pmm.cpp:36 | clearing one page's bit changes that page's mark and no other page's |
| `PageAllocator.FreeFromMember` | kernel/arch/x86_64/mem/pmm.cpp:37 | the list of free pages holds exactly the pages in range whose bit is clear |
| `PageAllocator.FreeFromSorted` | kernel/arch/x86_64/mem/pmm.cpp:130-136 | the list of free pages ascends, so no page is in it twice |
| `PageAllocator.TakeFirst` | kernel/arch/x86_64/mem/pmm.cpp:130-136 | marking the lowest unmarked page removes exactly the head of the free list |
| `Machine.Machine.SetBit` | kernel/arch/x86_64/mem/pmm.cpp:35 | the memory after the store is the memory with that one bit set |
| `Machine.Machine.ClearBit` | kernel/arch/x86_64/mem/pmm.cpp:36 | the memory after the store is the memory with that one bit cleared |
| `Machine.Machine.TestBit` | kernel/arch/x86_64/mem/pmm.cpp:37 | true exactly when the page is marked |
| `Machine.Machine.AllocatePage` | kernel/arch/x86_64/mem/pmm.cpp:130-141 | panics, changing nothing, exactly when no page is free; otherwise returns the address of the lowest free page and marks only it |
| `MemoryStack.AllocateStep` | kernel/arch/x86_64/mem/pmm.cpp:130-136 | the page taken is the lowest free one, is at or above page 256, holds no part of the bitmap, no table and no data; taking it changes no walk and no translation and keeps memory partitioned |
| `MemoryRuns.AllocationOrder` | kernel/arch/x86_64/mem/pmm.cpp:130-141 | n calls return 4096 times the first n initially free pages in ascending order, never below 1 MiB, and stop after exactly the initial number of free pages |
| `Machine.Machine.Memset` | kernel/include/utils.hpp:33-39 | exactly the given bytes hold the given value, all others are unchanged |
| `Machine.Machine.PlaceBitmap` | kernel/arch/x86_64/mem/pmm.cpp:41-77 | the page count is the highest usable address in whole pages and the bitmap starts at the first usable entry above 0 that is long enough |
| `Machine.Machine.LockPages` | kernel/arch/x86_64/mem/pmm.cpp:99-124 | exactly the given pages below the limit become locked; no byte outside the bitmap changes |
| `Machine.Machine.OpenPages` | kernel/arch/x86_64/mem/pmm.cpp:86-90 | exactly the given pages become free; no byte outside the bitmap changes |
| `Machine.Machine.OpenEntry` | kernel/arch/x86_64/mem/pmm.cpp:84-91 | frees exactly the whole pages of a usable entry, and nothing for another entry |
| `Machine.Machine.LockEntry` | kernel/arch/x86_64/mem/pmm.cpp:112-125 | locks exactly the pages from base / 4096 on, length / 4096 rounded up in number, of a non-usable entry below the page count, and nothing for a usable one |
| `Machine.Machine.OpenUsable` | kernel/arch/x86_64/mem/pmm.cpp:79-92 | afterwards a page is locked exactly when no usable entry holds it and its bit lies in a filled byte or was set before |
| `Machine.Machine.LockReserved` | kernel/arch/x86_64/mem/pmm.cpp:94-126 | adds exactly the locks of the first 256 pages, the bitmap's pages and, in numbers, every non-usable entry's rounded page range |
| `Machine.Machine.PmmInit` | kernel/arch/x86_64/mem/pmm.cpp:40-127 | page by page, the bit is clear exactly when init should free the page, or its byte was never filled and the bit was clear before; every page in a non-usable entry's rounded range is locked whatever memory held; only the bytes of the touched pages' bits change, which run past bitmap_size when the page count is not a multiple of eight or is below 256; the allocator is sound exactly when the tail page is not free |
| `MemoryMap.FreeInNumbers` | kernel/arch/x86_64/mem/pmm.cpp:40-127 | which pages init leaves free, from the entries' bases and lengths alone: none below 256, none with a byte of the bitmap, none in a non-usable entry's rounded range; else those inside usable entries, and past the filled bytes those whose bit was clear before |
| `MemoryMap.SizesInNumbers` | kernel/arch/x86_64/mem/pmm.cpp:47-57 | the page count is the highest usable end in pages; the bitmap's size is an eighth of it, rounded down |
| `MemoryMap.SpotIsFirst` | kernel/arch/x86_64/mem/pmm.cpp:59-69 | the bitmap goes to the first usable entry above address 0 that is long enough, and nowhere exactly when there is none |
| `MemoryMap.HighestCovers` | kernel/arch/x86_64/mem/pmm.cpp:47-56 | no usable entry reaches above the computed top of memory |
| `MemoryMap.HighestReached` | kernel/arch/x86_64/mem/pmm.cpp:47-56 | the computed top of memory is 0 or the end of some usable entry |
| `MemoryMap.SpotIsUsable` | kernel/arch/x86_64/mem/pmm.cpp:59-69 | a bitmap address above 0 is the base of a usable entry long enough for the bitmap |
| `MemoryMap.InitExactIff` | kernel/arch/x86_64/mem/pmm.cpp:57-80 | init frees exactly the intended pages, whatever memory held before, if and only if every page past the last whole bitmap byte is usable or locked for another reason |
| `MemoryMap.InitTailCounterexample` | kernel/arch/x86_64/mem/pmm.cpp:57 | a two-entry map for which a page outside every entry is left free, because the bitmap size is rounded down |
| `MemoryMap.UsablePageIsClean` | kernel/arch/x86_64/mem/pmm.cpp:110-126 | no page of a usable entry holds a byte of a non-usable entry, which the map alone sees to; hence none of the pages that init should free does |
| `MemoryMap.ReservedIsLocked` | kernel/arch/x86_64/mem/pmm.cpp:110-126 | a page with bytes of a non-usable entry is locked, or is the last page of an entry that does not start on a page boundary, just past the range that init locks |
| `MemoryMap.InitCleanIff` | kernel/arch/x86_64/mem/pmm.cpp:110-126 | no page that init leaves free holds a byte of a non-usable entry, whatever memory held before, if and only if past the last whole bitmap byte every such missed last page is below 256, in the bitmap or in another non-usable entry's range |
| `MemoryMap.AlignedEntryIsClean` | kernel/arch/x86_64/mem/pmm.cpp:110-126 | no free page holds a byte of a non-usable entry that starts on a page boundary |
| `MemoryMap.ReservedLeftFree` | kernel/arch/x86_64/mem/pmm.cpp:116-118 | on a three-entry map a page that holds bytes of a non-usable entry is left free, because the entry's page count is rounded without its offset |
| `MemoryBoot.BitmapApartIff` | kernel/arch/x86_64/mem/pmm.cpp:57-103 | no page that should be free holds any bit of the bitmap, if and only if the page after the bitmap's whole bytes is not one init hands out while holding the last bits |
| `MemoryBoot.BitmapHandedOut` | kernel/arch/x86_64/mem/pmm.cpp:57-103 | on a machine with 128 MiB and one page the first free page, which the kernel takes for its root table, holds the bit of page 32768 |
| `MemoryBoot.BitmapInUsableIff` | kernel/arch/x86_64/mem/pmm.cpp:59-77 | every byte whose bits init may touch lies in usable memory, if and only if the tail page does |
| `MemoryBoot.InitSoundIff` | kernel/arch/x86_64/mem/pmm.cpp:40-127 | after init, whatever memory held, no free page is below page 256 or holds part of the bitmap, if and only if the tail page is not free; the bitmap lies in usable memory |
| `PageTables.ShiftedIndex` | kernel/arch/x86_64/mem/vmm.cpp:47-50 | the four shifts and masks give the four 9-bit digits of the virtual page number |
| `PageTables.EntryInNumbers` | kernel/arch/x86_64/mem/vmm.cpp:27-56 | bit 0 of an entry is present, bit 1 writable, bit 2 user, bit 7 large page; bits 12 to 51 are the frame and the rest the attributes |
| `PageTables.LargeInNumbers` | kernel/arch/x86_64/mem/vmm.cpp:26-42 | the addresses in large-page entries are bits 30 to 51 and bits 21 to 51 |
| `PhysicalMemory.EntryBytes` | kernel/arch/x86_64/mem/vmm.cpp:38-41 | entry i of frame f is the eight bytes from 4096 f + 8 i on, the lowest first |
| `PageTables.IndicesDetermine` | kernel/arch/x86_64/mem/vmm.cpp:47-50 | two pages with the same four indices are the same page |
| `PageTables.TableEntryLink` | kernel/arch/x86_64/mem/vmm.cpp:38 | the entry written for a new table is present, leads to that table at every depth, grants writing and does not grant user access |
| `PageTables.LeafMappingIff` | kernel/arch/x86_64/mem/vmm.cpp:56 | the leaf holds exactly the frame of the physical address and the flags plus the present bit, if and only if the flags hold no address bits |
| `PageTables.FlagsMoveFrame` | kernel/arch/x86_64/mem/vmm.cpp:56 | flags with an address bit move a page to another frame |
| `PageTables.LeafRights` | kernel/arch/x86_64/mem/vmm.cpp:56 | the leaf's write and user rights are the flags', address bits or not |
| `PageTables.TreeOffTree` | kernel/arch/x86_64/mem/vmm.cpp:33-38 | writing only frames that hold no table keeps the tree, every walk and every translation |
| `PageTables.LinkTable` | kernel/arch/x86_64/mem/vmm.cpp:27-39 | linking a zeroed table keeps the tree and every translation, and adds exactly one path |
| `PageTables.TranslateWithTable` | kernel/arch/x86_64/mem/vmm.cpp:27-39 | every page translates as before once the new table is linked |
| `PageTables.SetLeaf` | kernel/arch/x86_64/mem/vmm.cpp:56 | the leaf store keeps the tree and every walk and changes the translation of one page only |
| `PageTables.TranslateWithLeaf` | kernel/arch/x86_64/mem/vmm.cpp:56 | after the leaf store its own page translates as the leaf says and every other page as before |
| `MemoryStack.NextTableStep` | kernel/arch/x86_64/mem/vmm.cpp:26-42 | follows an existing link without change, or links exactly one new table for exactly one page; fails exactly when the link is missing and no page is free |
| `MemoryStack.BitmapKept` | kernel/arch/x86_64/mem/vmm.cpp:33-38 | zeroing and linking a new table does not alter the free pages |
| `MemoryStack.DescendRefines` | kernel/arch/x86_64/mem/vmm.cpp:52-54 | three table steps end at the table the hardware walk reaches, and do on the abstract machine what linking the missing paths does |
| `MemoryStack.StoreLeaf` | kernel/arch/x86_64/mem/vmm.cpp:56 | the store keeps memory partitioned and is one update of the page map |
| `MemoryStack.MapPageRefines` | kernel/arch/x86_64/mem/vmm.cpp:46-59 | mapping a page on a well-formed tree is one update of the page map to what the leaf says, with one free page taken for each missing table; on exhaustion no translation has changed |
| `LargePages.ClearCall` | kernel/arch/x86_64/mem/vmm.cpp:46-59 | with no large page on the path the calls of MapPage, step by step, are the refined MapPage |
| `LargePages.LargeCall` | kernel/arch/x86_64/mem/vmm.cpp:26-59 | a whole call under a 2 MiB or a 1 GiB page leaves every translation as it was, where the page's memory holds no table and no bitmap; under a 1 GiB page it may spend a page, or panic for want of one |
| `LargePages.MapCallIff` | kernel/arch/x86_64/mem/vmm.cpp:46-59 | under that condition a call that finds its table maps its page if and only if no large page is on the path, unless the page was mapped so before |
| `Machine.Machine.ReadEntry` | kernel/arch/x86_64/mem/vmm.cpp:41 | a 64-bit little-endian load of one entry |
| `Machine.Machine.WriteEntry` | kernel/arch/x86_64/mem/vmm.cpp:38 | a 64-bit little-endian store of one entry, nothing else |
| `PhysicalMemory.StoreOneEntry` | kernel/arch/x86_64/mem/vmm.cpp:38 | a store to one entry changes that entry of that frame and no other |
| `PhysicalMemory.ZeroOneFrame` | kernel/arch/x86_64/mem/vmm.cpp:33-36 | zeroing 4096 bytes leaves an empty table and no other frame changed |
| `PhysicalMemory.BytesRoundTrip` | kernel/arch/x86_64/mem/vmm.cpp:38-41 | a stored value is read back |
| `Machine.Machine.ZeroPage` | kernel/arch/x86_64/mem/vmm.cpp:33-36 | the whole page is zero and no other byte changed |
| `Machine.Machine.GetNextTable` | kernel/arch/x86_64/mem/vmm.cpp:26-42 | the bytes and the result are those of the table step above |
| `Machine.Machine.FindTable` | kernel/arch/x86_64/mem/vmm.cpp:52-54 | the three calls, whatever entries they meet inside memory, end at the table that the calls' function names, or panic |
| `Machine.Machine.MapPage` | kernel/arch/x86_64/mem/vmm.cpp:46-59 | memory afterwards is that of the whole call, whatever is on the path inside memory; with no large page on it, memory stays partitioned and exactly one update of the page map is done, or it panics with every translation unchanged |
| `MemoryRuns.MapRights` | kernel/arch/x86_64/mem/vmm.cpp:38-56 | a mapped page is writable exactly when the flags say so and no existing table forbids it, and user-accessible exactly when the flags say so and all three tables existed before and allowed it |
| `MemoryRuns.UserFlagLost` | kernel/arch/x86_64/mem/vmm.cpp:38-56 | where the first link does not grant user access already, as on a path without tables, a page mapped with PTE_USER carries the flag and grants no user access |
| `MemoryStack.AllocatePageAtRefines` | kernel/arch/x86_64/mem/alloc-backend.cpp:40-56 | the abstract machine takes its first free page as data and maps it writable at the address |
| `Machine.Machine.AllocatePageAt` | kernel/arch/x86_64/mem/alloc-backend.cpp:40-56 | keeps memory partitioned, with the new data page apart from everything else, and does what the abstract machine does; returns the address it was given |
| `Machine.Machine.MapVirtual` | kernel/arch/x86_64/mem/alloc-backend.cpp:59-69 | the same with the writable flag: with no large page on the path, one update of the page map, to the given frame, writable |
| `MemoryRuns.StepRefines` | kernel/arch/x86_64/mem/alloc-backend.cpp:40-56 | each of the three operations keeps memory partitioned and does what the abstract machine does |
| `MemoryRuns.RunRefines` | kernel/arch/x86_64/mem/vmm.cpp:26-59 | every state reachable by mixed runs keeps free pages, bitmap, data and live tables apart, and the run is a run of the abstract machine |
| `MemoryRuns.NothingShared` | kernel/arch/x86_64/mem/vmm.cpp:27-38 | in the state that any run leaves, different index paths reach different tables, and no table is a free page, a bitmap frame or a data page |
| `MemoryRuns.DescendEffect` | kernel/arch/x86_64/mem/vmm.cpp:52-54 | a descent succeeds exactly when there is a free page for every missing table, takes that many from the front and links exactly the missing paths |
| `MemoryRuns.RunAccounting` | kernel/arch/x86_64/mem/vmm.cpp:46-59 | a run completes exactly when the pages suffice, and then has taken one page for each prefix without a table and one for each data page |
| `MemoryRuns.ZeroedRootAccounting` | kernel/arch/x86_64/mem/vmm.cpp:46-59 | from a zeroed root the free count falls by the number of distinct 9-, 18- and 27-bit prefixes plus the number of data pages |
| `MemoryRuns.StepTranslation` | kernel/arch/x86_64/mem/vmm.cpp:46-59 | one operation changes the translation of its own page only, to what it was given |
| `MemoryRuns.RunTranslation` | kernel/arch/x86_64/mem/vmm.cpp:46-59 | after a run an untouched page translates as before; a touched page as its last operation says |
| `Machine.Machine.BuildPml4` | kernel/arch/x86_64/init.cpp:144-159 | the new frame holds zeros below entry 256 and the old root's entries above; no other byte changes |
| `MemoryBoot.WalkCloned` | kernel/arch/x86_64/init.cpp:144-159 | walks from the new root fail in the lower half and agree with the old root's in the upper half |
| `MemoryBoot.CloneTree` | kernel/arch/x86_64/init.cpp:142-159 | the new root with the old lower tables is again a tree, and its frame is in no walk of the old tree |
| `MemoryBoot.CloneSpace` | kernel/arch/x86_64/init.cpp:142-159 | every page with root index 256 to 511 translates as before and every other page not at all |
| `Machine.BootFinish` | kernel/arch/x86_64/init.cpp:139-162 | from the steps of the hand-over: memory is partitioned, the root was free, and the address space is the upper half of the old one |
| `Machine.BootFails` | kernel/arch/x86_64/init.cpp:139-162 | with a free tail page memory is not partitioned after the hand-over: the root table, or a free page, holds bits of the bitmap |
| `Machine.Machine.SwitchRoot` | kernel/arch/x86_64/init.cpp:142-162 | from a prepared memory: panics exactly when no page is free; otherwise the hand-over succeeds if and only if the bitmap's tail page is not free |
| `Machine.Machine.EarlyInit` | kernel/arch/x86_64/init.cpp:139-162 | panics exactly when the map leaves no free page; otherwise, if and only if the bitmap's tail page is not free: the root is the lowest page that should be free, the remaining free pages are exactly the others, memory is partitioned and the address space is the loader's upper half |
| `KernelRuns.RunAvailable` | kernel/arch/x86_64/mem/pmm.cpp:130-136 | a run hands out only pages that were free when it began |
| `KernelRuns.BootedRun` | kernel/arch/x86_64/init.cpp:139-162 | after any run that follows the hand-over: memory is partitioned, no data page contains a byte of a non-usable entry, and untouched pages translate as the loader had them (upper half) or not at all (lower half) |
| `KernelRuns.BootedHeap` | kernel/mem/alloc.cpp:45-118 | from the hand-over through heap set-up and any run of kmalloc: the blocks tile the heap, which is never quite full; the heap's pages but its first and the one past the initial heap lead to frames of their own without a byte of a non-usable entry; every other page translates as the loader had it |
| `Heap.OverflowCheckRightIff` | kernel/mem/alloc.cpp:36-42 | the check says "fits" for exactly the blocks that end below the heap's end, if and only if the block does not wrap round to below it |
| `Heap.GrowEnd` | kernel/mem/alloc.cpp:60-69 | successful growth by n pages moves the end by 4096 n |
| `HeapPages.KmallocSucceedsIff` | kernel/mem/alloc.cpp:45-76 | a call succeeds if and only if the heap is set up and there is a free page for each page it grows by and each table missing on the way; on a heap that is not set up nothing changes |
| `HeapPages.InitSucceedsIff` | kernel/mem/alloc.cpp:92-118 | set-up of a heap of at least a page succeeds if and only if there are that many free pages |
| `Heap.KmallocOrderedIff` | kernel/mem/alloc.cpp:45-76 | a successful call returns the old current pointer; Start <= Current <= End is kept with Current moved by the amount if and only if no address wraps around, and then Current < End is kept too |
| `Heap.KmallocWraps` | kernel/mem/alloc.cpp:45-76 | a request for which the current pointer ends below the heap's start |
| `Heap.BlocksTile` | kernel/mem/alloc.cpp:45-76 | in any run without wrap-around the blocks have the requested sizes and tile the heap from the old to the new current pointer, across growth; a heap that is not quite full stays so |
| `Heap.TilesApart` | kernel/mem/alloc.cpp:71-75 | tiling blocks do not overlap and lie in order |
| `HeapPages.InitMaps` | kernel/mem/alloc.cpp:92-118 | End = Start + 4096 N, and pages 2 to N are mapped writable to pairwise distinct data pages that were free, with every other translation unchanged; a panic has mapped the first k of them and left End as it was |
| `HeapPages.SmallHeapPanics` | kernel/mem/alloc.cpp:105-108 | a heap of less than one page makes the loop bound wrap round, and set-up always panics |
| `HeapPages.GrowMaps` | kernel/mem/alloc.cpp:63-69 | growth maps the pages above the end, each to a free page of its own, and changes no other translation |
| `HeapPages.KmallocMaps` | kernel/mem/alloc.cpp:45-76 | every call keeps the heap's page shape, whether it succeeds or panics |
| `HeapPages.RunMaps` | kernel/mem/alloc.cpp:45-76 | so does every run of calls |
| `HeapPages.MappedIff` | kernel/mem/alloc.cpp:64 | a range inside the heap is mapped byte for byte if and only if it does not touch the page just past the initial heap |
| `HeapPages.KmallocMappedIff` | kernel/mem/alloc.cpp:45-76 | the block a successful call returns is mapped byte for byte if and only if it does not touch the page just past the initial heap |
| `HeapPages.UnmappedBlock` | kernel/mem/alloc.cpp:56-118 | a one-page heap, set up and asked for 4095 bytes and then for two, returns both blocks, and the second block's second byte is not mapped |
| `HeapPages.MachineAbs` | kernel/arch/x86_64/mem/pmm.cpp:130-136 | every sound state has a total page map and a bounded list of free pages without repetition, as the heap results assume |
| `KernelHeap.KernelHeap.IsOverflowingHeap` | kernel/mem/alloc.cpp:36-42 | a block that ends below 2^64 overflows exactly when it ends at or after the heap's end; one that ends beyond 2^64 only when it is longer still by the end address |
| `KernelHeap.KernelHeap.GrowBy` | kernel/mem/alloc.cpp:62-69 | the mapping loop on the machine is the abstract growth, and keeps memory partitioned |
| `KernelHeap.KernelHeap.Kmalloc` | kernel/mem/alloc.cpp:45-76 | the machine, the three pointers and the result are those of the abstract call |
| `KernelHeap.KernelHeap.Init` | kernel/mem/alloc.cpp:92-118 | the machine and the three pointers are those of the abstract set-up |
| `Digits.TextRoundTrip` | kernel/arch/x86_64/console/console.cpp:241-293 | reading a printed number back in the same base returns it, for every number |
| `Digits.DigitTable` | kernel/arch/x86_64/console/console.cpp:266-288 | the sixteen digits are 0 to 9 and upper-case A to F |
| `Digits.NoLeadingZero` | kernel/arch/x86_64/console/console.cpp:241-293 | a printed number starts with 0 only if it is 0 |
| `Digits.TextLengthIff` | kernel/arch/x86_64/console/console.cpp:241-293 | a number has at most n digits if and only if it is below base^n |
| `Digits.FullDecimal` | kernel/arch/x86_64/console/console.cpp:241-262 | the largest 64-bit value takes all twenty decimal digits |
| `Digits.U64Length` | kernel/arch/x86_64/console/console.cpp:241-293 | a 64-bit value has at most 20 decimal and 16 hexadecimal digits, so both buffers suffice |
| `Digits.FullHexBuffer` | kernel/arch/x86_64/console/console.cpp:266-293 | the largest n-digit hexadecimal value fills n characters, so the 16-character buffer has none to spare |
| `Console.FillDigits` | kernel/arch/x86_64/console/console.cpp:241-293 | the buffer holds the number's text backwards and is never overrun |
| `Console.Console.ShowBackwards` | kernel/arch/x86_64/console/console.cpp:241-293 | shows the buffer from its last character to its first |
| `Console.Console.PrintUnsignedInternal` | kernel/arch/x86_64/console/console.cpp:241-262 | shows the decimal text |
| `Console.Console.PrintHexInternal` | kernel/arch/x86_64/console/console.cpp:266-293 | shows the hexadecimal text |
| `FormatRoundTrip.ParsesTag` | kernel/arch/x86_64/console/console.cpp:142-238 | a well-formed tag is parsed to its own effect and end, whatever the uninitialised type buffer held, or reads past the palette if its number modulo 2^64 names no colour |
| `Literals.Conversions` | kernel/arch/x86_64/console/console.cpp:326-347 | by their letters: %s shows its text, %u its number in base 10, %x in base 16, another letter shows nothing and takes nothing, a lone % reads past the end |
| `Literals.PaletteTable` | kernel/arch/x86_64/console/console.cpp:57-66 | the eight palette colours, component by component |
| `Literals.Tags` | kernel/arch/x86_64/console/console.cpp:142-238 | by their letters: fg, bg, c and r with each of the eight digits, and their colours from the next character on |
| `Literals.TagTypes` | kernel/arch/x86_64/console/console.cpp:180-197 | a first letter c means clear, bg background and anything else foreground |
| `Literals.ColourDigits` | kernel/arch/x86_64/console/console.cpp:199-206 | the colour number is the decimal number of the digits before the bracket, modulo 2^64; other characters are skipped |
| `Literals.OpenTag` | kernel/arch/x86_64/console/console.cpp:199-208 | a tag without its closing bracket reads past the end |
| `Literals.PlainCalls` | kernel/arch/x86_64/console/console.cpp:354-437 | what the five entry points show for a plain message: each word and its RGB colour, then in white on black a space, the message and the newline |
| `FormatRoundTrip.TagColour` | kernel/arch/x86_64/console/console.cpp:199-206 | the scan reads a decimal number of any length, modulo 2^64 |
| `FormatRoundTrip.TypeOverrunIff` | kernel/arch/x86_64/console/console.cpp:149-163 | a tag stores past its type buffer if and only if none of its first three characters is a comma or the end of the text |
| `FormatRoundTrip.LongTagOverruns` | kernel/arch/x86_64/console/console.cpp:149-163 | a tag with three letters stores past the buffer |
| `FormatRoundTrip.ColourEightOverruns` | kernel/arch/x86_64/console/console.cpp:210-220 | a well-placed tag with colour 8 reads past the palette |
| `FormatRoundTrip.ShowsPlain` | kernel/arch/x86_64/console/console.cpp:305-351 | characters outside tags and conversions are shown as they are |
| `FormatRoundTrip.ShowsTag` | kernel/arch/x86_64/console/console.cpp:312-349 | a tag directly after a tag is shown as text |
| `FormatRoundTrip.InterpretsTag` | kernel/arch/x86_64/console/console.cpp:312-324 | a tag takes effect and the loop goes on behind it without another tag check, or it reads past the palette |
| `FormatRoundTrip.InterpretsSegment` | kernel/arch/x86_64/console/console.cpp:305-351 | a text, number or literal segment shows its text and takes its own argument |
| `FormatRoundTrip.InterpretsEncoding` | kernel/arch/x86_64/console/console.cpp:305-351 | for every list of segments, what the loop shows, faults on and leaves of the arguments |
| `FormatRoundTrip.RoundTripIff` | kernel/arch/x86_64/console/console.cpp:305-351 | printing an encoded list, with any numbers as colours, shows exactly its meaning, with the colours in force at each character, and takes exactly its arguments, if and only if no tag is last or directly followed by a tag and every tag's number modulo 2^64 names a colour |
| `FormatRoundTrip.ActualDiffers` | kernel/arch/x86_64/console/console.cpp:312-349 | a misplaced tag, or one that names no colour, reads out of bounds or makes too many characters show |
| `EntryPoints.EncodePrefix` | kernel/arch/x86_64/console/console.cpp:368-437 | the prefixes of the entry points are the encodings of the prefix segments |
| `EntryPoints.PrefixShown` | kernel/arch/x86_64/console/console.cpp:368-437 | each prefix shows its word in its colour and a space in the default colours, and leaves the default colours; PrintString shows nothing first and keeps the colours |
| `EntryPoints.ClearScreenOverruns` | kernel/arch/x86_64/init.cpp:192 | a format that is only a clear tag clears the screen, shows a NUL and passes the terminator |
| `EntryPoints.MessageMeaning` | kernel/arch/x86_64/console/console.cpp:368-437 | what a whole call means: prefix, then the message in the colours the prefix leaves, then the newline |
| `EntryPoints.CallIff` | kernel/arch/x86_64/console/console.cpp:354-437 | a call of any of the five entry points with an encoded message shows exactly prefix, meaning and newline and takes exactly its arguments, if and only if the message's own tags are well placed and name colours |
| `Console.Console.PrintMessage` | kernel/arch/x86_64/console/console.cpp:354-437 | the entry points' bodies show, move the cursor, set colours, take arguments and paint pixels as the interpreter says of prefix, message and newline |
| `Console.Console.ParseStyling` | kernel/arch/x86_64/console/console.cpp:142-238 | the three scanning loops compute the tag's next position, colours, clearing or fault |
| `Console.Console.PrintTag` | kernel/arch/x86_64/console/console.cpp:312-324 | shows what the interpreter says for the tag check |
| `Console.Console.PrintText` | kernel/arch/x86_64/console/console.cpp:330-336 | shows the argument character by character |
| `Console.Console.PrintItem` | kernel/arch/x86_64/console/console.cpp:326-349 | shows what the interpreter says for one conversion or character |
| `Console.Console.PrintStringInternal` | kernel/arch/x86_64/console/console.cpp:305-351 | shows, moves the cursor, sets colours, takes arguments and paints pixels as the interpreter says, up to the fault if there is one |
| `Console.Console.PrintChar` | kernel/arch/x86_64/console/console.cpp:107-138 | one more character is shown: the cursor advances by the cursor law, exactly the character's cell is painted, dot for dot, and every other pixel stays, as long as all cells so far are on the screen |
| `Framebuffer.Screen.Fill` | kernel/arch/x86_64/console/console.cpp:224-229 | the two loops give every pixel of the screen the colour |
| `Console.Console.ClearScreen` | kernel/arch/x86_64/console/console.cpp:219-235 | every pixel gets the colour, the background changes and the cursor goes home |
| `Console.Console.EveryCharacterStands` | kernel/arch/x86_64/console/console.cpp:107-138 | after any list of events every character since the last clearing stands whole in its own cell, in its own colours, and every other pixel is the clearing's colour or what it was at first |
| `Console.Console.DotInNumbers` | kernel/arch/x86_64/console/console.cpp:75-104 | cell (x, y) is the 8 * scale pixel square from (8 * scale * x, 8 * scale * y) on, and its pixel is foreground exactly when its row's font byte has a one at its column's power of two, else background |
| `Console.Console.MoveOn` | kernel/arch/x86_64/console/console.cpp:114-134 | the cursor moves by the cursor law |
| `Console.Console.FitsNext` | kernel/arch/x86_64/console/console.cpp:122-134 | one more event keeps all cells on the screen exactly when its own cell is on it |
| `Grid.CursorRises` | kernel/arch/x86_64/console/console.cpp:107-138 | printing never comes back to a cell |
| `Grid.TextFitsIff` | kernel/arch/x86_64/console/console.cpp:107-138 | n characters from the origin all have their cells on the screen if and only if n is at most the cells of its whole rows, and cells divide the width or n is less than a row |
| `Grid.CursorAfter` | kernel/arch/x86_64/console/console.cpp:107-138 | n characters from the origin leave the cursor at (n mod C, n div C) with C the width in cells rounded up |
| `Grid.CursorAfterText` | kernel/arch/x86_64/console/console.cpp:107-138 | after any text with newlines the column is the number of characters since the last newline modulo the row length, and the row counts every newline and every row that a line fills |
| `Grid.LineStarts` | kernel/arch/x86_64/console/console.cpp:114-120 | after a newline, or after clearing, a text starts at the left edge wherever the cursor was |
| `Grid.FitsInNumbers` | kernel/arch/x86_64/console/console.cpp:122-134 | a cell fits when 8 * scale times its far corner is on the screen |
| `Grid.CellsFitIff` | kernel/arch/x86_64/console/console.cpp:127-134 | every cell of a row lies on the screen if and only if the cell width divides the screen width |
| `Cores.StepAtomic` | kernel/arch/x86_64/include/spinlock.hpp:29-40 | every step of every core keeps mutual exclusion and the sequential reading of the output |
| `Cores.EveryScheduleAtomic` | kernel/arch/x86_64/console/console.cpp:354-437 | in every interleaving at most one core is inside, and the output is whole messages in lock order plus the part of the holder's message it has performed; each core's messages come in program order |
| `Cores.ActionsMeaning` | kernel/arch/x86_64/console/console.cpp:354-437 | a list's actions performed without interference show what the list means |
| `Cores.EveryScheduleShows` | kernel/arch/x86_64/console/console.cpp:354-437 | in every interleaving of cores that call the entry points, an unlocked console shows exactly what the messages mean, whole and in lock order; a locked one that and the first actions of the holder's message |
| `Cores.WakesIff` | kernel/arch/x86_64/init.cpp:179-189 | a processor is sent to its entry point exactly when its local APIC is not the boot processor's |
| `Cores.BootNeverWoken` | kernel/arch/x86_64/init.cpp:182-188 | no program sends the boot processor to the entry point |
| `Cores.EveryScheduleWakes` | kernel/arch/x86_64/init.cpp:179-192 | in every interleaving a processor that slept at first is awake exactly when the boot processor has passed its wake-up, so only if its local APIC is another one; past the wake loop every other processor is awake |
| `Cores.SomeScheduleGreets` | kernel/arch/x86_64/init.cpp:53-92 | some interleaving lets the boot processor finish and every other processor greet, each exactly once |
| `Cores.BootShape` | kernel/arch/x86_64/init.cpp:172-199 | LateInit prints its starting message, wakes the others, prints the clearing and the resetting message, opens the gate and prints its last two messages, in this order |
| `Cores.GreetingText` | kernel/arch/x86_64/init.cpp:90 | the greeting is the format Hi from AP %u! with the processor's number |
| `Cores.StepGated` | kernel/arch/x86_64/init.cpp:53-92 | every step keeps application processors before the gate while it is closed |
| `Cores.EveryScheduleGated` | kernel/arch/x86_64/init.cpp:172-199 | in every interleaving no application processor prints before the clearing and resetting messages were printed, and each greets at most once |
| `Framebuffer.ChannelScale` | kernel/arch/x86_64/boot/framebuffer.cpp:33-39 | a scaled channel fits its bits and 0 stays 0; up to 24 bits it is the value's share of the full channel, rounded down; 255 becomes all ones if and only if there are at most 24 bits; eight bits keep every value |
| `Framebuffer.ChannelInside` | kernel/arch/x86_64/boot/framebuffer.cpp:43-57 | a channel that lies inside the pixel loses no bit in the shift |
| `Framebuffer.UsualLayout` | kernel/arch/x86_64/boot/framebuffer.cpp:43-57 | with 8-bit channels at 16, 8 and 0 the pixel holds the three components side by side |
| `Framebuffer.ColourReadBack` | kernel/arch/x86_64/boot/framebuffer.cpp:43-57 | with any three separate fields inside 32 bits each scaled component is read back from its own field, and no other bit is set |
| `Framebuffer.PixelInside` | kernel/arch/x86_64/boot/framebuffer.cpp:60-69 | a pixel on the screen lies in the framebuffer's memory |
| `Framebuffer.PixelBytes` | kernel/arch/x86_64/boot/framebuffer.cpp:60-69 | a pixel's value is its four bytes from y * pitch + 4 x on, the lowest first |
| `Framebuffer.Screen.DotInNumbers` | kernel/arch/x86_64/console/console.cpp:83-103 | a pixel of a glyph is foreground exactly when byte (v - y0) / scale has a one at 2^((u - x0) / scale), else background |
| `Framebuffer.PixelsApart` | kernel/arch/x86_64/boot/framebuffer.cpp:60-69 | different pixels share no byte |
| `Framebuffer.Screen.DrawPixel` | kernel/arch/x86_64/boot/framebuffer.cpp:60-69 | the pixel gets the colour; no other pixel and no other byte changes |
| `Framebuffer.StoredPixel` | kernel/arch/x86_64/boot/framebuffer.cpp:60-69 | storing a pixel's four bytes changes that pixel and no other |
| `Framebuffer.Screen.DrawBlock` | kernel/arch/x86_64/console/console.cpp:89-93 | a square of pixels gets the colour, every other pixel stays |
| `Framebuffer.Screen.DrawChar` | kernel/arch/x86_64/console/console.cpp:75-104 | pixel (x0+i, y0+j) of the cell is foreground exactly when bit i/scale of glyph row j/scale is set, else background; no pixel outside the cell changes |
| `Framebuffer.Screen.PaintDot` | kernel/arch/x86_64/console/console.cpp:83-103 | one more dot paints exactly its own square of the scaled glyph |
| `Madt.ParseMADT` | kernel/arch/x86_64/apic/ioapic.cpp:55-89 | the loop over the bytes computes the walk from byte 44 on, including where it would stand still or read outside the table |
| `Madt.WalkKeepsLatest` | kernel/arch/x86_64/apic/ioapic.cpp:55-89 | over an encoded entry list the walk ends with the latest I/O APIC that serves interrupt 0 |
| `Madt.WalkSelectsLast` | kernel/arch/x86_64/apic/ioapic.cpp:55-89 | over 36 header bytes, 4 address bytes, 4 flag bytes and any entry list the selection is exactly the last entry of kind 1 whose interrupt base bytes are zero, at its byte position, or the old one if there is none |
| `Madt.HangsIff` | kernel/arch/x86_64/apic/ioapic.cpp:55-89 | the loop never ends if and only if it comes by a readable entry of length zero |
| `Ramdisk.Memcpy` | kernel/include/utils.hpp:42-54 | exactly the given bytes are copied, all others unchanged |
| `Ramdisk.BlockDevice.ReadSector` | kernel/block/ramdisk.cpp:37-58 | the buffer's first 512 bytes become disk bytes 512 * sector on, the disk is unchanged; false without a disk |
| `Ramdisk.BlockDevice.WriteSector` | kernel/block/ramdisk.cpp:62-84 | disk bytes 512 * sector on become the buffer's first 512, every other byte and the buffer are unchanged; the array of sectors has that sector replaced; false without a disk |
| `Ramdisk.WriteOne` | kernel/block/ramdisk.cpp:62-84 | replacing 512 aligned bytes replaces one sector and no other |
| `Ramdisk.LastWriteStays` | kernel/block/ramdisk.cpp:37-84 | after any run a sector holds what the last write to it wrote, or its old content |

## Left out

- Direct-map offset: the higher-half direct map is a fixed translation that cancels out, so memory is accessed by physical address here.
- Hardware effects: `invlpg`, TLB contents and the switch of CR3 itself; CR3 is the number of the root frame. The non-canonical addresses above 48 bits are taken modulo 48 bits, as the indices take them.
- LargePages.LargeCall: a large page whose memory is itself a live table, holds the bitmap, or (a 1 GiB page) holds what looks like an entry for such a frame or one outside memory; there the call overwrites that table.
- Machine.Machine.MapPage: the root passed in is the one CR3 names, as in every call the kernel makes.
- The null check in `GetNextTable`: an allocation that returns is never null in a sound state.
- Machine.Machine.EarlyInit: a map on which the free pages depend on what memory held (`NoStaleBits` fails; `Machine.PmmInit` and `MemoryMap.InitCleanIff` cover it), and a map whose last bits lie outside usable memory (`TailInUsable` fails), where init writes to memory that may be the loader's tables.
- `PMM::Init` with no memory map answer or no entry for the bitmap: the source's checks are commented out, and the bitmap would overwrite page 0 of the direct map.
- `KRNL_MEM_HEAP_SIZE` and `kernel_end`: defined by the build and the linker, so they are parameters.
- `kfree`: a stub that always fails. The heap's `INFO` messages between allocations.
- HeapPages.KmallocMaps and the other results of `HeapPages`: the heap's pages stay within the 2^48 addresses around its start; the pointer results in `Heap` have no such bound.
- Cores.EveryScheduleAtomic: steps are sequentially consistent and no fairness is assumed, so nothing is said about a core that waits forever. `Spinlock::Lock` is a step of the state machine because its loop ends only through another core. `EmergencyUnlock` and direct calls of `PrintChar` go round the lock.
- Cores.EveryScheduleGated: `LateInit`'s messages are arbitrary action lists; interrupts, the per-core set-up before the gate and the panic in `InitKernel` before `LateInit` are not modelled. `CoreContextes` is indexed by processor number without a bound in the source.
- The 32-bit processor number that `Log` passes where the interpreter fetches 64 bits: taken as the same number.
- Console.Console.PrintChar: the serial copy of the output and the wrap-around of the 64-bit cursor. A cell that leaves the screen, which the source paints past the row or the framebuffer, is not painted here, and nothing is said of the pixels from then on; `Grid.TextFitsIff` says when that does not happen. The font is data, so it is a parameter; the scale does not change while printing.
- `SetConsoleState`, `Console::Init` and `IsConsoleReady`: plain assignments and a flag.
- Framebuffer.Screen.DrawPixel: positions on the screen, 32 bits a pixel and less than 4 GiB of memory; other depths make the source's 4-byte store overlap the neighbours.
- Framebuffer.ChannelScale: shifts by 32 or more, which C does not define.
- Ramdisk.Memcpy: overlapping buffers.
- The I/O APIC's and local APIC's registers, the search for ACPI tables, GDT, IDT and interrupt registration.
- Ramdisk.BlockDevice.ReadSector: sectors past the end, which the source does not check, are excluded, as are buffers that overlap the disk; the missing-disk error message is not printed. `Ramdisk::Init` and `GetCurrentRamdisk` only fill in a structure.
- The VFS mount table, the test file system, keyboard maps and Limine's request structures.
