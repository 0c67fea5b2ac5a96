# Abel-OS: memory stack, scheduler, sector loader and console

A Dafny model of the parts of Abel-OS that carry state, with proofs about single calls and about
whole runs. The C code that updates globals, arrays and linked nodes in place is modelled by
classes and loops; each class method is proved against a function on values, and the promises are
lemmas about those functions.

| module | what it models |
|---|---|
| `HeapModel`, `HeapInvariant`, `HeapTheorems`, `HeapRuns` | the kernel heap on values: pages, blocks, the free list; its invariant, the promises of `kalloc` and `kfree`, whole runs |
| `Heap` | the heap as it is in memory: `f_list` and headers whose second word is either a link or a mark |
| `Bits`, `PhysicalMap`, `BootMap` | the page bitmap, its range marks, its construction from the E820 map (ACPI Specification, section 15.1) |
| `PageTables`, `VirtualMemory`, `KernelHeap`, `KernelBoot` | two-level paging (Intel SDM Vol. 3A, section 4.3), page allocation, the heap on top of it, and the hand-over from the boot |
| `Sequences`, `Arithmetic`, `Words` | lists with an element taken out or put in, quotients, 32-bit words as numbers |
| `SchedModel`, `SchedRuns`, `SchedLedger`, `Scheduler` | the round-robin scheduler on values, its waits and its table over runs, and on its linked list |
| `Context` | the register switch and the first frame of a process |
| `Disk`, `Loader`, `BothLoaders` | disk geometry, the sector loops of stage 2, and the two side by side |
| `ConsoleModel`, `Console` | the 80x25 text screen as a window on an endless canvas |

Memory is a set of headers or words by address; a call is one step; pages handed out by the page
allocator arrive as a parameter of `kalloc` and are tied to the real allocator in `KernelHeap`.

## Where the code does less than it promises

The code is modelled as it is. Each entry names the lemma that gives the exact condition.

* `kfree` can give back the page that `f_list` still points at (kalloc.c:168-177): two smallest
  allocations freed in the order they were made do it. `HeapInvariant.FreeKeepsInv`,
  `HeapRuns.FreeingInOrderStrandsTheHead`.
* `n + 8` wraps for requests above 0xFFFFFFF6 (kalloc.c:28-34). `HeapTheorems.AllocMeetsContract`.
* `kalloc` of more than 4080 bytes on an empty list takes two pages and leaves the first wholly
  free on the list (kalloc.c:38-76). `HeapTheorems.AllocAddsPages`.
* `vmm_alloc_page` maps frame 0 when frames run out and loses a frame when the table is full;
  `vmm_free_page` of an absent page frees page 0. `PageTables.AllocKeepsOwnership`,
  `PageTables.FreeKeepsOwnership`, `PageTables.FreeUndoesAlloc`.
* `kalloc` does not notice that a page is missing: with no entry it takes page 0 into the heap, with
  no frame its page leads to frame 0. `KernelHeap.KallocKeepsInv`.
* A frame from 2^20 on has no 32-bit address; mapping it leads to another frame.
  `PageTables.AllocKeepsOwnership`.
* The address of page 2^20 is 0 in 32 bits. `PhysicalMap.ZeroMeansNone`, `PhysicalMap.FreeUndoesAlloc`.
* E820 entries are cut to 32 bits. `BootMap.TruncationIsHarmless`, `BootMap.BootBitmapIsExact`.
* The comment above the used marks (arch pmm.c:281-283) lists the E820 table and the page tables;
  the table's mark is commented out (285). The model follows the code.
  `BootMap.MarkReserved`, `BootMap.BootBitmapIsExact`.
* The placement loop does not terminate on an empty reserved range. `BootMap.SkipProgresses`.
* `arch_vmm_map_core` drops the offset of an unaligned base, and for lengths from 0xFFFFF000 on maps
  nothing and still returns an address. `VirtualMemory.MappedRunPointsAtBase`,
  `VirtualMemory.PagesForIsEnough`.
* The list called fifo is extended behind its head, not at its end (fifo.c:56-61), so a newcomer
  runs before processes that were there first. `SchedRuns.AddSetsBack`.
* A count of 0xFFFFFFFF, which only a process that has been alone can reach, wraps at the next tick,
  and a newcomer waits a tick longer than the quanta before it. `SchedRuns.LongestWait`,
  `SchedRuns.FullCountWaitsLonger`.
* Exit of the only process, kill of the running one and a wrapped process id leave no sound state.
  `SchedModel.ExitKeepsInv`, `SchedModel.KillKeepsInv`, `SchedModel.AddKeepsInv`.
* Both sector loops apply the start offset to the first read only, and their segment wraps at 16
  bits. `Loader.PlacementIsContiguous`, `BothLoaders.LoadersAgree`.
* Asked for more than the disk holds, one loop stops at a chunk and the other at the last sector.
  `BothLoaders.LoadersAgree`, `BothLoaders.LoadersPartAtTheEnd`.
* Asked to start behind the end of the disk, the CHS loop may read other sectors.
  `Loader.ReadsWhatWasAsked`.
* The CHS loop reports an error after the last sector of the disk even when that was the last one
  asked for (stage2.asm:376-383). `Loader.ReadsOnDisk`, `BothLoaders.ReportsAgree`.
* 256 heads are counted as 0, and a cylinder above 1023 does not fit the registers.
  `Disk.GeometryIsRead`, `Disk.PackingInverts`.

## Model

| member | source | states |
|---|---|---|
| HeapTheorems.AllocMeetsContract | os/src/kernel/kalloc/kalloc.c:15-103 | from any sound heap, `kalloc(n)` keeps the invariant and gives n bytes inside one page that nobody holds, leaving every other allocation as it was (or refuses n above 4088 and changes nothing), if and only if n is at most 0xFFFFFFF6 |
| HeapTheorems.RequestIsSize | os/src/kernel/kalloc/kalloc.c:24-30 | the size `kalloc` works with is the least even number that is at least the request and at least 16, and it looks for that and 8 more, for every request up to 0xFFFFFFF6 |
| HeapTheorems.AllocIsFirstFit | os/src/kernel/kalloc/kalloc.c:43-102 | with m the least size that holds the request: when free blocks have m + 8 bytes the lowest-addressed of them is handed out and no page is added; it goes whole when it has fewer than 24 bytes more than m, and otherwise has exactly m, the rest being a free block behind it |
| HeapTheorems.AllocAddsPages | os/src/kernel/kalloc/kalloc.c:38-102 | when no free block has m + 8 bytes, the block is the start of a page just added, of exactly m bytes or the whole page when fewer than 24 would be left; exactly one page is added, or two for m over 4080 on an empty list, the first then staying wholly free |
| HeapTheorems.TakenIs | os/src/kernel/kalloc/kalloc.c:38-76 | how many pages a call asks for follows from the free list and the request, whatever the page allocator returns |
| HeapTheorems.UnusedSupply | os/src/kernel/kalloc/kalloc.c:38-76 | only the pages actually asked for influence what `kalloc` does |
| HeapTheorems.FreeEndsOneAllocation | os/src/kernel/kalloc/kalloc.c:124-182 | `kfree` ends the allocation it is given and no other, whatever it merges or gives back |
| HeapTheorems.FreeLeavesNoWholePage | os/src/kernel/kalloc/kalloc.c:159-179 | after `kfree` the page of the freed block is not one free block |
| HeapTheorems.FreeReleasesOnlyFreePages | os/src/kernel/kalloc/kalloc.c:159-179 | the one page `kfree` may give back is named; the heap held it and no other allocation is in it; otherwise the pages are unchanged |
| HeapTheorems.FreeUndoesAlloc | os/src/kernel/kalloc/kalloc.c:78-179 | `kfree` right after a `kalloc` that added no page restores blocks, list and pages exactly, if and only if neither the block taken nor its predecessor on the list was a whole page |
| HeapInvariant.FreeKeepsInv | os/src/kernel/kalloc/kalloc.c:110-182 | `kfree` keeps the invariant (pages tiled by even blocks of at least 16 bytes, list ascending and fully coalesced) if and only if it does not strand the list head; the condition is read off the list before the call |
| HeapInvariant.CarveInv | os/src/kernel/kalloc/kalloc.c:78-102 | splitting a free block, or taking it whole, keeps the invariant |
| HeapInvariant.AddPageInv | os/src/kernel/kalloc/kalloc.c:53-72 | a new page enters the list at its place and keeps the invariant |
| HeapInvariant.MergedForward | os/src/kernel/kalloc/kalloc.c:138-157 | after the insertion and the forward merge the freed block ends where its free stretch ends, the list before it is unchanged, and only the pair before it may still touch |
| HeapRuns.RunsAreSafe | os/src/kernel/kalloc/kalloc.c:21-182 | in every state of every run of calls the invariant holds, live and free bytes with headers add up to 4096 per page, and the live blocks are exactly the pointers handed out and not freed, each with at least the bytes asked for |
| HeapRuns.HeldBytesAreApart | os/src/kernel/kalloc/kalloc.c:21-182 | at any point of any run the bytes asked for behind two pointers a caller still holds, and the headers before them, are apart, and each lie inside one page the heap holds |
| HeapRuns.BytesConserved | os/src/kernel/kalloc/kalloc.c:21-182 | live and free bytes, headers included, make up the pages held |
| HeapRuns.LiveAllocationsAreApart | os/src/kernel/kalloc/kalloc.c:78-102 | a live block lies in one held page, and two share no byte, headers included; the step from one state to `HeapRuns.HeldBytesAreApart` |
| HeapRuns.TwoSmallAllocations | os/src/kernel/kalloc/kalloc.c:21-103 | the state two smallest allocations on an empty heap lead to |
| HeapRuns.FreeingInOrderStrandsTheHead | os/src/kernel/kalloc/kalloc.c:166-178 | freeing those two in order gives the page back while the list still starts in it |
| Heap.MarkOf | os/src/kernel/kalloc/kalloc.c:131-136 | in a sound heap the low bit of a header's second word is set exactly for live blocks |
| Heap.LiveMemoryIsLeftAlone | os/src/kernel/kalloc/kalloc.c:21-182 | a header written by a call of the heap never lies in the bytes of a live allocation |
| Heap.Allocator.Kalloc | os/src/kernel/kalloc/kalloc.c:21-103 | the pointer code computes the first-fit allocation, serves its caller, and writes only headers of blocks of the new heap |
| Heap.Allocator.Normalise | os/src/kernel/kalloc/kalloc.c:24-30 | the two adjustments give the least size that holds the request |
| Heap.Allocator.Kfree | os/src/kernel/kalloc/kalloc.c:124-182 | the pointer code frees exactly the block, gives back exactly the page the model does, one the heap held with no other allocation in it, stays sound exactly when the head is not stranded, and changes nothing for null or a block already free |
| Heap.Allocator.TryCollide | os/src/kernel/kalloc/kalloc.c:110-122 | the header merge is the merge of neighbouring free blocks within a page |
| Heap.Allocator.FindBlock | os/src/kernel/kalloc/kalloc.c:43-76 | the search loop stops at the first block that fits, or at a page hooked in at its place |
| Heap.Allocator.AddFreePage | os/src/kernel/kalloc/kalloc.c:53-72 | a page is hooked into the linked list at its address order |
| Heap.Allocator.PutOnList | os/src/kernel/kalloc/kalloc.c:138-154 | the freed header is hooked into the linked list at its address order |
| Heap.Allocator.TakePart | os/src/kernel/kalloc/kalloc.c:88-100 | the split leaves the rest on the list in the block's place and marks the block used |
| Bits.ClearUndoesSetPage | os/src/kernel/pmm/pmm.c:49-70 | clearing a page's bit by or and xor undoes setting it, if it was clear |
| Bits.LowHigh | os/src/arch/x86/pmm/pmm.c:141-145 | the shifted byte masks keep exactly the bits before, respectively from, the offset |
| PhysicalMap.AllocTakesLowest | os/src/kernel/pmm/pmm.c:28-56 | the lowest-numbered free page is taken and only its bit changes |
| PhysicalMap.ZeroMeansNone | os/src/kernel/pmm/pmm.c:42-55 | address 0 means that no page is free, if and only if the page that would be taken is no multiple of 2^20 |
| PhysicalMap.FreeUndoesAlloc | os/src/kernel/pmm/pmm.c:28-77 | freeing the address just returned restores the bitmap, if and only if its page number is below 2^20 |
| PhysicalMap.PhysicalMemoryMap.FindFirstZero | os/src/kernel/pmm/pmm.c:7-20 | the first clear bit of a byte counted from the top, 0xff when there is none |
| PhysicalMap.PhysicalMemoryMap.AllocPage | os/src/kernel/pmm/pmm.c:28-56 | the byte scan and bit scan compute the allocation of the lowest free page |
| PhysicalMap.PhysicalMemoryMap.FreePage | os/src/kernel/pmm/pmm.c:64-77 | exactly the page's bit is cleared |
| PhysicalMap.PhysicalMemoryMap.MarkRangeAsUsable | os/src/arch/x86/pmm/pmm.c:121-166 | exactly the pages that lie inside the range become free, over the same-byte, two-byte and memset cases |
| PhysicalMap.InnerBounds | os/src/arch/x86/pmm/pmm.c:133-137 | base rounded up and end rounded down bound the pages inside a range |
| PhysicalMap.PhysicalMemoryMap.MarkRangeAsUsed | os/src/arch/x86/pmm/pmm.c:168-206 | exactly the pages that end behind the start of the range and start before its end become used |
| PhysicalMap.OuterBounds | os/src/arch/x86/pmm/pmm.c:172-176 | base rounded down and end rounded up bound the pages a range touches |
| PhysicalMap.ClearedPages | os/src/arch/x86/pmm/pmm.c:139-164 | byte masks and the filled gap clear exactly the pages of the range |
| PhysicalMap.SetPages | os/src/arch/x86/pmm/pmm.c:178-204 | byte masks and the filled gap set exactly the pages of the range |
| BootMap.CollidingMeansSharing | os/src/arch/x86/pmm/pmm.c:10-15 | the collision test of two non-empty ranges is that they share an address |
| BootMap.GetMaximumUsableAddress | os/src/arch/x86/pmm/pmm.c:17-35 | the greatest end of a usable entry, 0 when there is none |
| BootMap.SkipMissesNothing | os/src/arch/x86/pmm/pmm.c:81-95 | a jump past a range that was hit skips no place that would have done |
| BootMap.SkipProgresses | os/src/arch/x86/pmm/pmm.c:81-95 | the jump goes forward when the range is not empty; an empty one is hit again |
| BootMap.SkipReserved | os/src/arch/x86/pmm/pmm.c:79-106 | the inner loop ends at the lowest address from its start on that avoids all three reserved ranges |
| BootMap.FindBitmapPlace | os/src/arch/x86/pmm/pmm.c:37-118 | the lowest place in the first usable entry below 4 GiB with room: its bytes and the one behind it in the entry, its bytes in no byte of bootstrap, table, or kernel with four pages; failure only when no such entry has any place |
| BootMap.FitsIs | os/src/arch/x86/pmm/pmm.c:41-103 | the comparisons of the code say just that about bytes, with 24 bytes an entry of the table |
| BootMap.MarkUsableFromE820 | os/src/arch/x86/pmm/pmm.c:208-222 | exactly the pages inside some usable entry, cut to 32 bits, become free |
| BootMap.MarkReserved | os/src/arch/x86/pmm/pmm.c:281-292 | bootstrap, kernel with four pages, bitmap and page 0 become used, nothing else changes |
| BootMap.BehindIsLeftAlone | os/src/arch/x86/pmm/pmm.c:143-158 | the marks touch at most one byte behind the bitmap and never change it |
| BootMap.ArchPmmInit | os/src/arch/x86/pmm/pmm.c:229-296 | on success the bitmap lies at the chosen place; the page of every byte of bootstrap, kernel with four pages, and bitmap is marked used, and a page is free exactly when it is not page 0, one usable entry (cut to 32 bits) holds all its 4096 bytes, and none of them is reserved; it fails only when no entry has room |
| BootMap.BootBitmapInBytes | os/src/arch/x86/pmm/pmm.c:276-292 | the marks by pages amount to that statement about bytes |
| BootMap.LengthIsLeast | os/src/arch/x86/pmm/pmm.c:247-248 | the bitmap has a bit for every page up to the highest usable address, and a byte less would not do |
| BootMap.TruncationIsHarmless | os/src/arch/x86/pmm/pmm.c:216-219 | an entry cut to 32 bits frees the right pages if and only if it ends below 4 GiB or holds no whole page |
| BootMap.BootBitmapIsExact | os/src/arch/x86/pmm/pmm.c:208-296 | the free pages of the boot bitmap are exactly those the map itself calls usable and nothing reserves, if and only if no usable entry is changed by truncation |
| BootMap.LosesLastPage | os/src/arch/x86/pmm/pmm.c:216-219 | an entry that truncation changes has a page above 4 GiB that is usable, reserved by nothing, in the bitmap, and marked used |
| BootMap.SaysWhatMapDoes | os/src/arch/x86/pmm/pmm.c:208-296 | with no entry changed, each page of the bitmap says what the map does |
| PageTables.MasksAreArithmetic | os/include/arch/x86/vmm/types.h:31-41 | directory index, table index, frame address and present bit as used here are what the masks and shifts compute, on every 32-bit word |
| PageTables.FlagsAreOr | os/src/arch/x86/vmm/vmm.c:252-252 | the word written for an address is that address or'ed with the kernel flags 0x107, on every 32-bit word |
| PageTables.FlagsKeepFrame | os/src/arch/x86/vmm/vmm.c:252-252 | an address with the kernel flags is present and keeps its frame |
| PageTables.SlotSplits | os/src/arch/x86/vmm/vmm.c:137-143 | the address made from a kernel table index splits back into the kernel table and that index |
| PageTables.WindowOfTables | os/include/arch/x86/vmm/types.h:44-55 | entry j of table r, seen in the last 4 MiB, is the j-th word of the page that directory entry r leads to |
| PageTables.StartsOwned | os/src/kernel/vmm/vmm.c:23-43 | a table whose mapped pages have used frames of their own starts with exact ownership, the other used frames being reserved |
| PageTables.AllocKeepsOwnership | os/src/kernel/vmm/vmm.c:23-33 | `vmm_alloc_page` keeps every present entry owning a used frame of its own and every used frame accounted for, if and only if an empty entry meets a free frame with a 32-bit address, or neither an entry nor a frame is left; for bitmaps of any size |
| PageTables.FreeKeepsOwnership | os/src/kernel/vmm/vmm.c:35-43 | `vmm_free_page` keeps that ownership if and only if the page is mapped |
| PageTables.FreeUndoesAlloc | os/src/kernel/vmm/vmm.c:23-43 | a free of the address just returned restores table and bitmap exactly, if and only if there was a frame with a 32-bit address to take, and an entry for it or page 0 to take |
| PageTables.RunsKeepOwnership | os/src/kernel/vmm/vmm.c:23-43 | a run of page calls has exact ownership in every state if and only if every call met its condition |
| VirtualMemory.AddressSpace.FindUnusedPageKernel | os/src/arch/x86/vmm/vmm.c:118-145 | the address of the first empty kernel entry, 0 when there is none |
| VirtualMemory.AddressSpace.Map | os/src/arch/x86/vmm/vmm.c:236-255 | one entry is written, only when its table is present and the entry absent |
| VirtualMemory.AddressSpace.Dealloc | os/src/arch/x86/vmm/vmm.c:192-207 | one entry is cleared, only when its table is present; unless it is the directory's own, the address is absent afterwards and every other translation is unchanged |
| VirtualMemory.AddressSpace.AllocPage | os/src/kernel/vmm/vmm.c:23-33 | the new address translates to the frame just taken and every other translation is unchanged |
| VirtualMemory.AddressSpace.FreePage | os/src/kernel/vmm/vmm.c:35-43 | for every address the page behind it, or page 0, is marked free; outside the directory's window the address is absent afterwards and every other translation unchanged; for kernel pages and address 0 it is the free of the model |
| VirtualMemory.AddressSpace.FindRun | os/src/arch/x86/vmm/vmm.c:158-173 | the counting loop finds the lowest run of absent entries, or there is none |
| VirtualMemory.AddressSpace.MapCore | os/src/arch/x86/vmm/vmm.c:147-190 | the lowest long enough run of absent IO entries maps consecutive pages, counted modulo 2^32, and nothing else changes; 0 exactly when there is no run; with the IO table present each returned page translates to its frame from the base on, and every address outside the run translates as before |
| VirtualMemory.PagesForIsEnough | os/src/arch/x86/vmm/vmm.c:150-151 | the run has a page more than fits in the length if and only if the length is below 0xFFFFF000; otherwise none is mapped |
| VirtualMemory.ArchVmmInit | os/src/arch/x86/vmm/vmm.c:14-90 | the identity map is gone, the swap table is in and empty, the kernel table keeps the pages of the kernel and no others, everything else is as it was |
| VirtualMemory.MappedRunPointsAtBase | os/src/arch/x86/vmm/vmm.c:175-189 | the run translates to consecutive frames modulo 2^32; its start to the base itself if and only if the base is page aligned |
| KernelHeap.KallocKeepsInv | os/src/kernel/kalloc/kalloc.c:38-54 | `kalloc` on the real page allocator keeps heap, ownership and the backing of every heap page if and only if the pages this call asks for can be had |
| KernelHeap.KfreeKeepsInv | os/src/kernel/kalloc/kalloc.c:159-179 | `kfree` keeps them if and only if it does not strand the list head |
| KernelHeap.KfreeCanStep | os/src/kernel/kalloc/kalloc.c:165-177 | a page `kfree` gives back is always mapped, in the range of the bitmap |
| KernelHeap.OtherAllocKeepsInv | os/src/kernel/scheduler/proc.c:8-8 | a page taken by another part of the kernel keeps them if and only if it meets the condition of `vmm_alloc_page` |
| KernelHeap.OtherFreeKeepsInv | os/src/kernel/scheduler/scheduler.c:88-88 | a page given back by another part keeps them if and only if it was mapped and is not the heap's |
| KernelHeap.SupplyIsFresh | os/src/kernel/vmm/vmm.c:23-33 | the pages a call takes are page aligned, distinct and in no heap page, and are mapped afterwards with everything mapped before |
| KernelHeap.RunsKeepInv | os/src/kernel/kalloc/kalloc.c:21-182 | in a run of heap calls mixed with page calls by the rest of the kernel every state is sound if and only if every call met its condition |
| KernelHeap.HeapPageIsBacked | os/src/kernel/kalloc/kalloc.c:21-182 | in every state such calls lead to, a heap page is a mapped kernel page with a used frame that is not reserved |
| KernelHeap.HeapPagesAreBacked | os/src/kernel/kalloc/kalloc.c:21-182 | and different heap pages have different frames |
| KernelBoot.KernelSpace | os/src/arch/x86/vmm/vmm.c:14-90 | `arch_vmm_init` on the tables of the boot leaves a kernel table that maps exactly the loaded kernel, in a valid address space, and turns the page of the identity map into the empty swap table |
| KernelBoot.KernelStartsSound | os/src/arch/x86/pmm/pmm.c:281-292 | the bitmap of `arch_pmm_init` and that table are a sound start: exact ownership and an empty heap, everything used and not mapped being reserved |
| KernelBoot.TablesAreReserved | os/src/arch/x86/pmm/pmm.c:286-289 | the pages of the bitmap and the four pages behind the kernel are among the reserved ones |
| KernelBoot.TablesAreNeverHandedOut | os/src/kernel/kalloc/kalloc.c:21-182 | no run of legal calls from the boot on gives the heap a page that holds the bitmap or the page tables |
| SchedModel.TickShape | os/src/kernel/scheduler/scheduler.c:61-98 | a tick either counts for the running process or, at the 300th with company, resets it and runs its successor |
| SchedModel.TickKeepsInv | os/src/kernel/scheduler/scheduler.c:61-98 | ids stay distinct, the running process listed, all others at 0; with two processes the running one stays below 300 |
| SchedModel.ExitKeepsInv | os/src/kernel/scheduler/scheduler.c:120-132 | exit keeps a running process if and only if there is another |
| SchedModel.KillKeepsInv | os/src/kernel/scheduler/scheduler.c:52-58 | kill keeps a running process if and only if it is not the victim |
| SchedModel.AddKeepsInv | os/src/kernel/scheduler/scheduler.c:42-50 | adding keeps ids distinct and below the counter if and only if the counter does not wrap |
| SchedModel.AddKeepsReady | os/src/kernel/scheduler/scheduler.c:42-50 | before the start, adding keeps the scheduler ready |
| SchedModel.KillKeepsReady | os/src/kernel/scheduler/scheduler.c:52-58 | before the start, so does a kill |
| SchedModel.StartIsSound | os/src/kernel/scheduler/scheduler.c:100-117 | start leads to a sound state if and only if a process was added |
| SchedRuns.StepKeepsInv | os/src/kernel/scheduler/scheduler.c:42-132 | a call on a running scheduler keeps the invariant if and only if its condition held |
| SchedRuns.RunsAreSafe | os/src/kernel/scheduler/scheduler.c:42-132 | every state of a run is sound or not yet started, and below the quantum while a running process has always had company |
| SchedRuns.ReachableIsSound | os/src/kernel/scheduler/scheduler.c:23-132 | the same for every run from `scheduler_init` through adds, kills, the start and everything after it |
| SchedLedger.TableIsLedger | os/src/kernel/scheduler/scheduler.c:23-132 | in every state of every run from `scheduler_init` the table lists exactly the processes added and neither killed nor gone, the k-th added under id k, each with the stack and priority it was added with |
| SchedLedger.FirstAddedRunsFirst | os/src/kernel/scheduler/scheduler.c:103-114 | the start runs the process added first, whatever was added or killed behind it |
| SchedLedger.HeadRunsFirst | os/src/kernel/scheduler/fifo.c:92-96 | after kills of the first ones too, the start runs whoever became the head, whatever was added behind it |
| SchedRuns.WaitingIsBounded | os/src/kernel/scheduler/fifo.c:89-131 | from every sound state a process waits less than (n-1+a)*300 ticks, n processes listed at the start and a added since, whoever exits or is killed; one tick more if and only if the run starts at a count of 0xFFFFFFFF; and always less than its wait at the start plus 300 for each arrival |
| SchedRuns.LongestWait | os/src/kernel/scheduler/scheduler.c:65-65 | no wait is longer than n-1 quanta if and only if the running process's count is not 0xFFFFFFFF, which the next tick wraps |
| SchedRuns.RunsOnTime | os/src/kernel/scheduler/scheduler.c:61-98 | with nobody coming or leaving a waiting process runs after exactly its wait and not before, so the bounds are met |
| SchedRuns.FullCountWaitsLonger | os/src/kernel/scheduler/scheduler.c:65-65 | a process alone for 2^32 - 1 ticks and another one added: the newcomer waits 301 ticks |
| SchedRuns.TickTakesOne | os/src/kernel/scheduler/scheduler.c:61-98 | a tick takes exactly one off every wait, or runs the process whose wait was one |
| SchedRuns.StepBringsNearer | os/src/kernel/scheduler/scheduler.c:61-98 | each tick lowers the ticks left to wait by one, no departure raises them, an arrival raises them by 300 at most |
| SchedRuns.AddSetsBack | os/src/kernel/scheduler/fifo.c:56-61 | a process added behind the first one sets back by exactly one quantum those it overtakes, and nobody else; those are the ones not first in the list when the first one runs, or one behind them does |
| SchedRuns.OneQuantum | os/src/kernel/scheduler/fifo.c:112-131 | 300 ticks from a switch run the same process and end with its successor running |
| SchedRuns.EqualShares | os/src/kernel/scheduler/scheduler.c:61-98 | with a fixed list of n at least 2, 300*n ticks from a switch give each process exactly 300 and end where they began |
| Scheduler.RoundRobin.GetByPid | os/src/kernel/scheduler/fifo.c:13-23 | the node of the first process with the id, null when there is none |
| Scheduler.RoundRobin.NextAfter | os/src/kernel/scheduler/fifo.c:89-110 | the process of the next node round the list, the head for null, null for a process not listed |
| Scheduler.RoundRobin.Enqueue | os/src/kernel/scheduler/fifo.c:31-64 | the new node becomes the second of the list, or the only one |
| Scheduler.RoundRobin.Dequeue | os/src/kernel/scheduler/fifo.c:66-87 | exactly the node of the process leaves the list; 1 and no change when it is not listed |
| Scheduler.RoundRobin.AddProcess | os/src/kernel/scheduler/scheduler.c:42-50 | adding on the linked list is adding on the sequence, with the next id |
| Scheduler.RoundRobin.KillProcess | os/src/kernel/scheduler/scheduler.c:52-58 | killing on the linked list is removal from the sequence |
| Scheduler.RoundRobin.Schedule | os/src/kernel/scheduler/scheduler.c:76-98 | the successor found before a removal runs, and the count of the process left behind restarts |
| Scheduler.RoundRobin.Tick | os/src/kernel/scheduler/scheduler.c:60-74 | a tick on the linked list is a tick of the model |
| Scheduler.RoundRobin.Start | os/src/kernel/scheduler/scheduler.c:100-117 | the head of the list runs, or nobody |
| Scheduler.RoundRobin.ExitCurrent | os/src/kernel/scheduler/scheduler.c:120-132 | an exit on the linked list is an exit of the model |
| Context.Cpu.SwitchContext | os/src/arch/x86/scheduler/context_switch.asm:6-30 | the pushes, the two stack pointer moves and the pops compute the switch |
| Context.Cpu.PrepareStack | os/src/arch/x86/scheduler/proc.c:3-16 | what a switch would restore from the frame is the entry, flags 0x202, zeros and a stack pointer to the exit routine; no word outside the frame changes |
| Context.Cpu.CreateProcess | os/src/kernel/scheduler/proc.c:5-21 | with a page, such a frame at its top and nothing changed outside it; without one, 0 and nothing changed |
| Context.SwitchWrites | os/src/arch/x86/scheduler/context_switch.asm:9-23 | a switch writes below its own stack pointer and one saved pointer; every other process's stack and saved pointer are untouched |
| Context.FrameIsStruct | os/include/kernel/scheduler/types.h:37-45 | the words pushed are the fields of `struct sched_frame` in order, the return address above them |
| Context.SuspendSaves | os/src/arch/x86/scheduler/context_switch.asm:9-18 | the frame left behind holds the registers the caller will see |
| Context.RunKeepsStack | os/src/arch/x86/scheduler/context_switch.asm:6-30 | no step of anybody else changes a suspended process's stack, over any run |
| Context.ResumesWhereItStopped | os/src/arch/x86/scheduler/context_switch.asm:6-30 | a suspended process resumes with the registers, flags, stack pointer and return address it had, over any interleaving |
| Context.StartsAtEntry | os/src/arch/x86/scheduler/proc.c:3-16 | a new process first runs at its entry with flags 0x202, bits 1 and 9, and its return leads to the exit routine |
| Context.FirstFlagsAre | os/src/arch/x86/scheduler/proc.c:11-11 | in the first flags bits 1 and 9 are set and no others |
| Context.CreatedFrame | os/src/kernel/scheduler/proc.c:5-21 | a frame on a fresh stack page and its address in a fresh block make a process the switch can resume, and leave every other process as it was |
| Loader.RoundingIsExact | bootloader/stage2.asm:515-519 | adding 511 and dividing by 512 gives the fewest sectors that hold a size, if and only if the 32-bit sum does not wrap |
| Loader.DivideBy512 | bootloader/stage2.asm:521-528 | nine shifts through the carry divide the two-word number by 512 |
| Loader.SectorsPending | bootloader/stage2.asm:515-551 | more sectors are loaded exactly when there are more than two, and then two fewer than there are |
| Loader.PlacementIsContiguous | bootloader/stage2.asm:173-187 | the sectors land one behind the other if and only if one read did it all, or there is no offset and the last read's segment still fits 16 bits |
| Loader.LoadSectorsLba | bootloader/stage2.asm:117-196 | chunks of at most 127 place sectors lba, lba+1, ... at segments counted modulo 2^16; all of them and success exactly when all are on the disk, otherwise the whole chunks that are |
| Loader.CountDown | bootloader/stage2.asm:173-175 | the two-word count goes down by the sectors read |
| Loader.StepSegment | bootloader/stage2.asm:182-184 | the 16-bit segment moves behind the sectors read |
| Loader.PlaceSector | bootloader/stage2.asm:353-360 | a sector is placed where the segment and offset point, and they move behind it |
| Disk.NumberInverts | bootloader/stage2.asm:304-320 | dividing a sector number gives back the position it was made from |
| Disk.FromNumberOnDisk | bootloader/stage2.asm:304-320 | the divided sector number is a position with that number, on the disk exactly when the number is |
| Disk.SuccessorCounts | bootloader/stage2.asm:362-381 | the carries lead to the next sector number, and off the disk exactly behind the last one |
| Loader.Advance | bootloader/stage2.asm:362-383 | the byte and word steps are the carries, the cylinder modulo 2^16; the end is reported exactly when the carry leads to a cylinder the disk does not have |
| Loader.LbaToChs | bootloader/stage2.asm:300-322 | the first position is the divided sector number, for every 16-bit start |
| Loader.SteppedIsDivided | bootloader/stage2.asm:362-381 | on the disk the position stepped by carries is the position the next sector number divides to |
| Loader.ReadsOnDisk | bootloader/stage2.asm:326-391 | from a sector on the disk the loop reads sectors lba, lba+1, ... up to the end of the disk, with success exactly when none was asked for or one more sector is left behind them |
| Loader.ReadsWhatWasAsked | bootloader/stage2.asm:335-343 | what the loop reads is what was asked for if and only if nothing was, it starts on the disk, or the start cylinder's low ten bits name no cylinder |
| Disk.PackingInverts | bootloader/stage2.asm:335-343 | the packed registers name the position if and only if the cylinder is below 1024 |
| Disk.PackingIsMasks | bootloader/stage2.asm:338-342 | ch and cl as used here are what mask, shift and or compute, on every word |
| Disk.GeometryIsRead | bootloader/stage2.asm:208-242 | the geometry is read back exactly if and only if there are fewer than 256 heads |
| Loader.LoadSectorsChs | bootloader/stage2.asm:262-391 | the result and the placement are those of the run of positions from the divided start, every start and count, segments modulo 2^16 |
| Loader.ChsLoop | bootloader/stage2.asm:326-391 | the register loop reads and places what the run of positions does, for any BIOS |
| BothLoaders.LoadersAgree | bootloader/stage2.asm:117-391 | for every start on the disk, what the two loops have placed is the same if and only if the request ends on the disk or the disk ends with a chunk of 127, and at most one sector is read, or there is no offset and no chunk passes the top of the 16-bit segments |
| BothLoaders.LoadersAgreeBehind | bootloader/stage2.asm:117-391 | behind the end of the disk it is the same if and only if nothing is asked for or the start cylinder's low ten bits name no cylinder |
| BothLoaders.ReportsAgree | bootloader/stage2.asm:117-391 | both report the same if and only if nothing is asked for or the last sector asked for is not the disk's last |
| BothLoaders.LoadersPartAtTheEnd | bootloader/stage2.asm:117-391 | 201 sectors of a disk of 200: one loop places 127, the other 200 |
| ConsoleModel.NewRow | os/src/kernel/printk/printk.c:71-81 | a new row on the canvas scrolls the screen exactly when the cursor was on its last line |
| ConsoleModel.PutCharShowsCanvas | os/src/kernel/printk/printk.c:104-123 | putting a character on the screen shows the window of the canvas written with it |
| ConsoleModel.ScreenShowsCanvas | os/src/kernel/printk/printk.c:42-145 | after every stream the screen shows the last 25 rows of the unbounded canvas, cursor included |
| ConsoleModel.FinishedRowsStay | os/src/kernel/printk/printk.c:104-123 | rows above the cursor's never change |
| Console.Terminal.ClearLine | os/src/kernel/printk/printk.c:23-30 | one line blank, the others as they were |
| Console.Terminal.ScrollScreen | os/src/kernel/printk/printk.c:42-57 | the in-place line copies move the screen up without overwriting what is still to be moved |
| Console.Terminal.AdvanceLine | os/src/kernel/printk/printk.c:71-81 | the cursor starts the next line, the screen scrolling at the last one |
| Console.Terminal.AdvanceCharN | os/src/kernel/printk/printk.c:83-96 | the cursor moves on, over the edge and the last line |
| Console.Terminal.PutChar | os/src/kernel/printk/printk.c:104-123 | one character in video memory is one character of the model |
| Console.Terminal.PrintStr | os/src/kernel/printk/printk.c:138-145 | a string in video memory is the model's stream |

## Left out

- Heap.Allocator.Kalloc: requires n at most 0xFFFFFFF6; a request above it writes a header inside its own block, which headers by address do not show. That the promise fails for all of those is `HeapTheorems.AllocMeetsContract`.
- Heap.Allocator.Kfree: the pointer must be null, one `kalloc` returned, or one whose header is still marked free; what other memory happens to hold is not modelled.
- BootMap.ArchPmmInit: usable entries beginning below 4 GiB must end a page short of it, those above must not wrap when cut, and reserved ranges must end below the highest usable address (`BootOk`); the kernel is given by its start and size; `n_pages` and the reset of the virtual address to 0 are not modelled.
- SchedRuns.WaitingIsBounded: exits happen only with company and the running process is not killed, since neither leaves a sound state; a killed process no longer waits.
- Scheduler.RoundRobin.Enqueue: the copies and nodes come from `new`, so the two `kalloc` failures inside enqueue and the `kfree` calls inside dequeue are not modelled.
- Scheduler.RoundRobin.Schedule: ends before the register switch, which is in `Context`; the release of an exiting process's stack page is not modelled.
- Scheduler.RoundRobin.ExitCurrent: a `current` that leads to a process no longer listed is excluded.
- Context.ResumesWhereItStopped: stack pages and control blocks are fixed over a run, so the reuse of an exited process's page is not modelled.
- KernelBoot.KernelSpace: the tables `kstart.asm` builds are a precondition; `arch_vmm_alloc_page_table` is not modelled.
- KernelHeap.KallocKeepsInv: requests above 0xFFFFFFF6, as for `Heap.Allocator.Kalloc`.
- Scheduler.RoundRobin.Tick: a `current` that leads to a process no longer listed is excluded; its block has been given back to the heap.
- VirtualMemory.AddressSpace.FreePage: the page number must lie in the bitmap.
- PhysicalMap.PhysicalMemoryMap.MarkRangeAsUsable: the range must end below 4 GiB and in the bitmap; beyond, the 32-bit sums wrap and the marks leave the bitmap.
- PhysicalMap.PhysicalMemoryMap.MarkRangeAsUsed: the same for the rounded end.
- BootMap.SkipReserved: the bootstrap range must not be empty; an empty one is hit again for ever (`BootMap.SkipProgresses`).
- BootMap.FindBitmapPlace: the same.
- BootMap.MarkUsableFromE820: maps that meet `BootOk`, as for `BootMap.ArchPmmInit`.
- BootMap.MarkReserved: reserved ranges that meet `BootOk`, as for `BootMap.ArchPmmInit`.
- BootMap.TruncationIsHarmless: cut base and cut length must not add up past 32 bits; the marks then wrap.
- Console.Terminal.AdvanceCharN: steps of 0 to 80; the callers step by 1 and 4.
- Loader.LoadSectorsChs: at most 255 heads and 63 sectors, as `Disk.GeometryIsRead` shows the loader can know; with 256 heads it divides by 0.
- Loader.LoadSectorsLba: a start sector is 16 bits wide, as the argument is; a chunk is placed at consecutive linear addresses.
- Port input and output, the interrupt controller, the timer, the descriptor tables and interrupt stubs: a timer interrupt is one step of the scheduler.
- TLB and cr3 reloads, A20, protected-mode entry and `kstart.asm`: processor behaviour outside the model.
- Interrupts in the middle of a heap or page call: the code has no locking, and each call is one step.
- BIOS retries, error codes, capability queries and the drive number: the disk is abstract and a read fails exactly when it leaves the disk.
- Keyboard tables and the input buffer, number and format printing, `remove_char` and the cursor ports of the console.
- Priority and status of a process: stored but never read, so nothing depends on them.
- Functions that are declared only or return a constant: `pmm_alloc_pages`, `vmm_unmap`.
- `stage1.asm` and the legacy boot files.
