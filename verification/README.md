# A verified model of a small teaching kernel

This project models the hard core of the kernel in Dafny and proves what its parts promise: the virtual
memory system, the heap, the blocking primitives and the scheduler, signal delivery, and the path from
`read` down to the disk.

Code that changes things step by step is modelled twice. A pure function says what an operation does
to a value, and theorems are proved about that function. A class or a method with loops does the work in
place, and its contract says that it computes exactly that function. A protocol is a transition
function over the steps of any number of events, and what is proved of it holds in every state of every
run and for every interleaving. `None` stands for a panic.

## What is proved

**Virtual memory** (`PhysMem`, `Ownership`, `Paging`, `Mapping`, `Unmapping`, `Forking`, `Views`,
`Startup`, `AddressSpaces`, `Processes`, `FrameCounts`, `KernelRange`, `Protection`, `KernelMemory`). Directories, page tables, pages and the links of the free
list all live in one physical memory. A book gives each issued frame one owner. Over every run from power-on
of address space creation, `simple_mmap`, `simple_munmap`, page faults, stores by user code, `fork` and `exit`
the book stays true: a frame is free, or global, or a directory, or one table, or one page. Fork copies
exactly, unmapping is exact, a page fault adds one page, no step of one process changes
what another one sees, and user code reaches its own pages and the shared page and nothing else. The kernel
reaches all of memory through every address space exactly on machines of a certain size. To processes, every
run is one of a machine without frames and tables, where each has regions and a memory of its own and fork
copies them; a step succeeds exactly when the frames it needs are left. Page tables follow 32-bit paging with 4 KB pages (Intel SDM volume 3A, sections 4.3 and 4.6).

**Region lists** (`Regions`, `VmeQueue`). The doubly linked list stays sorted, disjoint, page aligned and
private. First fit finds the lowest address with room, in 32-bit arithmetic.

**Heaps** (`HeapBlocks`, `HeapSearch`, `HeapRuns`, `HeapArray`, `KernelHeap`, `WordBytes`, `Realloc`,
`Overruns`, `HeapRequests`, `UserHeap`). Over every run of `malloc`, `free` and client stores the blocks tile the array, the tags agree,
the free list holds exactly the free blocks, no two free blocks touch, and the count is the number of live
blocks. `malloc` answers null exactly when no free block has room. `malloc` then `free` restores the tiling. `realloc` keeps the bytes, and its copy stays in the new
block exactly under a condition that the caller can check.

**Blocking** (`Semaphores`, `EventQueues`, `BoundedBuffers`, `Futures`, `Scheduling`, `Joining`, `Accounts`,
`Families`). Events are granted first come, first served. A pipe never
holds more than n values, delivers them in order and once each, and settles into a state that depends only
on how many puts and gets were made. A future runs every callback once with the value that was set. Each
live process is in exactly one place on any number of cores, and `join` returns only after the child has
exited, with the value of its one call of `exit`. Every semaphore is worth what the calls on it add up to, and
no join of an exited process is left waiting when the event loop has nothing to do.

**Signals** (`Signals`). A process interrupted by a signal, a tick or a call goes on exactly where it was,
however often it is preempted meanwhile; each process acts on at most one kill.

**Reading** (`Blocks`, `BlockReads`, `BlockMaps`, `FileReads`, `SharedOffsets`, `CacheLists`, `BlockCache`). `read_all` is a slice, also through
the block map of an ext2 inode ("The Second Extended File System: Internal Layout", inode table, `i_block`).
Successive reads are consecutive. Calls that overlap in time stay within the file in every interleaving
exactly when the file is long enough for what they would each get alone. The cache agrees with the disk and holds the sixteen most recently read
blocks.

## Where the code and its documentation differ

The model follows the code. The theorems named say exactly when the two agree; the last three points are
statements of what the code does.

- `simple_mmap` is documented to refuse a region that intersects a mapping. At a given address it also
  refuses a free range that ends where a mapping starts or where the private range ends
  (`AddressSpaces.MmapAgreesWhen`, `AddressSpaces.MmapRefusesFreePages`, `Regions.GuardIsExactWhen`).
- `fork` says that it shares all of kernel space. It shares whole 4 MB pieces of memory only, and there are
  32 tables to share, so the child maps all of memory exactly when its size is a multiple of 4 MB and at most
  128 MB (`KernelRange.ChildMapsAllMemoryWhen`, `KernelRange.ChildLosesTheTail`,
  `KernelRange.NobodyMapsTheTail`).
- `kill` is documented to fail exactly for a child that has exited. It fails exactly for a child that was sent
  a kill before (`Signals.KillAnswersWhen`, `Signals.KillOfAnExitedChild`, `Signals.KillOfALiveChild`).
- `Future::is_set` is false of a future that has been set while a wakeup is on its way
  (`Futures.IsSetWhen`, `Futures.IsSetMissesASetFuture`).
- A buffer with no slots can get stuck with a putter and a getter both blocked; a buffer with slots cannot
  (`BoundedBuffers.StuckWhen`).
- `malloc` grants too small a block for the three largest requests, where its sum wraps around
  (`HeapRuns.MallocKeeps`, `HeapRuns.HugeRequestGetsFourWords`).
- The copy in `realloc` can then leave the new block and change other blocks. Its stores stay inside exactly
  under `Realloc.CopyFits` (`Realloc.ReallocStoresInsideWhen`, `Overruns.ReallocClobbers`).
- The kernel heap calls itself first-fit. It takes the best of the first twenty fits, which is the first
  exactly when none of the others is smaller (`HeapSearch.BestFit`, `HeapSearch.BestIsFirstWhen`).
- Processes that share an offset are meant to read on from one another. When their calls overlap, they can
  take bytes beyond the end and take the same bytes twice (`SharedOffsets.WithinWhen`,
  `SharedOffsets.PassesTheEnd`, `SharedOffsets.ReadsTwice`).
- `realloc` that finds no room frees the old block all the same (`Realloc.ReallocKeeps`).
- `read_all` of no bytes answers 0 also beyond the end, where -1 is documented (`BlockReads.ReadAll`).
- `exit` gives back the pages and tables of an address space and keeps its directory
  (`Views.FreeSpaceExact`).

## Model

| member | source | states |
|---|---|---|
| `Ownership.AllocKeeps` | kernel/physmem.cc:19-40 | a frame handed out had no owner, comes off the front of the free list or off the bump pointer, is zero, and every other frame keeps owner and contents |
| `Ownership.FreeKeeps` | kernel/physmem.cc:42-50 | a frame in hand that is returned goes to the front of the acyclic free list threaded through the frames; nothing else changes |
| `Ownership.EntryFrame` | kernel/vmm.cc:111-125 | a table entry made from a frame and flags names that frame and is present exactly when bit 0 of the flags is set |
| `Ownership.LinkTableKeeps` | kernel/vmm.cc:117-121 | putting a zeroed frame into an empty directory slot makes it that slot's table and keeps the invariant |
| `Ownership.LinkPageKeeps` | kernel/vmm.cc:127-132 | putting a frame into an empty table slot makes it that page and keeps the invariant |
| `Ownership.UnlinkPageKeeps` | kernel/pcb.h:111-116 | clearing a table entry leaves its frame in hand, owned by nobody else |
| `Ownership.UnlinkTableKeeps` | kernel/pcb.h:118-121 | clearing a directory entry whose table has no page left leaves the table's frame in hand |
| `Mapping.MapPageGrows` | kernel/vmm.cc:111-133 | lazy mapping adds at most one table and one page, zero filled, to one address space and changes no other page anywhere |
| `Views.FaultExact` | kernel/vmm.cc:111-133 | after a page fault the address translates, a new page reads zero, and every other private page of every address space is the same frame with the same words |
| `Unmapping.ReleasePagesFrees` | kernel/pcb.h:110-117 | the inner loop returns exactly the present pages of a range of one table |
| `Unmapping.UnmapFrees` | kernel/pcb.h:90-125 | the frames returned are exactly those of the present pages of the range and of the tables whose whole 4 MB lie in it |
| `Views.UnmapExact` | kernel/pcb.h:90-125 | afterwards no address of the range translates, every other private address of every process keeps translation and contents, and the new owner of every frame is stated |
| `Unmapping.FreeSpaceIsUnmap` | kernel/vmm.cc:64-83 | freeing an address space is unmapping its whole private range |
| `Views.FreeSpaceExact` | kernel/vmm.cc:64-83 | freeing an address space returns all its pages and tables, keeps its directory, and changes no other address space |
| `Forking.ForkPagesCopy` | kernel/sys.cc:208-224 | copying one table gives the child a fresh frame with the same words for each present page |
| `Forking.ForkFromCopy` | kernel/sys.cc:199-226 | the outer loop mirrors every private slot of the parent in the child and changes nothing that existed |
| `Forking.ForkCopies` | kernel/sys.cc:184-231 | fork keeps the invariant, makes one fresh directory, and mirrors the parent's private range |
| `Views.ForkExact` | kernel/sys.cc:184-231 | the child translates a private address exactly when the parent does, reads the same word from a frame that was not in use, through tables that were not in use, every existing address space is unchanged, and the shared entries are the parent's |
| `Views.NoSharing` | kernel/vmm.cc:111-133 | two private pages that are the same frame are the same page of the same address space |
| `Startup.GlobalInitBuilds` | kernel/vmm.cc:23-48 | from any memory, initialisation builds the shared, APIC and identity tables and every issued frame has one owner |
| `Startup.CoreInitBuilds` | kernel/vmm.cc:50-62 | a core's directory maps the kernel, APIC and shared tables and nothing private |
| `Startup.KernelIdentity` | kernel/vmm.cc:38-47 | a kernel address above the first page translates to itself |
| `AddressSpaces.MmapExact` | kernel/sys.cc:467-518 | a successful call adds one region at the address asked for or at the lowest address with room; a failing one changes nothing; for address 0 it succeeds exactly when a range of that size fits, and at a given address exactly when the range is free, private and aligned and ends neither at a region nor at the end of the private range |
| `AddressSpaces.MmapAtWhen` | kernel/sys.cc:478-493 | exactly when a call at a given address succeeds |
| `AddressSpaces.MmapAgreesWhen` | kernel/sys.cc:478-493 | it does what is documented exactly unless the range is free and ends at a region or at the end of the private range |
| `AddressSpaces.MmapRefusesFreePages` | kernel/sys.cc:478-493 | the last private page and the page below the initial stack are free and refused |
| `AddressSpaces.FirstPage` | kernel/sys.cc:467-518 | the first page that a new process maps lies at 0x80000000 |
| `AddressSpaces.BootKeeps` | kernel/vmm.cc:50-62 | a new address space keeps the machine's invariant |
| `AddressSpaces.MmapKeeps` | kernel/sys.cc:467-518 | mapping keeps it |
| `AddressSpaces.MunmapKeeps` | kernel/sys.cc:549-559 | unmapping keeps it: no page is left outside the regions |
| `AddressSpaces.FaultKeeps` | kernel/vmm.cc:87-133 | a page fault keeps it: pages appear only inside regions |
| `AddressSpaces.UserStoreKeeps` | kernel/vmm.cc:111-133 | a store by user code changes one word of one page of one process and no table |
| `AddressSpaces.ForkKeeps` | kernel/sys.cc:184-243 | fork keeps it |
| `AddressSpaces.ExitKeeps` | kernel/sys.cc:30-38 | exit keeps it |
| `AddressSpaces.StepKeeps` | kernel/vmm.cc:64-133 | every modelled step keeps frame ownership, region lists, page placement and kernel mappings |
| `AddressSpaces.RunKeeps` | kernel/physmem.cc:19-50 | so does every run |
| `AddressSpaces.EveryRun` | kernel/vmm.cc:23-133 | so does every run from power-on, for any memory and configuration |
| `AddressSpaces.StepIsolated` | kernel/sys.cc:184-231 | no step of one process changes what another one translates or reads |
| `Processes.BootSeen` | kernel/pcb.h:82 | the first process has a stack of a megabyte below 0xF0000000 and no memory; nothing else changes for anybody |
| `Processes.MunmapOwn` | kernel/sys.cc:549-559 | unmapping a region takes exactly its addresses out of the memory that the process sees |
| `Processes.FaultOwn` | kernel/vmm.cc:111-133 | a page fault adds the one page, zero where it was not there |
| `Processes.StoreOwn` | kernel/vmm.cc:111-133 | a store changes the one word, and nothing where nothing is mapped |
| `Processes.ForkSeen` | kernel/sys.cc:184-264 | fork adds one process, whose regions and memory are the parent's |
| `Processes.ExitSeen` | kernel/sys.cc:30-38 | exit takes out the one process |
| `Processes.StepSeen` | kernel/sys.cc:184-264 | every step of the machine is the step of its processes, which know regions and memory only: a process changes itself, forks a copy, or exits |
| `Processes.EveryRunSeen` | kernel/vmm.cc:23-133 | so is every run from power-on: physical memory is never seen |
| `FrameCounts.FaultWhen` | kernel/vmm.cc:111-133 | a page fault succeeds exactly when a frame is left for the table and one for the page, where they are missing |
| `FrameCounts.ForkWhen` | kernel/sys.cc:184-231 | fork succeeds exactly when a frame is left for a directory and for each table and page of the parent |
| `FrameCounts.StepWhen` | kernel/physmem.cc:19-40 | in every state a step succeeds exactly when the frames it needs are left |
| `KernelRange.KernelAddress` | kernel/vmm.cc:38-60 | in every state and directory a kernel address is mapped to itself below memSize rounded down to 4 MB and below 128 MB, and nothing is mapped from 128 MB to the private range |
| `KernelRange.KernelRights` | kernel/vmm.cc:38-55 | the kernel may write its pages and user code may not use them |
| `KernelRange.DevicePage` | kernel/vmm.cc:31-57 | through every directory both interrupt controllers are mapped to themselves, uncached and for the kernel alone, when they lie in the same 4 MB |
| `KernelRange.ChildKernelAddress` | kernel/sys.cc:189-195 | a forked address space maps a kernel address exactly when its 4 MB lie wholly below memSize and below 128 MB |
| `KernelRange.ChildMapsAllMemoryWhen` | kernel/sys.cc:189-195 | for any parent, forked or first, the child maps all of memory exactly when the memory size is a multiple of 4 MB and at most 128 MB |
| `KernelRange.GlobalInitWhen` | kernel/vmm.cc:23-48 | global initialisation of a fresh allocator succeeds exactly when it has 35 frames |
| `KernelRange.StartsWhen` | kernel/init.cc:37-107 | start-up succeeds exactly with 35 frames above 6 MB |
| `KernelRange.FirstFork` | kernel/init.cc:104-107 | on every machine with 37 frames above 6 MB, start-up, the first address space and its fork succeed |
| `KernelRange.ChildLosesTheTail` | kernel/sys.cc:189-195 | with 10 MB the first process maps the last byte of memory and its child does not |
| `KernelRange.NobodyMapsTheTail` | kernel/vmm.cc:50-60 | with 132 MB neither maps the byte at 128 MB |
| `KernelRange.DirectoryReaches` | kernel/physmem.cc:37 | on a machine of whole tables every directory maps every frame but the first to itself |
| `KernelRange.EveryFrameReached` | kernel/physmem.cc:19-50 | so in every run from power-on on such a machine every frame in use is reached through every directory |
| `KernelRange.KernelReachesAllWhen` | kernel/sys.cc:189-195 | every process of every run lets the kernel reach all of memory exactly when memory is a multiple of 4 MB and at most 128 MB |
| `Protection.PrivateIsOpen` | kernel/vmm.cc:117-132 | a present private page is open to its process for reading and writing |
| `Protection.OutsideIsGuarded` | kernel/vmm.cc:50-60 | outside the private range user code can use the shared page and nothing else |
| `Protection.UserReaches` | kernel/vmm.cc:50-133 | in every state of every run user code reaches exactly the present pages of its own regions and the shared page |
| `Protection.UserReachesFrame` | kernel/vmm.cc:50-133 | the frame it reaches is a page of its own or the shared page, never a directory, a table, a free frame or a page of another process |
| `KernelMemory.Memory.AllocFrame` | kernel/physmem.cc:19-40 | the in-place allocator computes the specified state, or reports exhaustion exactly when there is no frame |
| `KernelMemory.Memory.DeallocFrame` | kernel/physmem.cc:42-50 | the in-place return of a frame computes the specified state |
| `KernelMemory.Memory.MapPage` | kernel/vmm.cc:111-133 | the in-place fault handler computes `Paging.MapPage` |
| `KernelMemory.Memory.ReleasePages` | kernel/pcb.h:110-117 | the in-place loop computes `Paging.ReleasePages` |
| `KernelMemory.Memory.Unmap` | kernel/pcb.h:90-125 | the in-place nested loops compute `Paging.Unmap` |
| `KernelMemory.Memory.FreeSpace` | kernel/vmm.cc:64-83 | the in-place nested loops compute `Paging.FreeSpace` |
| `KernelMemory.Memory.CopyWords` | kernel/sys.cc:218-222 | the copy loop makes one frame's words those of another |
| `KernelMemory.Memory.CopyPages` | kernel/sys.cc:208-224 | the loop over a table computes `Paging.ForkPages` |
| `KernelMemory.Memory.CopyPrivate` | kernel/sys.cc:199-226 | the loop over the directory computes `Paging.ForkFrom` |
| `KernelMemory.Memory.Fork` | kernel/sys.cc:184-231 | the whole in-place copy computes `Paging.Fork` |
| `KernelMemory.Memory.PerCoreInit` | kernel/vmm.cc:50-62 | the in-place set-up of a directory computes `Startup.CoreInit` |
| `Regions.FirstFitIsLowest` | kernel/queue.h:225-249 | with start 0 the list yields the lowest address whose whole range is free and private, and 0 exactly when there is none, with 32-bit sums |
| `Regions.AddAnywhereKeeps` | kernel/queue.h:225-274 | such an addition keeps the list well formed and covers exactly one range more |
| `Regions.AddAtKeeps` | kernel/queue.h:250-274 | so does an addition of a free range at a given address |
| `Regions.IntersectsWhen` | kernel/queue.h:214-223 | the guard is true exactly when the range overlaps a region or ends where one starts |
| `Regions.GuardIsExactWhen` | kernel/queue.h:214-223 | the guard says "overlaps" exactly unless the range ends at a region while overlapping none |
| `Regions.GuardRefusesAFreePage` | kernel/queue.h:214-223 | the page below the initial stack is free and refused |
| `Regions.RemoveExact` | kernel/queue.h:276-299 | removal takes out the one region that holds the address and keeps the list well formed; it fails exactly when there is none |
| `Regions.DeepCopyIs` | kernel/queue.h:301-309 | the copy has the same regions in the same order |
| `Regions.ContainsRangeExact` | kernel/queue.h:312-328 | true exactly when every address of the range lies in a region |
| `VmeQueue.VmeQueue.IntersectsQueue` | kernel/queue.h:214-223 | the walk over the linked list computes `Regions.Intersects` |
| `VmeQueue.VmeQueue.AddVme` | kernel/queue.h:225-274 | the in-place insertion computes `Regions.AddVme` and keeps the list linked both ways |
| `VmeQueue.VmeQueue.Remove` | kernel/queue.h:276-299 | the in-place removal computes `Regions.RemoveVme` and keeps the list linked both ways |
| `VmeQueue.VmeQueue.DeepCopy` | kernel/queue.h:301-309 | the copy has fresh nodes and the same regions |
| `VmeQueue.VmeQueue.ContainsRange` | kernel/queue.h:312-328 | the walk computes `Regions.ContainsRange` |
| `HeapBlocks.InitKeeps` | kernel/heap.cc:127-138 | a fresh heap is one free block between two sentinels, well formed, with nothing live |
| `HeapBlocks.TakeKeeps` | kernel/heap.cc:177-188 | taking words from a free block keeps the heap well formed, makes one block live, splits off what is left when it is at least four words, and changes no live block |
| `HeapBlocks.FreeKeeps` | kernel/heap.cc:212-228 | freeing a live block merges it with its free neighbours into one free block, keeps the heap well formed, and changes no other live block |
| `HeapBlocks.MallocFreeRestores` | kernel/heap.cc:177-228 | taking and freeing restores the same blocks at the same places with the same sizes, the same ones free, split or not |
| `HeapSearch.RoomWhen` | kernel/heap.cc:146-147 | the words computed for a request hold it exactly when it is at most 2^32-4 bytes |
| `HeapSearch.FirstFitsAre` | kernel/heap.cc:156-174 | the candidates are the first twenty, or fewer, of the free blocks that are large enough |
| `HeapSearch.BestFit` | kernel/heap.cc:153-175 | nothing is chosen exactly when no free block is large enough; otherwise the smallest of the candidates, the earliest on ties |
| `HeapSearch.BestIsFirstWhen` | kernel/heap.cc:153-175 | the choice is the first fit exactly when no other candidate is smaller |
| `HeapRuns.FreeListIs` | kernel/heap.cc:157-174 | the walk from `avail` ends and meets exactly the free blocks, each once |
| `HeapRuns.MallocKeeps` | kernel/heap.cc:141-194 | the whole contract of malloc: null only when nothing is large enough; otherwise one block that was free becomes live, is the best of the first fits, has the size stated, has room exactly when the request is at most 2^32-4 bytes, and no live block changes |
| `HeapRuns.HugeRequestGetsFourWords` | kernel/heap.cc:146-147 | malloc of 2^32-1 bytes on a fresh heap grants four words |
| `HeapRuns.MallocThenFree` | kernel/heap.cc:141-229 | malloc and then free of its result restore the same blocks, sizes, free ones and count, with every live block as it was |
| `HeapRuns.StoreStep` | kernel/heap.cc:188 | a client's store changes the one word |
| `HeapRequests.IntsIsLeast` | kernel/heap.cc:146-147 | the words computed are the least size of a block with room, four at least |
| `HeapRequests.CandidatesAre` | kernel/heap.cc:153-175 | the candidates are the first of the free blocks whose payload has the bytes asked for |
| `HeapRequests.KernelMalloc` | kernel/heap.cc:141-194 | up to 2^32-4 bytes: null exactly when no free block's payload has the bytes; otherwise the smallest of the first twenty that have, cut to the least size with room unless fewer than four words would be left |
| `HeapRequests.UserMalloc` | t0.dir/sbin/heap.c:125-161 | the same for the user library with the first free block that has room |
| `HeapRequests.WrappedMalloc` | kernel/heap.cc:146-147 | the three largest requests are answered like a request for one byte |
| `HeapRequests.FreedIsFirst` | kernel/heap.cc:102-111 | a block that is freed is the first that the next search looks at |
| `HeapRequests.RestIsFirst` | kernel/heap.cc:177-188 | so is what is split off |
| `HeapRuns.PayloadKeeps` | kernel/heap.cc:188 | a client's stores to its own payload disturb no tag, no link and no other block |
| `HeapRuns.StepKeeps` | kernel/heap.cc:141-229 | every call and store keeps the heap and its count; only freeing a free block panics |
| `HeapRuns.RunKeeps` | kernel/heap.cc:141-229 | so does every run |
| `HeapRuns.EveryRun` | kernel/heap.cc:127-229 | so does every run after heapInit |
| `HeapRuns.StepPrivate` | kernel/heap.cc:141-229 | no call changes a word of a live block other than the one it frees or stores to |
| `HeapRuns.WordInOneBlock` | kernel/heap.cc:22-37 | every word of the array lies in exactly one block |
| `HeapArray.RemoveBlock` | kernel/heap.cc:86-100 | the in-place unlinking computes `HeapBlocks.Unlink` |
| `HeapArray.MakeAvailAt` | kernel/heap.cc:102-111 | the in-place marking and linking computes `HeapBlocks.MakeAvail` |
| `HeapArray.MakeTakenAt` | kernel/heap.cc:113-116 | the in-place marking computes `HeapBlocks.MakeTaken` |
| `HeapArray.TakeBlock` | kernel/heap.cc:177-188 | the in-place taking computes what `HeapBlocks.TakeKeeps` is about |
| `HeapArray.FreeBlock` | kernel/heap.cc:212-228 | the in-place merge computes `HeapBlocks.FreeAt` |
| `HeapArray.SearchBest` | kernel/heap.cc:153-175 | the kernel's search loop computes the choice that `HeapSearch.BestFit` is about |
| `HeapArray.SearchFirst` | t0.dir/sbin/heap.c:132-154 | the user library's search loop finds the first fit |
| `KernelHeap.Heap.constructor` | kernel/heap.cc:127-138 | heapInit in place |
| `KernelHeap.Heap.Malloc` | kernel/heap.cc:141-194 | malloc in place makes the specified step, returns the specified pointer, and keeps the heap valid |
| `KernelHeap.Heap.Free` | kernel/heap.cc:196-229 | free in place makes the specified step, or panics exactly when the block is free |
| `WordBytes.GetPut` | t0.dir/sbin/heap.c:211-214 | storing one byte of a 32-bit word changes that byte alone |
| `Realloc.CopyMoves` | t0.dir/sbin/heap.c:211-214 | a byte-wise copy between ranges that do not overlap delivers the bytes |
| `Realloc.CopyInside` | t0.dir/sbin/heap.c:211-214 | a copy into the payload of a block changes no word outside it |
| `Realloc.CopyApart` | t0.dir/sbin/heap.c:208-214 | the source of the copy, which runs over the old block's footer and the next header, does not meet the new payload |
| `Realloc.ReallocKeeps` | t0.dir/sbin/heap.c:193-218 | whenever the copy fits: the first min(new size, old payload) bytes survive though the old block is merged away, the new block has room exactly when the size does not wrap around, no other live block changes, and the old block is freed in any case |
| `Realloc.ReallocStoresInsideWhen` | t0.dir/sbin/heap.c:193-218 | for every well formed heap, live block and size, every store of the copy goes to the payload of the block granted exactly when the size does not wrap around, or nothing is free, or the first free block has six or seven words and the old block is at least two words smaller |
| `Overruns.CopyShowsWhen` | t0.dir/sbin/heap.c:211-214 | a copy changes no word outside the payload exactly when the bytes it stores beyond the payload are there already |
| `Overruns.ReallocCopyShowsWhen` | t0.dir/sbin/heap.c:193-218 | the same for the copy of realloc: it fits or what it stores beyond is there already |
| `Overruns.ReallocClobbers` | t0.dir/sbin/heap.c:193-218 | on a heap of twenty words, realloc to 2^32-1 bytes changes another live block |
| `Overruns.SmallExists` | t0.dir/sbin/heap.c:193-218 | there is such a heap |
| `Overruns.OverrunUnseen` | t0.dir/sbin/heap.c:193-218 | on a heap of thirteen words the copy stores outside the payload and no word outside changes |
| `Overruns.TightExists` | t0.dir/sbin/heap.c:193-218 | there is such a heap |
| `Realloc.UserFreeKeeps` | t0.dir/sbin/heap.c:163-191 | free of a live block keeps the heap and every other live block |
| `Realloc.ReallocNull` | t0.dir/sbin/heap.c:194-196 | realloc of nothing is malloc |
| `Realloc.ReallocZero` | t0.dir/sbin/heap.c:197-200 | realloc to no bytes answers null, frees the block and changes no other live one |
| `Realloc.FreeBlockLeftAlone` | t0.dir/sbin/heap.c:163-206 | neither free nor realloc touches a block that is free |
| `UserHeap.Heap.constructor` | t0.dir/sbin/heap.c:15-19 | heap_init in place |
| `UserHeap.Heap.Malloc` | t0.dir/sbin/heap.c:125-161 | first-fit malloc in place computes the specified heap and pointer |
| `UserHeap.Heap.Free` | t0.dir/sbin/heap.c:163-191 | free in place computes the specified heap; a block that is not taken is left alone |
| `UserHeap.Heap.Realloc` | t0.dir/sbin/heap.c:193-218 | realloc in place computes the specified heap and pointer on every branch where the copy fits |
| `Semaphores.DownQueued` | kernel/semaphore.h:23-34 | down takes a unit or joins the end of the waiting list; the list is exactly the waiting events |
| `Semaphores.UpQueued` | kernel/semaphore.cc:6-16 | up hands its unit to the oldest waiter or keeps it, and when there is a waiter the count is zero |
| `Semaphores.FirstComeFirstServed` | kernel/semaphore.h:23-34 | from n units, after any downs and ups, the events granted are the first ones to come, as many as there were units and ups |
| `EventQueues.Queue.Add` | kernel/queue.h:27-36 | adds at the end of the linked queue |
| `EventQueues.Queue.Remove` | kernel/queue.h:38-49 | removes the oldest, or gives null exactly when the queue is empty |
| `EventQueues.Semaphore.Down` | kernel/semaphore.h:23-34 | down in place: the event is linked into the ready queue or the waiting list, never both |
| `EventQueues.Semaphore.Up` | kernel/semaphore.cc:6-16 | up in place: the oldest waiter moves to the ready queue, or a unit is added; the assertion holds |
| `EventQueues.Semaphore.AwaitReady` | kernel/semaphore.h:40-51 | takes a unit if there is one and says so |
| `BoundedBuffers.PutKeeps` | kernel/bb.h:36-43 | calling put keeps the invariant |
| `BoundedBuffers.GetKeeps` | kernel/bb.h:49-57 | calling get keeps it |
| `BoundedBuffers.AddKeeps` | kernel/bb.h:38-39 | the step that adds the value keeps it |
| `BoundedBuffers.UpFullKeeps` | kernel/bb.h:40 | the step that ups n_full keeps it |
| `BoundedBuffers.RemoveKeeps` | kernel/bb.h:51 | the step that removes a value keeps it, and there is one |
| `BoundedBuffers.UpEmptyKeeps` | kernel/bb.h:52 | the step that ups n_empty keeps it |
| `BoundedBuffers.GrantedFinds` | kernel/bb.h:51-53 | a granted get finds a value, so it never follows a null pointer |
| `BoundedBuffers.StepKeeps` | kernel/bb.h:36-58 | every step keeps both conservation laws, the waiting lists, order and single delivery; a runnable event can always step |
| `BoundedBuffers.RunKeeps` | kernel/bb.h:36-58 | so does every run |
| `BoundedBuffers.EveryRun` | kernel/bb.h:24-58 | in every run from an empty buffer at most n values are queued and the values added are those removed followed by the queue |
| `BoundedBuffers.RunMakes` | kernel/bb.h:36-58 | event i of a run is what call i made: a put with the argument of the call, or a get |
| `BoundedBuffers.Delivered` | kernel/bb.h:36-58 | in every run the k-th get to remove receives the argument of the k-th put to add |
| `BoundedBuffers.Settled` | kernel/bb.h:36-58 | when nothing is left to run, min(P, G+n) of P puts and min(P, G) of G gets have finished, so putters and getters are never blocked together |
| `BoundedBuffers.Settles` | kernel/bb.h:36-58 | without new calls every run is bounded, so the buffer does settle |
| `BoundedBuffers.StuckWhen` | kernel/bb.h:24-58 | a state with a putter and a getter both blocked and nothing to run is reachable exactly when there are no slots |
| `Futures.PublishKeeps` | kernel/future.h:28-31 | set makes one unit, held by the semaphore or by one woken callback |
| `Futures.WriteKeeps` | kernel/future.h:28-31 | set stores its argument |
| `Futures.GetKeeps` | kernel/future.h:36-42 | asking for the value keeps the invariant |
| `Futures.AwaitKeeps` | kernel/future.h:81-89 | so does the quick check of a coroutine |
| `Futures.RetryKeeps` | kernel/future.h:93-98 | so does asking again after the check failed |
| `Futures.PassKeeps` | kernel/future.h:38-39 | a callback passes the unit on to the next |
| `Futures.RanKeeps` | kernel/future.h:40 | a callback runs with the value that was set |
| `Futures.EveryRun` | kernel/future.h:28-100 | in every run no callback runs before set, there is exactly one unit after it, and each callback that ran saw the value |
| `Futures.EveryCallback` | kernel/future.h:28-42 | in every run there is a callback for each time the value was asked for, and one that has run saw the argument of the one set |
| `Futures.RunsOnce` | kernel/future.h:36-42 | a callback that has run never runs again |
| `Futures.Settled` | kernel/future.h:28-42 | after set, when nothing is left to run, every callback has run with the value |
| `Futures.UnsetBlocks` | kernel/future.h:23-27 | without set every callback waits |
| `Futures.Settles` | kernel/future.h:28-42 | without new calls every run is bounded |
| `Futures.IsSetWhen` | kernel/future.h:44-46 | is_set is true exactly when set has been called and no callback holds the unit |
| `Futures.AwaitWhen` | kernel/future.h:81-89 | a coroutine goes on at once exactly when is_set is true |
| `Futures.IsSetMissesASetFuture` | kernel/future.h:44-46 | a run that ends with a future that is set and not reported so |
| `Scheduling.DownHolds` | kernel/semaphore.h:23-34 | blocking an event puts its process in exactly one place more |
| `Scheduling.UpHolds` | kernel/semaphore.cc:6-16 | waking an event moves its process and duplicates none |
| `Scheduling.BlockHolds` | kernel/sys.cc:442-461 | a blocking call moves the process from its core to one event |
| `Scheduling.SwitchHolds` | kernel/sys.cc:12-28 | yield, preemption and sigreturn move it to the ready queue |
| `Scheduling.ForkHolds` | kernel/sys.cc:258-262 | fork makes one place for the child and leaves the parent's |
| `Scheduling.ExitHolds` | kernel/sys.cc:30-38 | exit removes the process's only place |
| `Scheduling.DispatchHolds` | kernel/events.cc:72-77 | taking an event off the ready queue moves its process to the core |
| `Scheduling.ContinueHolds` | kernel/bb.h:36-58 | going on with an event keeps its process on the core |
| `Scheduling.StepKeeps` | kernel/sys.cc:12-48 | every step keeps exactly one token for each live process and none for an exited one |
| `Scheduling.StepsProceed` | kernel/events.cc:59-80 | no step goes wrong: a process on a core can always make its call and a core can always go on with its event; a join always finds a child to take |
| `Scheduling.CoreAfter` | kernel/sys.cc:12-48 | after a call its core goes on with the process or is free, exactly by the call, and no other core changes |
| `Scheduling.TidyStep` | kernel/semaphore.cc:6-16 | a semaphore with a unit left has no waiter, so the assertion in up never fails |
| `Scheduling.EveryRun` | kernel/events.cc:59-80 | all of this in every run on any number of cores |
| `Scheduling.NotOnTwoCores` | kernel/sys.cc:12-28 | no process runs on two cores |
| `Scheduling.RunningIsNowhereElse` | kernel/sys.cc:12-28 | a running process is in no queue |
| `Scheduling.NeverLost` | kernel/sys.cc:12-28 | a live process is on a core, ready, or waiting |
| `Scheduling.ExitedIsGone` | kernel/sys.cc:30-38 | an exited process is nowhere, so it is never resumed |
| `Joining.UpJoin` | kernel/future.h:28-42 | upping an exit future after its process has exited wakes only joins of that process |
| `Joining.ExitJoin` | kernel/sys.cc:30-38 | exit keeps the joining invariant |
| `Joining.ForkJoin` | kernel/sys.cc:234-264 | so does fork, whose child has an unset future of its own |
| `Joining.JoinJoin` | kernel/sys.cc:282-298 | so does join |
| `Joining.StepKeeps` | kernel/sys.cc:282-298 | so does every step |
| `Joining.DeadStays` | kernel/sys.cc:30-38 | a process that has exited never exits again and its value stands |
| `Joining.ExitedOnce` | kernel/sys.cc:30-38 | a process that is over at the end of a run called exit exactly once in it, and the value kept is that of the call |
| `Joining.JoinWaits` | kernel/sys.cc:282-298 | in every run, when a join ends the child taken off the stack is the youngest, it has exited, and join returns the value of the one call of exit that the child made |
| `Accounts.StepWorth` | kernel/semaphore.h:23-34 | counting the ups that events have promised, a semaphore's units less its waiters change by its calls alone: down, up, pipe reads and writes, exit and creation; waking and running events keeps them |
| `Accounts.EveryWorth` | kernel/semaphore.cc:6-16 | so in every run on any number of cores every semaphore is worth what its calls add up to |
| `Accounts.Baton` | kernel/future.h:28-42 | in every run the one unit of an exited process is in its exit future or with one join that will hand it on, and a live process's future has none |
| `Accounts.NobodyWaits` | kernel/sys.cc:30-38 | when no event is ready or being carried out, nobody waits for an exited process |
| `Accounts.LoopBounded` | kernel/events.cc:59-80 | the event loop alone makes finitely many steps from any state |
| `Accounts.LoopStops` | kernel/events.cc:59-80 | and it gets to a state where it can do nothing more |
| `Accounts.JoinsEnd` | kernel/sys.cc:282-298 | there, unless every core has a process to run, all joins of exited processes have ended |
| `Accounts.InOrder` | kernel/events.cc:72-77 | the event at place k of the ready queue is taken after exactly k others |
| `Families.EveryFamily` | kernel/pcb.h:142-153 | in every run process q was made by the q-th fork and children are kept oldest first |
| `Families.YoungestIsLast` | kernel/pcb.h:142-153 | the child that join waits for is the one that its parent forked last of those not joined |
| `Families.CountRun` | kernel/sys.cc:234-298 | a process gains a child with each fork and loses one with each join that ends |
| `Signals.SavedStays` | kernel/sys.cc:50-61 | inside a handler no step overwrites the saved context, and exactly sigreturn and the return to 0x2000 leave it, for the saved context |
| `Signals.SavedStaysThrough` | kernel/vmm.cc:87-110 | so for any number of steps |
| `Signals.ComesBack` | kernel/pit.cc:156-174 | from delivery through any steps inside the handler and any wait after it, the process resumes at exactly the context at which it was interrupted |
| `Signals.GoesOnThere` | kernel/sys.cc:12-28 | after a tick, a yield, a blocking call, another call or a fault on a mapped page the process goes on with the registers it had and the result of the call, at once or whenever it is resumed; memory and handler state stand |
| `Signals.EndsWhen` | kernel/vmm.cc:87-110 | a process ends exactly by its exit, by a kill without a handler, or with 139 by a fault that no handler takes |
| `Signals.DeliversWhen` | kernel/pit.cc:156-174 | a handler is entered exactly for a fault outside the regions or a kill, when there is one and it is not running |
| `Signals.HandlerFrame` | kernel/vmm.cc:101-109 | the handler is entered with the return address, the signal number and the argument on its stack |
| `Signals.DeliveryKeepsStack` | kernel/vmm.cc:105-108 | delivery changes no memory at or above 128 bytes below the stack pointer |
| `Signals.OneKill` | kernel/pit.cc:158-166 | in every run at most one timer tick exits with the value of a kill or enters the handler for one |
| `Signals.ActsOnce` | kernel/pit.cc:158-174 | a step has this effect exactly when it marks the kill as handled, and only with a kill pending outside a handler |
| `Signals.KillPends` | kernel/pit.cc:158-174 | an accepted kill stays pending with its value until the first timer tick outside a handler, which exits with the value or enters the handler with it |
| `Signals.KillPendsThrough` | kernel/sys.cc:709-722 | so for any number of steps |
| `Signals.KillArrives` | kernel/pit.cc:158-174 | an accepted kill arrives with its value at the first tick outside a handler |
| `Signals.KillAnswersWhen` | kernel/sys.cc:709-722 | in every run of a child from its fork, kill succeeds exactly when no kill was sent before, so it answers as documented exactly when the children that were sent a kill are those that have exited |
| `Signals.KilledWhenSent` | kernel/sys.cc:709-722 | after any run a process is marked exactly when a kill was sent, and handled only when marked |
| `Signals.KillOfAnExitedChild` | kernel/sys.cc:709-722 | a forked child that exited by itself is killed with success |
| `Signals.KillOfALiveChild` | kernel/sys.cc:709-722 | a forked child that is alive in its handler after a kill is refused |
| `Signals.ChildComesBack` | kernel/sys.cc:246-249 | a child forked inside a handler leaves it for the context saved by its parent |
| `Signals.ChildIsLikeParent` | kernel/sys.cc:246-249 | a child starts where the call left it, with its parent's memory and handler |
| `Signals.Pcb.SwitchProcesses` | kernel/sys.cc:12-28 | the context to go on at is stored and the process leaves the core |
| `Signals.Pcb.EnterHandler` | kernel/vmm.cc:101-109 | delivery in place |
| `Signals.Pcb.SigReturn` | kernel/sys.cc:50-61 | sigreturn in place makes the specified step |
| `Signals.Pcb.PageFault` | kernel/vmm.cc:87-110 | the fault handler's signal part in place makes the specified step |
| `Signals.Pcb.TimerInterrupt` | kernel/pit.cc:156-178 | the timer's user-mode part in place makes the specified step |
| `Signals.Pcb.Kill` | kernel/sys.cc:709-722 | kill in place |
| `BlockReads.FileBlock` | kernel/ext2.cc:60-79 | a block of a file is the block of the disk that the block map names |
| `BlockMaps.BlocksAre` | kernel/ext2.cc:60-79 | when the inode and the little-endian indirect block list the blocks of a file, every block can be read and is the disk block listed |
| `BlockMaps.LastBlock` | kernel/ext2.cc:61-76 | with blocks of a kilobyte a file has none from 268 on |
| `BlockReads.FindBlock` | kernel/ext2.cc:61-75 | the direct or indirect lookup finds the block number, and panics exactly when the block is outside the map or the entry off the disk |
| `BlockReads.ReadBlock` | kernel/ext2.cc:60-79 | reading a block of a disk or a file writes exactly its bytes, and panics exactly when it cannot be read |
| `BlockReads.ReadWord` | kernel/block_io.h:60-63 | reading a number gives its four bytes in little-endian order |
| `BlockReads.Read` | kernel/block_io.cc:6-33 | one read gives the bytes up to the end of the block, the request and the device; 0 at the end, -1 beyond it |
| `BlockReads.ReadAll` | kernel/block_io.cc:35-46 | for offset at most the size it returns min(n, size-offset), writes exactly that slice and nothing else, and panics exactly when a block of the range cannot be read; this holds for a disk and for a file layered over it |
| `Blocks.AreQuotients` | kernel/block_io.cc:13-14 | block number and place in the block are quotient and remainder |
| `FileReads.CountIs` | kernel/sys.cc:661-664 | a call gets the bytes asked for or those up to the end, and none exactly when none were asked for or the end is reached |
| `FileReads.Consecutive` | kernel/sys.cc:660-666 | what successive calls through a shared offset get joins into one slice |
| `FileReads.ReachesEnd` | kernel/sys.cc:660-666 | where the offset stands after any calls |
| `FileReads.OpenFile.Read` | kernel/sys.cc:660-666 | the call in place: offset, count and bytes |
| `SharedOffsets.StepKeeps` | kernel/sys.cc:661-664 | one access to the shared offset keeps the offset plus all that is still promised within the file, and the bytes taken tiled |
| `SharedOffsets.EveryInterleaving` | kernel/sys.cc:661-664 | when the file suffices, every interleaving of the accesses of any calls keeps the offset and the bytes taken inside the file, no byte is taken twice and none is skipped |
| `SharedOffsets.SomeInterleaving` | kernel/sys.cc:661-664 | when it does not, some interleaving takes bytes past the end |
| `SharedOffsets.WithinWhen` | kernel/sys.cc:661-664 | all interleavings stay within the file exactly when what each call would get alone adds up to no more than is left |
| `SharedOffsets.InTurn` | kernel/sys.cc:660-666 | calls made one after another get what `FileReads.Calls` says and leave the offset where `FileReads.OffsetAfter` says |
| `SharedOffsets.PassesTheEnd` | kernel/sys.cc:661-664 | two calls for 6 of 10 bytes leave the offset at 12 |
| `SharedOffsets.ReadsTwice` | kernel/sys.cc:661-664 | five calls on 10 bytes of which two are given byte 8, after the 32-bit difference wraps around |
| `CacheLists.ReadAgrees` | kernel/cache.cc:10-24 | a read answers with the disk's bytes and keeps every entry in agreement with the disk |
| `CacheLists.ReadIds` | kernel/queue.h:114-164 | a read leaves its block in front and the others in their order, the last one falling out on a miss |
| `CacheLists.EveryRun` | kernel/cache.cc:10-24 | after any reads the sixteen entries are the most recently read distinct blocks in order and then fillers, each with the disk's bytes |
| `CacheLists.HitWhen` | kernel/cache.cc:10-24 | a reread needs no disk exactly when the block is among the sixteen most recently read |
| `BlockCache.MruQueue.constructor` | kernel/queue.h:85-98 | sixteen linked nodes that hold no block |
| `BlockCache.MruQueue.Contains` | kernel/queue.h:136-164 | the search in place moves the node it finds to the front and keeps the list linked both ways |
| `BlockCache.MruQueue.Add` | kernel/queue.h:114-130 | the last node in place becomes the first with the new block |
| `BlockCache.Cache.ReadBlock` | kernel/cache.cc:10-24 | the read in place writes the block's bytes, makes the specified change to the list, and reads the disk exactly on a miss |

## Left out

- The kernel's own loads and stores go directly to memory. In the code they go through the running directory, which reaches all of memory exactly on the machines of `KernelRange.KernelReachesAllWhen`; on others the code can fault on a frame out of reach.
- Machines with less than 6 MB, where the kernel's heap does not fit, or more than 2 GB, where memory meets the private range; memory sizes that are not whole frames, which start-up refuses.
- Interleaving of memory operations on several cores: `fork`, `simple_munmap`, page faults and address space creation are single steps.
- Translation caches: translations are read from the tables in memory.
- What happens after a panic for want of frames; a memory cell outside physical memory reads zero.
- `execl`, ELF loading and file-backed `simple_mmap` as steps of the address space machine.
- The lock that heapInit allocates at its end, which is one more malloc; spin locks themselves, whose sections are atomic steps.
- The sanity checks of both heaps, which are switched off in the kernel and change nothing in the library.
- The free choice of the next event in the bounded buffer and the future stands for the ready queue and the cores; the scheduler models both.
- Semaphore counts are unbounded where the kernel has 64 bits.
- `shutdown`, `sem_close`, `chdir`, `open`, `dup`, path walking, directory parsing and mounting, which add easier members.
- Reclamation of events, process control blocks and queues.
- The timer queue of delayed events.
- Registers other than instruction pointer, stack pointer and result, which are one opaque value; a stack that is not mapped when a signal is delivered.
- Hardware: interrupts controllers, the IDE port protocol (a sector is read as a whole), boot code, the serial port, printing.
- Realloc.ReallocKeeps: promised where `Realloc.CopyFits` holds; elsewhere the promise is false, as `Overruns.ReallocClobbers` shows.
- UserHeap.Heap.Realloc: excludes the sizes for which `Realloc.CopyFits` is false, where the copy leaves the block and may leave the array, and a pointer to the array itself, for which the code reads a word before the array.
- BlockCache.Cache.ReadBlock: block ids whose bytes lie within the size the disk reports, and not the id that marks an empty entry.
- FileReads.OpenFile.Read: a call is one step; `SharedOffsets` takes its accesses to the shared offset one at a time, without the bytes that the call then writes.
