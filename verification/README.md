# ChuniX in Dafny

ChuniX is a small 32-bit x86 kernel. This project models its memory manager, kernel heap,
argument set-up of `exec`, buffer cache, disk driver, file system and scheduler, and proves what
they keep over every run. Memory is pages of bytes: page tables, the free list, chunk headers and
disk blocks are read and written as bytes, and the theorems say what those bytes mean.

| file | models |
|---|---|
| `Bytes.dfy` | little-endian words in byte strings |
| `PageTables.dfy` | two-level page tables over physical pages, one owner per page, what each kind of write does |
| `AddressSpace.dfy` | reading and writing through a page directory |
| `Mm.dfy` | kern/mm.c |
| `Chunks.dfy` | the heap as a list of chunks: first fit, coalescing, canonical shape, runs |
| `HeapSpace.dfy` | the pages behind the heap: alloc_chunk and the page loop of free_chunk |
| `HeapLinks.dfy`, `Heap.dfy` | chunk headers in the heap's own pages; kmalloc and kfree |
| `Exec.dfy` | the argument stack exec builds |
| `BufferRing.dfy`, `Cache.dfy` | fs/buffer.c over the memory disk drv/memhd.c |
| `CacheRuns.dfy` | whole runs of the cache against a disk without one |
| `Hd.dfy` | the request queue of drv/hd.c and the wait of its callers |
| `HdCache.dfy` | fs/buffer.c over drv/hd.c: every interleaving of holders and interrupts |
| `Sched.dfy` | kern/sched.c with task_run, sleep_on and wakeup |
| `SfsFormat.dfy`, `SfsImage.dfy`, `MkSfs.dfy` | the SFS format and the image builder tools/mk_sfs.c |
| `SfsReader.dfy` | the kernel's reader fs/sfs/sfs.c, on top of the buffer cache |

`dafny verify dfyconfig.toml` checks the whole project.

How to read it. State that the C code updates in place is a class with ghost fields for the
abstract view (`Mmu.owner`, `Mmu.free`, `KernelHeap.chunks`, `BufferCache.log`, ...). Each class has
a `Valid` predicate; every operation keeps it. A method's contract relates old and new abstract
state, and the pure modules prove what follows for whole runs. `panic`, `return -1` and the
dereference of a missing page-table entry are results (`Outcome`, `CopyResult`, `SetupResult`,
`Got`), not preconditions.

What the code does that its comments or layout do not suggest, stated as proved:

- The memory disk ignores the minor number, so the cache is not transparent for every caller. A
  bwrite keeps it coherent if and only if it changes nothing on the disk or no released buffer has
  the sector (`Cache.WriteCoherent`). A sector reads and ends as on a disk without a cache in every
  run that uses it through one device and writes what it changes before the release
  (`CacheRuns.Run`, for any number of holders and devices). Both conditions are needed: for any two
  devices, any sector and any change there is a stale read (`CacheRuns.TwoDevices`), and so there is
  for any change given back unwritten (`CacheRuns.Unwritten`).
- The same two conditions make the cache transparent over the hard disk, with any number of holders
  waiting in the driver's queue while others go on: a call that returns finds the data of the last
  bwrite of the sector (`HdCache.ReadsLastWrite`), and a bwrite returns with its data on the disk
  (`HdCache.WriteDurable`). Both are needed there too (`HdCache.TwoDevices`, `HdCache.Unwritten`).
- hd_dorw sends 28 address bits. The driver names the right sector if and only if the sector number
  is below 2^28 (`Hd.LbaExact`).
- uva2ka dereferences the entry pgdir_walk did not find. copyout reaches that exactly when the page
  where it stops has no page table (`Mm.Mmu.Copyout`, result `NullPte`).
- unmap_page uses V2P where P2V is meant. Both agree because KERNBASE is 2^31
  (`PageTables.KvaPage`).
- write_data stores each block before it tests the space. The store falls on a block with index
  entries if and only if the test that follows ends the run and the marker does not fill its block
  (`SfsImage.OverwriteEndsRun`). A run of mk_sfs makes such a store if and only if for some file the
  entries fit, the data do not, and the marker then does not fill its block; it is the last store of
  the run, and no other store falls on data or entries (`MkSfs.Build`, `SfsImage.Overwrites`). One
  file of 1024 bytes on a volume of four blocks is such a run (`SfsImage.OverwritesOnce`).
- The kernel's strncmp does not stop at a terminator, so a query matches by prefix for up to 30
  bytes. The two programs lay directory entries out differently; in the kernel's view the name of a
  packed directory starts with zeros, so only the empty query matches one (`SfsReader.HeaderMatch`).
- region_alloc and mappages on an empty range still map one page, unless the range starts on a page
  boundary (`PageTables.TouchesIff`, `Mm.Mmu.RegionAlloc`).
- mk_sfs gives a name a continuation entry from 29 bytes on, though 30 fit in the header
  (`SfsFormat.NieExact`).
- kfree_page accepts one address too many: the one behind the last page of memory
  (`Mm.Mmu.OnePageTooMany`).
- free_vm returns the directory and its tables and leaves the user frames taken, because
  dealloc_uvm is empty (`Mm.Mmu.FreeVm`). When copy_uvm runs out of memory at some page, the pages
  lost are exactly one copy of each page the parent has below it, and at most one of that page
  itself (`Mm.Mmu.CopyUvm`).

## Model

| member | source | states |
|---|---|---|
| `PageTables.KvaPage` | inc/mmu.h:39-40 | address arithmetic of the kernel window; V2P and P2V of a page address agree |
| `PageTables.MakePte` | kern/mm.c:36 | an entry keeps address and permission bits apart: frame, write bit, user bit and flags read back |
| `PageTables.TwoLevels` | inc/mmu.h:29-34 | an address goes through the slot its top ten bits name and the entry its next ten bits name |
| `PageTables.FlagBits` | inc/mmu.h:22-24 | present, write and user bit of an entry are those of its flags, each by itself |
| `PageTables.TouchesIff` | kern/mm.c:113-116 | the pages a loop from the rounded-down start to the rounded-up end visits: those of the addresses in the range; for an empty range one page, unless the start is a page boundary |
| `PageTables.FreePush` | kern/mm.c:133-147 | linking a held page in front keeps the whole memory well formed: chain, owners, tables, frames |
| `PageTables.FreePop` | kern/mm.c:151-159 | taking the head keeps it well formed; the stored link is the rest of the list |
| `PageTables.InstallTable` | kern/mm.c:176-180 | a fresh zeroed table changes no translation of any directory; its directory entry is present, writable and open to user mode |
| `PageTables.TakeTable` | kern/mm.c:176-182 | making a table from the first free page: well formed, all translations and used pages as before |
| `PageTables.MapEntry` | kern/mm.c:36 | one stored entry changes exactly one translation and gives the frame its owner |
| `PageTables.UnmapEntry` | kern/mm.c:55-56 | clearing an entry removes exactly one translation and releases its frame |
| `PageTables.ProgressStep` | kern/mm.c:31-40 | one round of mappages extends the mapped run by one page, other translations unchanged, tables taken from the free list in order |
| `PageTables.ProgressMapped` | kern/mm.c:31-40 | every frame mapped so far belongs to the page it was mapped at |
| `PageTables.RunDone` | kern/mm.c:25-42 | what a finished run means in addresses: present for every address of the range, the entry of each page, the other pages unchanged |
| `PageTables.NewDir` | kern/mm.c:64-67 | a zeroed page becomes an address space without translations, other spaces unchanged |
| `PageTables.KvmStep` | kern/mm.c:68-76 | each mappages call of mapkvm extends the window linearly |
| `PageTables.LinearWindow` | kern/mm.c:60-79 | for every address of a new address space: KERNBASE + x translates to x for all x below the memory size, whole pages of it, and nothing else is present; no page is open to user mode; a page is writable exactly outside [KERNLINK, data) |
| `PageTables.FilledStep` | kern/mm.c:116-129 | one round of region_alloc: a missing page gets a frame that was free, the rest is unchanged |
| `PageTables.RegionDone` | kern/mm.c:109-130 | what a finished region means in addresses: present for every address of it, fresh frames with the flags asked for where pages were missing, the other pages unchanged |
| `PageTables.CopiedStep` | kern/mm.c:255-266 | one copied page of copy_uvm: same flags, same bytes, a frame that was free |
| `PageTables.TornDown` | kern/mm.c:257-266 | a half-built copy torn down leaves all translations and all pages that were in use as before |
| `PageTables.Released` | kern/mm.c:193-208 | giving up a directory keeps memory well formed |
| `PageTables.LostPages` | kern/mm.c:257-266 | after an abandoned copy every page that was free is free again, or is the one copy of a page of the parent; each page the parent has below the failing one has such a copy, no later page has |
| `PageTables.CopiesAll` | kern/mm.c:253-266 | before it is given up, the child owns exactly one copy of each page the parent has below the failing one, on frames that were free |
| `AddressSpace.FlatPage` | kern/mm.c:300 | writing part of a mapped frame is a write of those virtual bytes and nothing else |
| `AddressSpace.Isolation` | kern/mm.c:238-269 | different pages of one or two address spaces never share a frame |
| `AddressSpace.ReadAfterWrite` | kern/mm.c:283-306 | after a write, the range reads as written and every other address of every address space as before |
| `AddressSpace.CopiedBytes` | kern/mm.c:238-269 | every byte of the parent below the limit reads the same in the child, from a frame no page of the parent uses |
| `AddressSpace.CopiedForked` | kern/mm.c:247-268 | every address below sz is backed in the child exactly if it is in the parent, with the same byte and flags; the pages from sz on hold the kernel window alone |
| `Mm.Mmu.constructor` | kern/mm.c:322-329 | memory at boot: well formed, nothing free |
| `Mm.Mmu.OnePageTooMany` | kern/mm.c:137-140 | which addresses the test lets through: those of the memory, and the one behind its last page |
| `Mm.Mmu.KfreePage` | kern/mm.c:133-147 | accepts exactly the addresses of that test; the page heads the free list, filled with ones behind the link, no other page and no translation changes |
| `Mm.Mmu.KallocPage` | kern/mm.c:151-159 | 0 exactly when none is free; else the first free page, which nobody owned |
| `Mm.Mmu.KfreeRange` | kern/mm.c:99-105 | exactly the whole pages of the range become free |
| `Mm.Mmu.AddTable` | kern/mm.c:176-182 | the new table comes off the free list and changes no translation |
| `Mm.Mmu.PgdirWalk` | kern/mm.c:164-183 | address of the entry that the page directory defines; 0 exactly when the table is missing and cannot be made |
| `Mm.Mmu.SetPte` | kern/mm.c:36 | one translation added |
| `Mm.Mmu.ClearPte` | kern/mm.c:55-56 | one translation removed, its frame held again |
| `Mm.Mmu.Mappages` | kern/mm.c:25-42 | every page that meets [va, va + sz) maps to pa plus its distance with exactly the flags asked for, every other translation stays; on re-map or exhaustion exactly the prefix before that page is mapped |
| `Mm.Mmu.UnmapPage` | kern/mm.c:45-58 | panics exactly when the page is not mapped; else one translation is gone and its frame heads the free list |
| `Mm.Mmu.FreshDir` | kern/mm.c:64-67 | an empty address space on the first free page, nothing in use touched |
| `Mm.Mmu.MapWindow` | kern/mm.c:68-76 | one stretch of the kernel window, or out of pages |
| `Mm.Mmu.Mapkvm` | kern/mm.c:60-79 | an address space in which every address is as `LinearWindow` says, on free pages, nothing in use touched; 0 only with no page left, and then the pages taken stay directory and tables |
| `Mm.Mmu.MapFresh` | kern/mm.c:123-126 | maps a page nobody owned; fails exactly when none is free |
| `Mm.Mmu.RegionAlloc` | kern/mm.c:109-130 | every address of [va, va + len) has a present entry, the missing pages on frames that were free with exactly the flags asked for, every page that meets no such address is unchanged; panics exactly at a page of the range with no page left |
| `Mm.Mmu.CopyInto` | kern/mm.c:225-233 | a private copy of a frame mapped with the same flags; on failure nothing in use has changed |
| `Mm.Mmu.CopyPage` | kern/mm.c:213-235 | the other address space gets a private copy with the same flags, or nothing in use changes, or panic when absent or already mapped |
| `Mm.Mmu.FreeVm` | kern/mm.c:193-208 | the directory and its tables are free again, the frames it mapped are not, other address spaces unchanged |
| `Mm.Mmu.GiveUp` | kern/mm.c:257-266 | the way out when memory runs out: everything in use as before; the pages lost are exactly one copy of each page the parent has below the failing one, and at most one of that page itself |
| `Mm.Mmu.CopyUvm` | kern/mm.c:238-269 | every address below sz is backed in the child exactly if it is in the parent, with the same byte and flags, on private frames; the pages from sz on hold the kernel window alone; any failure leaves everything in use as before; out of memory at page k loses exactly one copy of each page the parent has below k and at most one of page k; success only without a missing table, panic only at one |
| `Mm.Mmu.Uva2ka` | kern/mm.c:271-281 | the kernel address of the frame behind a user address, 0 exactly when user mode may not access it, fault exactly when its table is missing |
| `Mm.Mmu.CopyoutStep` | kern/mm.c:292-304 | one round of copyout extends the flat write |
| `Mm.Mmu.Copyout` | kern/mm.c:286-306 | one flat write for any alignment and any number of pages; otherwise exactly the prefix before the first page closed to user mode |
| `Chunks.OffMono` | kern/heap.c:26-61 | chunks tile the heap in order without overlap |
| `Chunks.LiveIff` | kern/heap.c:26-61 | the live blocks are exactly the chunks in use |
| `Chunks.LiveDisjoint` | kern/heap.c:26-61 | live blocks are pairwise disjoint |
| `Chunks.CanonicalShape` | kern/heap.c:103-143 | the live blocks alone determine the chunk sequence |
| `Chunks.FirstFit` | kern/heap.c:32-40 | the lowest free chunk that fits, or none fits |
| `Chunks.AllocLive` | kern/heap.c:26-61 | an allocation keeps the canonical shape, adds one block of at least the requested size and changes no other |
| `Chunks.FreeLive` | kern/heap.c:122-143 | a release keeps the canonical shape and removes just that block |
| `Chunks.Find` | kern/heap.c:64-71 | a live block is one chunk in use |
| `Chunks.AllocThenFree` | kern/heap.c:26-71 | releasing a block just allocated gives back the chunk sequence |
| `Chunks.FreeAll` | kern/heap.c:64-71 | releasing a list of blocks removes exactly those |
| `Chunks.FreeOrder` | kern/heap.c:64-71 | any order of releases gives the same heap; releasing everything gives the empty heap |
| `Chunks.Step` | kern/heap.c:26-71 | one call keeps the canonical shape and changes the live blocks by one |
| `Chunks.ReachesCanonical` | kern/heap.c:26-143 | every heap reachable by permitted calls is tiled, coalesced and has a last chunk in use |
| `Chunks.RunsAgree` | kern/heap.c:26-143 | any two runs that end with the same live blocks end in the same heap |
| `HeapSpace.GrowMapped` | kern/heap.c:77-81 | a page added on top: exactly one more page is mapped, contents below unchanged |
| `HeapSpace.HeapClosed` | kern/heap.c:79 | every heap page is writable, and no address of the heap area is open to user mode |
| `HeapSpace.ShrinkMapped` | kern/heap.c:93-98 | the top page dropped: exactly the pages below stay mapped, contents unchanged |
| `HeapSpace.StoreMapped` | kern/heap.c:112-119 | a store in the heap changes its contents at that place only |
| `HeapSpace.Space.StoreBytes` | kern/heap.c:26-61 | a store of any length in the heap changes its contents at that place only |
| `HeapSpace.Space.constructor` | kern/task.c:53-54 | the heap of a new task has no pages |
| `HeapSpace.Space.Grow` | kern/heap.c:77-81 | one page from the free list mapped at heap_top for the kernel alone, writable, with the table it needs |
| `HeapSpace.Space.AllClosed` | kern/heap.c:73-99 | the same over every run of growing, shrinking and storing |
| `HeapSpace.Space.AllocChunk` | kern/heap.c:73-82 | heap_top becomes the page-rounded end of the chunk; old contents kept, new frames were free |
| `HeapSpace.Space.FreePages` | kern/heap.c:93-98 | heap_top becomes the page-rounded start of the dropped chunk; each dropped frame goes back on the free list |
| `HeapLinks.SplitLinked` | kern/heap.c:103-120 | the stores of a split leave a list linked both ways |
| `HeapLinks.JoinLinked` | kern/heap.c:125-138 | the stores of a join leave a list linked both ways |
| `HeapLinks.DropLinked` | kern/heap.c:88-91 | cutting the last chunk leaves a list linked both ways |
| `HeapLinks.AppendLinked` | kern/heap.c:51-58 | a new last chunk leaves a list linked both ways |
| `HeapLinks.SplitWrites` | kern/heap.c:111-119 | the seven stores of split_chunk, in their order, as header changes |
| `HeapLinks.SitesSafe` | kern/heap.c:26-143 | no header overlaps the payload of a live block |
| `HeapLinks.PayloadsSafe` | kern/heap.c:26-143 | header writes leave the bytes of live blocks alone |
| `HeapLinks.PayloadStored` | kern/heap.c:26-61 | bytes stored in a live block change no header and no other block |
| `HeapLinks.FreeSteps` | kern/heap.c:122-143 | mark, glue right, glue left and drop make up one release; a free right neighbour always has a successor |
| `Heap.KernelHeap.constructor` | kern/task.c:53-54 | the empty heap |
| `Heap.KernelHeap.CutChunk` | kern/heap.c:111-116 | the new header and the shorter length, store by store |
| `Heap.KernelHeap.SplitChunk` | kern/heap.c:103-120 | splits when more than a header is left over, else does nothing; only three headers written |
| `Heap.KernelHeap.GlueRight` | kern/heap.c:125-129 | joins a free right neighbour, never dereferencing a missing one |
| `Heap.KernelHeap.GlueLeft` | kern/heap.c:132-138 | joins into a free left neighbour |
| `Heap.KernelHeap.FreeChunk` | kern/heap.c:84-99 | drops the last chunk; heap_top and frames follow; no header touched after its page is gone |
| `Heap.KernelHeap.GlueChunk` | kern/heap.c:122-143 | the heap after releasing the chunk, canonical again |
| `Heap.KernelHeap.Kfree` | kern/heap.c:64-71 | removes exactly that block; other blocks keep their bytes; dropped frames return to the free list |
| `Heap.KernelHeap.TakeHole` | kern/heap.c:33-37 | takes the first hole that fits, other blocks keep their bytes |
| `Heap.KernelHeap.AppendHeader` | kern/heap.c:51-58 | links a new last chunk |
| `Heap.KernelHeap.Extend` | kern/heap.c:42-60 | extends the heap when no hole fits, on frames that were free |
| `Heap.KernelHeap.Kmalloc` | kern/heap.c:26-61 | a block of n bytes and its header, at most one header larger, that was not live, in the lowest hole that fits, else at the end; all other blocks keep their bytes; user mode can access no address of the heap |
| `Heap.KernelHeap.Use` | kern/heap.c:26-61 | the owner of a block writes anywhere in it: the heap keeps its chunks, exactly those bytes change, and no other block's |
| `Heap.KernelHeap.RequestAndRelease` | kern/heap.c:26-71 | kfree of a block just allocated restores the chunk list, heap_top, the frames and all live bytes |
| `Heap.KernelHeap.FreeBlocks` | kern/heap.c:64-71 | freeing a list of blocks gives the chunk list that every order gives and returns the dropped frames; freeing all empties the heap and returns every frame |
| `Chunks.FreeNext` | kern/heap.c:64-71 | freeing a list is freeing its first block and then the rest |
| `Exec.TopApart` | kern/exec.c:94 | pushed strings do not overlap |
| `Exec.HoldsNew` | kern/exec.c:95-96 | a successful copyout reads back |
| `Exec.BlockDecodes` | kern/exec.c:99-104 | strings plus pointer block decode to the arguments |
| `Exec.PackedPointers` | kern/exec.c:94-103 | each string lies at the highest multiple of four below the one before that leaves room for it, the words directly below |
| `Exec.StopsAt` | kern/exec.c:95-96 | the first byte closed to user mode and its page table decide between failure and crash |
| `Exec.PushStrings` | kern/exec.c:90-98 | every string lies terminated at its recorded address; where and why it stops otherwise |
| `Exec.SetupArgs` | kern/exec.c:89-105 | decoding the user stack at the final sp gives argc, argv, each string and the null, aligned, disjoint and as high as they fit; it is done exactly when there are at most 16 arguments and user mode may access every byte written, and otherwise crashes exactly if the first byte closed to user mode has no page table |
| `BufferRing.UnlinkRing` | fs/buffer.c:127-128 | unlinking leaves a ring of the others, linked both ways |
| `BufferRing.PushRing` | fs/buffer.c:129-132 | linking at the front leaves a ring, linked both ways |
| `Cache.WriteCoherent` | drv/memhd.c:45-48 | a write keeps the cache coherent if and only if it changes nothing or no released buffer has the sector |
| `Cache.Recycle` | fs/buffer.c:65-72 | clearing an idle buffer for an uncached block keeps the invariant |
| `Cache.Flush` | fs/buffer.c:112-119 | writing through keeps the invariant; the sector goes stray exactly when it changed and is cached a second time |
| `Cache.OneDeviceWritten` | fs/buffer.c:112-119 | a sector asked for through one device never goes stray by a write |
| `Cache.Release` | fs/buffer.c:122-136 | releasing keeps the invariant and the order by last release; a changed and unwritten buffer makes its sector stray |
| `Cache.Oldest` | fs/buffer.c:65-72 | the backward scan meets the least recently released candidate first |
| `Cache.LinkFirst` | fs/buffer.c:24-30 | one round of init_buffer links one more buffer into the ring |
| `Cache.BufferCache.constructor` | fs/buffer.c:17-31 | the ring holds every buffer, none valid |
| `Cache.BufferCache.FindCached` | fs/buffer.c:53-62 | the buffer of the block, or none has it |
| `Cache.BufferCache.FindIdle` | fs/buffer.c:65-72 | the least recently released buffer that is neither busy nor dirty |
| `Cache.BufferCache.Getblk` | fs/buffer.c:48-76 | hit, wait, recycle with VALID cleared, or panic, each exactly when the code says so |
| `Cache.BufferCache.MemhdRw` | drv/memhd.c:32-54 | one sector moved in the direction the dirty flag says; panics exactly on the four tests |
| `Cache.BufferCache.Bread` | fs/buffer.c:78-87 | a hit returns the buffer as it was, a miss the disk's sector, whatever the devices; both are the disk's contents unless the sector went stray |
| `Cache.BufferCache.Bwrite` | fs/buffer.c:112-119 | the disk is as if written directly; when the sector goes stray, and never if it is used through one device |
| `Cache.BufferCache.Brelse` | fs/buffer.c:122-136 | the buffer moves to the front and is no longer busy, nothing else changes; when the sector goes stray |
| `Cache.BufferCache.ReadBlock` | fs/sfs/sfs.c:45-52 | bread, copy and brelse give the disk's sector unless it is stray, and disturb no other holder |
| `Cache.BufferCache.WriteBlock` | fs/buffer.c:78-136 | bread, new data, bwrite and brelse write exactly that sector and disturb no other holder |
| `Cache.BufferCache.BreadNblocks` | fs/buffer.c:97-109 | n consecutive sectors, in order |
| `CacheRuns.HeldCount` | fs/buffer.c:64-75 | as many blocks are held as buffers are busy, so bread panics exactly when sixteen are held |
| `CacheRuns.TakeRel` | fs/buffer.c:78-87 | taking a block keeps the cache level with the flat disk |
| `CacheRuns.WriteRel` | fs/buffer.c:112-119 | writing a block keeps the cache level with the flat disk |
| `CacheRuns.GiveRel` | fs/buffer.c:122-136 | giving a block back keeps the cache level with the flat disk |
| `CacheRuns.Do` | fs/buffer.c:48-136 | one event comes out as on the flat disk |
| `CacheRuns.Run` | fs/buffer.c:48-136 | transparency over every run of bread, change, bwrite and brelse with several holders and devices: every outcome is the flat disk's, and every safe sector reads and ends as there |
| `CacheRuns.TwoDevices` | drv/memhd.c:45-51 | for any two devices, any sector and any change, a run that ends with a stale read |
| `CacheRuns.Unwritten` | fs/buffer.c:122-136 | any change given back unwritten is read by the next caller and not on the disk |
| `Hd.LbaExact` | drv/hd.c:38-41 | the address registers name the sector if and only if its number has 28 bits |
| `Hd.QueuedIff` | drv/hd.c:64-116 | a buffer is queued exactly while its holder waits and it is unfinished, and only once |
| `Hd.EnqueueInv` | drv/hd.c:64-81 | a request of a working holder keeps the protocol invariant |
| `Hd.InterruptServes` | drv/hd.c:93-116 | an interrupt completes exactly the oldest request, in the right direction, and starts the next |
| `Hd.InterruptInv` | drv/hd.c:93-116 | an interrupt keeps the protocol invariant, each sector holding what its last completed request left |
| `Hd.LeaveServed` | drv/hd.c:84-86 | the wait of hd_rw ends only after its own request was completed |
| `Hd.Step` | drv/hd.c:64-116 | every permitted event keeps the invariant |
| `Hd.FinishesInTurn` | drv/hd.c:64-116 | the request at position k is completed by exactly the (k+1)-th interrupt, whatever else happens |
| `Hd.LogGrows` | drv/hd.c:93-116 | completions are final |
| `Hd.WaitRun` | drv/hd.c:84-86 | while a holder waits, its buffer stays as it is or is served once |
| `Hd.Returns` | drv/hd.c:64-90 | a whole call of hd_rw: exactly its own request was completed, a write with the data handed in, and buffer and sector agree unless a later request for the sector was completed meanwhile |
| `Hd.HdDriver.constructor` | drv/hd.c:17 | the idle driver |
| `Hd.HdDriver.HdRw` | drv/hd.c:64-81 | the linked queue gets the buffer at its end and the disk is started for it if it is alone; panics exactly on the two tests |
| `Hd.HdDriver.HdWait` | drv/hd.c:83-86 | the caller goes on exactly when the buffer is valid and not dirty, with its own request completed |
| `Hd.HdDriver.SetBuf` | fs/buffer.c:67-69 | a buffer that nobody waits for changes; queue and protocol go on |
| `Hd.HdDriver.HdInterrupt` | drv/hd.c:93-116 | hd_isr on the linked queue is the protocol's interrupt step |
| `HdCache.TakeInv` | fs/buffer.c:48-76 | finding or recycling a buffer keeps the joint invariant while others wait in the driver |
| `HdCache.ReadInv` | fs/buffer.c:83-84 | bread entering hd_rw keeps it |
| `HdCache.WriteInv` | fs/buffer.c:112-119 | bwrite entering hd_rw keeps it, with the sector's value handed over |
| `HdCache.CompletionInv` | drv/hd.c:93-116 | a completion keeps it: a read brings the sector's last value, a write puts it on the disk |
| `HdCache.ChangeInv` | fs/buffer.c:48-76 | a holder's change keeps it |
| `HdCache.GiveInv` | fs/buffer.c:122-136 | a release keeps it; changed and unwritten, the sector goes stray |
| `HdCache.OneBuffer` | fs/buffer.c:53-72 | a safe sector has one buffer at most |
| `HdCache.Step` | fs/buffer.c:48-136 | every event keeps the joint invariant of cache, queue and disk |
| `HdCache.BootInv` | fs/buffer.c:17-31 | a new cache over an idle driver satisfies it |
| `HdCache.Returned` | fs/buffer.c:78-87 | whenever bread or bwrite returns, the buffer of a safe sector is what the sector was last handed |
| `HdCache.ReadsLastWrite` | fs/buffer.c:78-119 | over every interleaving: a call that returns finds the data of the last bwrite of the sector |
| `HdCache.ReadsDisk` | fs/buffer.c:78-87 | before the first bwrite of a sector, it finds what was on the disk at boot |
| `HdCache.WriteDurable` | fs/buffer.c:112-119 | a bwrite returns with its data on the disk and still in its buffer |
| `HdCache.DriverRun` | drv/hd.c:64-116 | every run of the cache is a run of the driver with the same completions and returns |
| `HdCache.AnsweredInTurn` | drv/hd.c:64-116 | a request of the cache is answered by the completion its place in the queue says |
| `HdCache.Roundtrip` | drv/hd.c:64-116 | a call of hd_rw on an idle driver |
| `HdCache.TwoDevices` | drv/hd.c:38-41 | for any two devices, any sector and any change, a run that ends with a stale read |
| `HdCache.Unwritten` | fs/buffer.c:122-136 | any change given back unwritten is read by the next caller and not on the disk |
| `Sched.ChoiceNearest` | kern/sched.c:11-34 | the choice is the runnable task nearest in list order, and another one if there is any |
| `Sched.Nearest` | kern/sched.c:21-31 | in terms of the task states: the choice is RUNNABLE or the current task, no RUNNABLE task is nearer in list order, and it is the current one exactly if no other is RUNNABLE |
| `Sched.ReachedInTurn` | kern/sched.c:11-34 | a task that stays runnable is reached within as many decisions as it is places away |
| `Sched.BoundedWaiting` | kern/sched.c:11-34 | of n tasks, one that stays runnable runs within n - 1 decisions |
| `Sched.Scheduler.constructor` | kern/task.c:18-20 | a well-formed list with no task running |
| `Sched.Scheduler.TaskRun` | kern/task.c:167-189 | the task switched to is RUNNING with its priority one less, the one left is RUNNABLE if it was RUNNING and else keeps its state, every other task is unchanged; only the current task is RUNNING |
| `Sched.Scheduler.Scan` | kern/sched.c:22-30 | the first runnable task of the stretch |
| `Sched.Scheduler.Pick` | kern/sched.c:21-31 | the two loops make the round-robin choice |
| `Sched.Scheduler.Decide` | kern/sched.c:21-33 | choice and switch, in terms of the task states |
| `Sched.Scheduler.Start` | kern/sched.c:18-19 | without a current task the first of the list becomes current |
| `Sched.Scheduler.SchedYield` | kern/sched.c:11-34 | panics exactly on an empty list; else the task switched to was RUNNABLE or is the current one, no RUNNABLE task lies nearer in list order, it stays with the current one exactly if no other is RUNNABLE, and every task state after the switch; any RUNNING task is current |
| `Sched.Scheduler.Yield` | kern/sched.c:36-40 | the current task stays eligible |
| `Sched.Scheduler.SleepOn` | kern/task.c:242-249 | the current task stops on the channel, the round-robin choice runs, and that is the same task only if nothing is runnable |
| `Sched.Scheduler.Wakeup` | kern/task.c:255-263 | exactly the tasks stopped on the channel become runnable |
| `Sched.Scheduler.RunsWithin` | kern/sched.c:11-34 | bounded waiting over every run of the scheduler: from any decision on, a task that stays runnable becomes current within as many decisions as it is places away |
| `SfsFormat.BlockByte` | tools/mk_sfs.c:213-222 | byte k of a file is byte k mod 512 of its block k div 512 |
| `SfsFormat.IndexLength` | tools/mk_sfs.c:400-465 | the number of index entries |
| `SfsFormat.NieExact` | tools/mk_sfs.h:21 | how many continuation entries a name gets: none up to 28 bytes, then one more for every 64 |
| `SfsFormat.Room` | tools/mk_sfs.c:400-465 | both bounds on the index and data areas in bytes of names and contents |
| `SfsFormat.ShortNames` | tools/mk_sfs.c:423-433 | one index entry per file exactly when no name is longer than 28 bytes |
| `SfsFormat.PrefixFits` | tools/mk_sfs.c:42-49 | fewer files need no more room |
| `SfsImage.AddressesAgree` | fs/sfs/sfs.c:66-76 | the builder's and the kernel's address of an index entry are the same byte; entries lie back to back from the end of the volume down |
| `SfsImage.EntryAfterEntry` | tools/mk_sfs.c:101-104 | writing an index entry changes that entry only |
| `SfsImage.BlockAfterEntry` | tools/mk_sfs.c:101-104 | an index write spares every block below |
| `SfsImage.EntryAfterBlock` | tools/mk_sfs.c:91-94 | a block write spares every index entry above |
| `SfsImage.DataBelowIndex` | tools/mk_sfs.c:42-49 | with the space test passed, all data lies below all index entries |
| `SfsImage.SlotClean` | tools/mk_sfs.c:101-104 | an index write after a passed space test does not fall on data |
| `SfsImage.OverwritesOnce` | tools/mk_sfs.c:212-222 | a run that stores a data block over index entries |
| `SfsImage.Culprit` | tools/mk_sfs.c:400-465 | only the first file that does not fit can cause such a store |
| `SfsImage.CalcChecksum` | tools/mk_sfs.c:51-60 | the check bytes added up modulo 256 |
| `MkSfs.HoldsBlock` | tools/mk_sfs.c:220-222 | one more data block leaves all data and index in place |
| `MkSfs.HoldsMark` | tools/mk_sfs.c:433-434 | moving the marker leaves all data and index in place |
| `MkSfs.FillDown` | tools/mk_sfs.c:443-463 | setting entries downwards from the marker leaves all data and index in place |
| `MkSfs.Checked` | tools/mk_sfs.c:181-183 | the check byte makes the sum zero |
| `MkSfs.Sizes` | tools/mk_sfs.c:189-198 | the final sizes lie outside the checked bytes |
| `MkSfs.RootHolds` | tools/mk_sfs.c:229-243 | volume identifier, root directory and marker are in place |
| `MkSfs.Builder.constructor` | tools/mk_sfs.c:484 | an empty image |
| `MkSfs.FreshSuper` | tools/mk_sfs.c:169-180 | the fields of a new superblock read back |
| `MkSfs.Builder.InitSb` | tools/mk_sfs.c:165-187 | a superblock for an empty volume with a zero check sum |
| `MkSfs.Builder.InitRoot` | tools/mk_sfs.c:379-398 | an image without files, exactly when it fits |
| `MkSfs.Builder.StoreBlock` | tools/mk_sfs.c:219-221 | one block stored and then the space test: which blocks it falls on, and when the run ends |
| `MkSfs.Builder.WriteIndex` | tools/mk_sfs.c:101-104 | one entry of the index area, nothing else |
| `MkSfs.Builder.WriteData` | tools/mk_sfs.c:200-226 | the file's blocks behind the data area, everything else in place, or no space; a store falls on a block with index entries if and only if the space ends and the marker does not fill its block, and then it is the last |
| `MkSfs.Builder.WriteEntries` | tools/mk_sfs.c:436-463 | header and continuation entries below the marker, everything else in place |
| `MkSfs.Builder.WriteFile` | tools/mk_sfs.c:400-465 | the image holds one more file, or the space test fails, and then a store fell on index entries if and only if the entries still fit and the marker does not fill its block |
| `MkSfs.Builder.UpdateSb` | tools/mk_sfs.c:189-198 | the superblock describes the finished image, check sum still zero |
| `MkSfs.Build` | tools/mk_sfs.c:469-501 | the image holds the files in order; success exactly when data and index fit; a store falls on index entries or data if and only if `Overwrites` holds of the files, and it is the last; how many entries and blocks that is, in bytes of names and contents |
| `SfsReader.Lookup` | fs/sfs/sfs.c:408-483 | the most recently packed match, or none |
| `SfsReader.IndexPrefix` | tools/mk_sfs.c:432-463 | later files only add to the data and index areas |
| `SfsReader.HeaderAt` | fs/sfs/sfs.c:408-483 | where each header lies and how far the next older one is |
| `SfsReader.BlocksAt` | tools/mk_sfs.c:224-225 | the blocks of a file start at its recorded block |
| `SfsReader.BlockSlice` | fs/sfs/sfs.c:510-517 | a stretch of one block is a stretch of the file |
| `SfsReader.FileFields` | inc/fs_sfs.h:104-112 | type, count, first and last block, length and name of a file entry read back |
| `SfsReader.DirFields` | inc/fs_sfs.h:97-102 | all fields of a packed directory entry read back in the builder's layout, and what the kernel sees in it |
| `SfsReader.FixedFields` | tools/mk_sfs.c:229-243 | volume identifier and start marker read back, every byte |
| `SfsReader.FirstEntries` | tools/mk_sfs.c:379-398 | the index of every list of files starts with the identifier and the root directory |
| `SfsReader.PrefixMatch` | fs/sfs/sfs.c:452 | comparing with the padded name is comparing with a prefix of the name |
| `SfsReader.HeaderMatch` | fs/sfs/sfs.c:419-474 | at a header: the kind, the step and the match |
| `SfsReader.SameName` | kern/string.c:68-85 | strncmp is zero exactly when the bytes agree |
| `SfsReader.ScanStep` | fs/sfs/sfs.c:417-481 | one step of the scan goes from header to header |
| `SfsReader.FullName` | fs/sfs/sfs.c:457-468 | name field and continuation entries make up the whole name |
| `SfsReader.FileBlock` | fs/sfs/sfs.c:510-517 | bytes of a file as they lie in the data area |
| `SfsReader.EntryOnDisk` | fs/sfs/sfs.c:66-76 | the kernel's block and offset give the index entry |
| `SfsReader.Reader.ReadBlock` | fs/sfs/sfs.c:45-52 | one sector of the disk |
| `SfsReader.Reader.CheckSfs` | fs/sfs/sfs.c:364-405 | mounted exactly on the right magic; the numbers are the superblock's |
| `SfsReader.Reader.ReadDataBlock` | fs/sfs/sfs.c:54-57 | a block of the data area |
| `SfsReader.Reader.ReadIndex` | fs/sfs/sfs.c:66-76 | an entry of the index area |
| `SfsReader.Reader.LongName` | fs/sfs/sfs.c:457-467 | the continuation entries in name order |
| `SfsReader.Reader.FindIndex` | fs/sfs/sfs.c:408-483 | finds the most recent match; the scan lands on every header once and never on a continuation entry |
| `SfsReader.Reader.ReadFile` | fs/sfs/sfs.c:489-520 | the first min(nb, length) bytes of the most recent match, rest zero; -1 without one |
| `SfsReader.Files.constructor` | fs/sfs/sfs.c:28-29 | nothing is open |
| `SfsReader.Files.IbufAlloc` | fs/sfs/sfs.c:98-107 | the first unused slot, or none |
| `SfsReader.Files.FreeFd` | fs/sfs/sfs.c:233-243 | the first free place among the open files, or none |
| `SfsReader.Files.FdAlloc` | fs/sfs/sfs.c:159-170 | the first free descriptor, now in use, or none |
| `SfsReader.Files.Install` | fs/sfs/sfs.c:233-260 | fails exactly when one of the three tables is full; else the descriptor names the entry at position 0 and no other descriptor changes |
| `SfsReader.Reader.Open` | fs/sfs/sfs.c:211-261 | fails exactly when nothing matches or a table is full; else a descriptor for the most recent match at position 0 |
| `SfsReader.Reader.ReadPart` | fs/sfs/sfs.c:281-285 | part of one block |
| `SfsReader.Reader.ReadFrom` | fs/sfs/sfs.c:276-303 | min(n, rest) bytes from the position on, which moves by that |
| `SfsReader.Reader.Read` | fs/sfs/sfs.c:264-304 | the same on a descriptor, -1 beyond the table; no other descriptor moves |
| `SfsReader.Reader.ReadRest` | fs/sfs/sfs.c:292-301 | the block loop of sfs_read |
| `SfsReader.Reader.ReadAll` | fs/sfs/sfs.c:264-304 | any run of reads gives the file's prefix of length min(sum, length) |
| `SfsReader.Reader.ReadsAgree` | fs/sfs/sfs.c:489-520 | reading in pieces agrees with sfs_read_file |
| `SfsReader.PackAndRead` | tools/mk_sfs.c:469-501 | mk_sfs, memory disk, buffer cache and sfs_read_file together: the first nb bytes of the newest file whose name starts with the query, or -1, for every list of files that fits, with the room that takes in bytes of names and contents |

## Left out

- Heap.KernelHeap.Kmalloc: assumes free pages for the growth and an end below HEAP_END, because alloc_chunk ignores a failed kalloc_page and mappages and then writes through address 0.
- HeapSpace.Space.Grow: the same.
- HeapSpace.Space.AllocChunk: the same.
- Heap.KernelHeap.Extend: the same.
- Heap.KernelHeap.RequestAndRelease: the same.
- Heap.KernelHeap.Kfree: only for live blocks; freeing anything else is undefined in the source.
- Mm.Mmu.KfreePage: only for pages the caller holds; the source would link a page in use, or the one behind the last page, into the free list.
- Mm.Mmu.Mappages: the run stays below the last virtual page, since the loop variable wraps there; frames mapped outside the window are held by the caller; the window is not mapped for user mode.
- Mm.Mmu.Mapkvm: assumes the linker symbol `data` on a page boundary between KERNLINK and the end of memory.
- Mm.Mmu.UnmapPage: pages outside the kernel window, whose frames have one owner each; the window maps every frame a second time.
- Mm.Mmu.RegionAlloc: regions below KERNBASE, as its callers use it.
- Mm.Mmu.CopyPage: two different address spaces and an aligned page outside the kernel window, as its comment asks.
- Mm.Mmu.CopyUvm: sz at most KERNBASE.
- Mm.Mmu.Copyout: ranges that end below 2^32, where the address wraps around.
- Exec.SetupArgs: argument strings are values, so they cannot overlap the stack being written; the arguments fit below USTACKTOP, else sp wraps around.
- Cache.BufferCache.Bread: the memory disk only; `HdCache` has the hard disk. Buffers of both disks in one run are not modelled.
- Cache.BufferCache.Bwrite: the same.
- Cache.BufferCache.Getblk: device numbers below 0xFFFF, the number of an unused buffer.
- HdCache.Step: holders get their buffers through bread, so a buffer is read before it is changed, written or given back; sectors exist on the disk; any idle buffer may be recycled, where `Cache.BufferCache.Getblk` says which one is.
- Cache.BufferCache.ReadBlock: a buffer is free and nobody holds the block; else bread waits or panics, as `Bread` says.
- Cache.BufferCache.WriteBlock: the same.
- Cache.BufferCache.BreadNblocks: the same for each block.
- Hd.HdDriver.HdRw: the sector exists on the disk. How a waiting caller sleeps and wakes is in `Sched`; device status polling and port numbers are not modelled.
- Sched.Scheduler.SchedYield: one decision up to the first context switch, over an acyclic list; wait and fork reuse list slots and do not keep the list acyclic.
- SfsReader.Reader.FindIndex: queries of up to 30 bytes without zero bytes; longer ones make strncmp read behind the entry. The kmalloc for long names succeeds.
- SfsReader.Reader.Open: the kmalloc for the cached name succeeds.
- SfsReader.Reader.Read: descriptors that are open on a regular file; others dereference a null pointer or read a directory.
- MkSfs.Build: host errors in stat, open, read and lseek; volumes of 2^23 blocks or more, where the 32-bit byte offset wraps; files of 2 GB or more. A continuation entry whose name part starts one byte behind the terminator is empty, where the source reads that byte.
- MkSfs.Builder.InitRoot: the directory items '.' and '..' are built in a local buffer that is never written, so the root's block stays zero.
- namei, search_dir and the inode cache of tools/mk_sfs.c: not called by its main.
- sfs_cat_file, sfs_stat: the same lookup and block loop with printing or fewer fields.
- ELF loading in exec and load_icode, fork's trap frame, wait and exit.
- Boot code, interrupts, port I/O, console, keyboard, timer, serial line, printk, the shell.
- fs/ext2 and fs/minix.
