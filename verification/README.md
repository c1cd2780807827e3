# Verification of ayumos

ayumos is a small kernel for the MC68010. This project models the parts of it whose correctness rests on more than
one function at a time, and proves what they promise over all inputs or all runs.

- **Memory.** The heap allocator on one flat byte memory with in-line headers (`Heap.dfy`) refines a list of blocks
  (`HeapBlocks.dfy`), on which safety of whole runs is proved. The slab allocator with bitmaps, free counts and slab
  chains (`Slab.dfy`) refines a list of slabs (`SlabModel.dfy`), on which its runs are compared with the ledger of the
  objects that clients hold.
- **Processes.** The scheduler on intrusive circular lists (`Lists.dfy`, `Sched.dfy`) refines a round-robin state
  machine (`RoundRobin.dfy`), on which queue soundness and bounded waiting are proved.
- **Names and devices.** `path_canonicalise` in its one buffer (`Paths.dfy`), and the device tree with its stackless
  iteration (`Devices.dfy`) over a pre-order listing (`Preorder.dfy`).
- **Storage.** The direct-mapped block cache (`BlockCache.dfy`) and byte-granular file access over blocks (`Vfs.dfy`).
- **Programs and symbols.** The two-pass ELF loader (`Elf.dfy`), and the symbol-table writer with its in-kernel reader
  (`Ksym.dfy`).
- **Numbers.** Fletcher's checksum with deferred reduction and the Internet checksum (`Checksums.dfy`), decimal
  printing (`Numerals.dfy`), `strtoul` (`Parsing.dfy`), dotted quads (`Addresses.dfy`), and table-driven calendar
  conversion (`Calendar.dfy`).

`Bytes.dfy` and `Options.dfy` hold what these share. Imperative code is modelled imperatively, on arrays and objects;
each method is tied to a function or a state of the model beside it. Sections bracketed by `preempt_disable` and
`preempt_enable` are single steps. Values chosen by drivers, memory and clients are parameters.

## Where the code does not do what it is for

These are proved, with the exact condition under which the code does.

- A heap request above 2^32-4 bytes is rounded to zero by wrap-around. If the first free block has more than 11 bytes
  it then splits off an empty block, and every later scan stops there (`HeapBlocks.MallocKeepsWellFormed`).
- A heap of 17 bytes is rounded down to 16 and starts with an empty block (`HeapBlocks.InitialWellFormed`).
- `heap_calloc` multiplies in 32 bits, so that 2^31+1 elements of two bytes get four bytes (`HeapBlocks.CallocRoom`,
  `HeapBlocks.CallocWraps`).
- `slab_create` writes only parts of its bitmap and takes the rest as zero, but its caller
  (`ayumos/kernel/entry.c:65`) hands over memory behind `.bss` that nothing has cleared. Where the bytes left
  alone are not zero, the free count is too high, and allocation can run off the full bitmap (`Slab.CountAgainstBitmap`, `Slab.DirtyRegion`).
- The single fold of `net_cksum` loses a carry; a buffer can fail to verify against its own checksum
  (`Checksums.ChecksumVerifies`).
- `strtoul` checks the multiplication for overflow but not the addition of the digit, so 4294967296 parses as 0
  (`Parsing.OverflowNoticed`). When it stops at another character it returns neither range error nor negated value
  (`Parsing.SignLost`); without digits the end pointer can be wrong (`Parsing.EndLost`). `Parsing.StrtoulExact` says
  for which strings it is right.
  A comment says that negative numbers equate to zero; the code negates modulo 2^32, and the model follows the code.
- A short write through `vfs_write` can store bytes and report a negative count (`Vfs.ReportedAgainstStored`,
  `Vfs.ShortWriteReportsLess`). A short read before a write makes the clipped count negative, which then goes to
  `memcpy`, exactly when one block was read and the range ends inside its last block, nearer to that block's start than
  it begins in its first (`Vfs.ShortReadExact`, `Vfs.ShortReadFails`).
- A short read through `vfs_read` ignores the size of the node and returns bytes behind the end of the file, as
  happens at the end of a cluster chain (`ayumos/kernel/fs/fat/fat.c:831`); so does a complete one whose range wraps
  around 32 bits (`Vfs.ReadStaysInFile`, `Vfs.ReadPastEnd`, `Vfs.ReadWraps`). An offset behind the end of the file makes
  a negative count go to `memcpy` (`Vfs.ReadCountExact`, `Vfs.ReadBehindEnd`).
- `rtc_time_to_timestamp` shifts all of 1901, refuses the last representable second, and lets dates beyond it wrap
  around (`Calendar.ToTimestampExact`, with `Shifted1901`, `LastSecondRefused` and `NextDayWraps`). It reads months
  from 1 where `timestamp_to_rtc_time` stores them from 0, and `day_of_week` returns 1 to 7 where its comment says
  0 to 6; the model follows the code. For timestamps of 2038 `timestamp_to_rtc_time` reads behind the year table,
  to no effect on its result (`Calendar.FindYear`).
- `strtoipv4` accepts text behind the last part (`Addresses.AcceptedExactly`, `Addresses.JunkAccepted`).
- `block_write` trusts the driver's result. A driver that stores the block and returns 0, as `ata_write` does
  (`ayumos/kernel/device/ata.c:411-414`), makes the write fail and leaves the old bytes in the slot for later reads
  (`BlockCache.Cache.BlockWrite`, `BlockCache.Cache.StaleRead`).
- A failed read that has begun to fill its slot spoils the block still cached there (`BlockCache.Cache.SpoiltSlot`).
- A block cache without slots sends every access to block 0 (`BlockCache.Cache.NoSlots`); and a zero flag left by a
  write without buffer makes later reads of that slot return zeros (`BlockCache.Cache.ZeroFlagLeft`).
- The only runnable process must not sleep or exit (`RoundRobin.StepKeepsInv`, `Sched.Kernel.ProcSleep`).
- A device whose initialisation fails stays in the tree when its shut-down handler refuses
  (`Devices.DeviceTree.Create`).

## Model

| member | source | states |
|---|---|---|
| `HeapBlocks.HeapSafety` | ayumos/kernel/memory/heap.c:73-267 | Over every run of malloc, calloc, realloc and free on a fresh heap longer than 16 bytes: headers tile the heap up to one zero-size end marker, no earlier block has size zero, headers stay 4-aligned with the start, blocks never overlap, and free bytes + used bytes + 8 per block equal the heap size |
| `HeapBlocks.RunKeepsBlock` | ayumos/kernel/memory/heap.c:97-267 | A live block keeps its place and size through every run that never frees or successfully reallocates it |
| `HeapBlocks.RunKeeps` | ayumos/kernel/memory/heap.c:97-267 | The heap invariant holds after every admissible run |
| `HeapBlocks.StepKeeps` | ayumos/kernel/memory/heap.c:97-267 | Each admissible request keeps the invariant and every live block it is not asked to give up |
| `HeapBlocks.MallocKeepsWellFormed` | ayumos/kernel/memory/heap.c:97-137 | malloc keeps the invariant if and only if it is not a request above 2^32-4 (rounded to zero by wrap-around) that splits an empty block off a larger one |
| `HeapBlocks.OversizedRequestBreaksHeap` | ayumos/kernel/memory/heap.c:100-104 | That exception occurs: one request of 2^32-3 bytes on a 64-byte heap leaves a zero-size block first, after which every request fails |
| `HeapBlocks.InitialWellFormed` | ayumos/kernel/memory/heap.c:73-90 | heap_init gives a well-formed heap if and only if the rounded length exceeds two headers |
| `HeapBlocks.MallocFailsIffNoFit` | ayumos/kernel/memory/heap.c:97-137 | For a non-zero request malloc returns NULL exactly when no free block is as large as the rounded request |
| `HeapBlocks.MallocFailure` | ayumos/kernel/memory/heap.c:97-137 | A malloc that returns NULL changes no block |
| `HeapBlocks.MallocPlacement` | ayumos/kernel/memory/heap.c:97-137 | A successful malloc hands out the front of a block that was free, at least the rounded request long, disjoint from every other block and header; no other allocated block appears, moves or disappears |
| `HeapBlocks.MallocKeepsLive` | ayumos/kernel/memory/heap.c:97-137 | Blocks allocated before a malloc stay allocated; the new pointer was not live before and is live after |
| `HeapBlocks.FirstFitComplete` | ayumos/kernel/memory/heap.c:108-132 | The scan by header sizes reaches every block: it misses only if no free block is large enough, and takes the first that is |
| `HeapBlocks.FreeKeepsWellFormed` | ayumos/kernel/memory/heap.c:230-267 | free of NULL or a live pointer keeps the invariant, makes that pointer dead, and leaves every other allocated block as it is |
| `HeapBlocks.ReallocMoves` | ayumos/kernel/memory/heap.c:174-224 | After a realloc of an allocated pointer either nothing has changed (no room), or the old pointer is dead, a pointer that was dead before holds the bytes asked for, and every other allocated block stands as before; size 0 only makes the pointer dead |
| `HeapBlocks.ReleaseShape` | ayumos/kernel/memory/heap.c:230-267 | The freed block absorbs exactly the run of free blocks behind it; all others keep place and size |
| `HeapBlocks.Conservation` | ayumos/kernel/memory/heap.c:274-317 | Free bytes + used bytes + 8 per block equal the heap size for any tiling |
| `HeapBlocks.UsedAfterMalloc` | ayumos/kernel/memory/heap.c:97-137 | The bytes in use rise by the size of the block handed out, which is at most 11 more than the rounded request |
| `HeapBlocks.UsedAfterFree` | ayumos/kernel/memory/heap.c:230-267 | The bytes in use fall by the size of the block released; releasing what is not allocated changes nothing |
| `HeapBlocks.NothingUsed` | ayumos/kernel/memory/heap.c:73-90 | A fresh heap has no byte in use and all but 16 free |
| `HeapBlocks.CallocRoom` | ayumos/kernel/memory/heap.c:144-150 | The block calloc hands out holds the elements asked for if and only if their total size, not reduced modulo 2^32, is at most 2^32-4 |
| `HeapBlocks.CallocWraps` | ayumos/kernel/memory/heap.c:144-150 | 2^31+1 elements of two bytes get a block of four bytes |
| `Heap.HeapCtx.constructor` | ayumos/kernel/memory/heap.c:73-90 | heap_init writes two headers that encode one free block and the end marker, for the length rounded down to even |
| `Heap.HeapCtx.Serve` | ayumos/kernel/memory/heap.c:97-267 | Over every run of admissible requests on one byte memory: the blocks are those of the run on block lists, and a block no request gives up keeps its place, its size and every payload byte |
| `Heap.HeapCtx.Perform` | ayumos/kernel/memory/heap.c:97-267 | One request of any kind: the abstract step, and every payload byte of each block it does not give up is as before |
| `Heap.HeapCtx.ClientWrite` | ayumos/kernel/memory/heap.c:97-267 | A store inside an allocated payload leaves every header and every other allocated payload as it is |
| `Heap.HeapCtx.Malloc` | ayumos/kernel/memory/heap.c:97-137 | On the byte memory: first fit with splitting; a pointer returned was dead before, stands 8 bytes behind the header of an allocated block and holds the request; every other allocated block, its payload bytes included, is as before; a failure changes no byte |
| `Heap.HeapCtx.CarveAt` | ayumos/kernel/memory/heap.c:111-129 | Allocating the block at an address rewrites only headers, and the memory then encodes the split list |
| `Heap.HeapCtx.Calloc` | ayumos/kernel/memory/heap.c:144-167 | As malloc of the 32-bit product; elements whose total does not wrap around have their room, all of it zero although whole words are cleared downwards |
| `Heap.HeapCtx.Realloc` | ayumos/kernel/memory/heap.c:174-224 | Failure changes nothing, a pointer without an in-use header included; success and size 0 make the old pointer dead and leave every other allocated block; the new pointer was dead before and holds the request, its first min(old, new) bytes those of the old block although whole words are copied |
| `Heap.HeapCtx.CopyGrant` | ayumos/kernel/memory/heap.c:196-212 | The word loop of realloc carries the common prefix into the fresh block and leaves all other live payloads alone |
| `Heap.CopyWords` | ayumos/kernel/memory/heap.c:201-212 | Copying words downwards between disjoint ranges copies exactly those bytes |
| `Heap.ClearWords` | ayumos/kernel/memory/heap.c:151-163 | Clearing words downwards clears exactly those bytes |
| `Heap.HeapCtx.Free` | ayumos/kernel/memory/heap.c:230-267 | The pointer is dead, every other allocated block stands as before, and only the 8 header bytes change; a double free and any pointer without an in-use header in front change nothing |
| `Heap.HeapCtx.AbsorbAt` | ayumos/kernel/memory/heap.c:250-256 | The merging loop grows the block to the next allocated header and stops inside the heap |
| `Heap.HeapCtx.FreeMem` | ayumos/kernel/memory/heap.c:274-292 | Returns the total size of the free blocks, without 32-bit overflow |
| `Heap.HeapCtx.UsedMem` | ayumos/kernel/memory/heap.c:299-317 | Returns the total size of the allocated blocks, without 32-bit overflow |
| `Lists.ListInit` | ayumos/kernel/include/list.h:184-188 | Makes an empty circular list |
| `Lists.ListAppend` | ayumos/kernel/include/list.h:229-232 | The cycle, with next and prev mutually inverse, gains the entry right behind the given position |
| `Lists.ListInsert` | ayumos/kernel/include/list.h:240-243 | The cycle gains the entry right before the given position |
| `Lists.ListDelete` | ayumos/kernel/include/list.h:252-257 | The cycle loses exactly that entry, whose own links are invalidated |
| `Lists.ListMoveAppend` | ayumos/kernel/include/list.h:279-283 | The entry leaves one cycle and stands behind the given position of another; both stay sound |
| `Lists.ListMoveInsert` | ayumos/kernel/include/list.h:291-295 | The entry leaves one cycle and stands before the given position of another; both stay sound |
| `Lists.ListIsLast` | ayumos/kernel/include/list.h:303-306 | True exactly for the last entry of the list |
| `RoundRobin.StepKeepsInv` | ayumos/kernel/sched.c:56-83 | Create, yield and wake keep "both queues together hold each process once and the current one is runnable"; sleep and exit keep it if and only if another process is runnable |
| `RoundRobin.StepQueues` | ayumos/kernel/sched.c:56-83 | A created process queues up last and a woken one first; a switch gives the CPU to the process behind the current one in the circle, which stays in its place, goes last to sleep, or disappears |
| `RoundRobin.StepAlive` | ayumos/kernel/process.c:137-142 | No step loses or duplicates a process: create adds exactly one, exit removes exactly the current one |
| `RoundRobin.RunAlive` | ayumos/kernel/sched.c:56-83 | Over every feasible run the processes on the two queues are exactly those on hand at first and created since, without those that have exited |
| `RoundRobin.RunSafety` | ayumos/kernel/sched.c:56-83 | Every feasible run keeps both queues duplicate-free and disjoint with the current process on the run queue, and a process is on one of them exactly if the account of creations and exits has it alive |
| `RoundRobin.SwitchDistance` | ayumos/kernel/sched.c:65-73 | Every switch, also one in which the outgoing process sleeps or exits, brings each other runnable process exactly one place nearer |
| `RoundRobin.InsertionDistance` | ayumos/kernel/process.c:310-333 | A create or wake puts at most one place between the CPU and a waiting process, and none nearer |
| `RoundRobin.BoundedWaiting` | ayumos/kernel/sched.c:56-83 | A runnable process gets the CPU within (initial distance + later creates and wakes) switches, over every feasible run |
| `RoundRobin.OneRound` | ayumos/kernel/sched.c:56-83 | A runnable process gets the CPU within one round of the run queue, and two more events for each process created or woken meanwhile |
| `Sched.Kernel.constructor` | ayumos/kernel/sched.c:26-50 | The running thread becomes the one process, with id 0, on the run queue |
| `Sched.Kernel.Sched` | ayumos/kernel/sched.c:56-83 | On the linked queues: next process round robin, a sleeping outgoing process moved to the end of the sleep queue, both switch counters advanced modulo 2^32; equals the abstract yield or sleep step |
| `Sched.Kernel.PickNext` | ayumos/kernel/sched.c:63-69 | The successor in the circular run queue, from the last entry to the first |
| `Sched.Kernel.ProcSleep` | ayumos/kernel/process.c:269-278 | Equals the abstract sleep step on sound links; the scheduler stays sound if and only if another process was runnable |
| `Sched.Kernel.Yield` | ayumos/kernel/sched.c:56-83 | Equals the abstract yield step |
| `Sched.Kernel.ProcCreate` | ayumos/kernel/process.c:60-147 | The new process gets the next id, the one after it modulo 2^16 is next, and it has the last place in the run queue; when getting its resources fails, the queues and the next id are as before |
| `Sched.IdsDistinct` | ayumos/kernel/process.c:141 | Up to 65536 ids that each follow the one before modulo 2^16 are pairwise distinct |
| `Sched.Kernel.CreateMany` | ayumos/kernel/process.c:137-147 | Up to 65536 processes created one after the other get pairwise distinct ids |
| `Sched.Kernel.FindSleeper` | ayumos/kernel/process.c:321-329 | The scan returns the first sleeping process with the id, or none |
| `Sched.Kernel.ProcWakeById` | ayumos/kernel/process.c:310-333 | Only a sleeping process is woken: it moves to the front of the run queue; otherwise nothing changes |
| `Sched.Kernel.ProcDestroy` | ayumos/kernel/process.c:232-263 | The exiting process leaves the run queue after the switch, with its exit code: the abstract exit step on sound links; the scheduler stays sound if and only if another process was runnable |
| `Paths.PathCanonicalise` | ayumos/klibc/stdlib.c:52-114 | For every string the buffer ends up holding the canonical form, never longer than the input, and no byte behind the terminator changes |
| `Paths.CanonicalStack` | ayumos/klibc/stdlib.c:52-114 | The canonical form renders the stack obtained by dropping empty and "." components and popping on ".." |
| `Paths.NameLaw` | ayumos/klibc/stdlib.c:98-103 | A plain name behind any path goes behind its canonical form |
| `Paths.UpLaw` | ayumos/klibc/stdlib.c:88-97 | ".." behind a path takes the last component of its canonical form away, if there is one |
| `Paths.DotLaw` | ayumos/klibc/stdlib.c:64-87 | A separator, or a separator and ".", behind a path changes nothing |
| `Paths.DownAndUp` | ayumos/klibc/stdlib.c:88-103 | Down into a plain name and up again by ".." leads back, for every path |
| `Paths.BaseLaw` | ayumos/klibc/stdlib.c:52-114 | The empty path, ".", ".." and "/.." become empty, and a plain name stays |
| `Paths.LawsDetermine` | ayumos/klibc/stdlib.c:52-114 | Any function on strings that obeys these laws is path canonicalisation: they say what becomes of every path |
| `Paths.CanonicalLawful` | ayumos/klibc/stdlib.c:52-114 | Path canonicalisation obeys them all |
| `Paths.CanonicalAbsolute` | ayumos/klibc/stdlib.c:52-114 | For an absolute path it is "/" before each name of that stack, and empty for the root |
| `Paths.CanonicalIdempotent` | ayumos/klibc/stdlib.c:52-114 | Canonicalising twice is canonicalising once |
| `Paths.SplitJoined` | ayumos/klibc/stdlib.c:60-105 | Splitting a rendered stack gives the stack back |
| `Paths.TakeComponent` | ayumos/klibc/stdlib.c:76-104 | One component read is one step on the stack written, and the write position never passes the read position |
| `Paths.Rewind` | ayumos/klibc/stdlib.c:88-97 | Walking the output back for ".." removes exactly the last component written |
| `Paths.Terminate` | ayumos/klibc/stdlib.c:107-111 | The trailing separator goes and the string ends after the rendered stack |
| `SlabModel.SlabSafety` | ayumos/kernel/memory/slab.c:145-271 | Over every run on an empty region the objects in client hands are marked, pairwise disjoint, and clear of every slab header and bitmap |
| `SlabModel.RunMatchesLedger` | ayumos/kernel/memory/slab.c:145-271 | Over every run exactly the objects handed out and not yet freed are marked in use outside the reserved cells |
| `SlabModel.AllocLive` | ayumos/kernel/memory/slab.c:145-224 | An allocation hands out one object of the radix that was not live and changes nothing else; it fails only when every slab of the radix is full and no slab can be added, and then changes nothing |
| `SlabModel.FreeLive` | ayumos/kernel/memory/slab.c:245-271 | Freeing a live object makes it, and only it, free |
| `SlabModel.MaskingFindsCell` | ayumos/kernel/memory/slab.c:254-260 | Masking an object address gives its slab, and shifting the rest by the radix gives its bit |
| `SlabModel.LiveDisjoint` | ayumos/kernel/memory/slab.c:67-135 | Two live objects share no byte and none reaches into a header, a bitmap or another slab |
| `SlabModel.StatsCountLive` | ayumos/kernel/memory/slab.c:279-302 | Total minus free is the number of live objects of the radix |
| `SlabModel.Constants` | ayumos/kernel/include/memory/slab.h:16-23 | The reserved cells are the fewest that hold header and bitmap, and end before the last bitmap byte |
| `SlabModel.Capacity` | ayumos/kernel/include/memory/slab.h:16-23 | A slab holds 476, 246, 125, 63, 31 or 15 objects of 2 to 64 bytes |
| `Slab.SlabAllocator.constructor` | ayumos/kernel/memory/slab.c:50-60 | An empty allocator over an aligned region of whole slabs, whatever bytes its memory holds |
| `Slab.SlabAllocator.SlabCreate` | ayumos/kernel/memory/slab.c:67-135 | A bad radix or an exhausted region fails and changes nothing; otherwise a slab of the next piece, whatever it holds, is appended to the chain of its radix, only its bitmap written; bitmap and free count are those of a fresh slab if and only if the piece was blank where the bitmap is not written |
| `Slab.SlabAllocator.SlabAlloc` | ayumos/kernel/memory/slab.c:145-224 | On bitmaps, free counts and chains: the model step for the rounded size, and the address of its cell, provided that the piece for a new slab, if one is needed, is blank; no byte outside the bitmaps changes; sizes 0 and above 64 give NULL |
| `Slab.SlabAllocator.WalkChain` | ayumos/kernel/memory/slab.c:184-204 | The chain walk finds the first slab of the radix with a free cell, extending the chain at its end |
| `Slab.FindClear` | ayumos/kernel/memory/slab.c:206-215 | The byte scan and the bit scan stop inside the bitmap at the first clear bit |
| `Slab.InitBitmap` | ayumos/kernel/memory/slab.c:98-122 | Writes the bits of the reserved cells and the last byte and leaves the bytes between; the bitmap is that of a fresh slab if and only if those were zero |
| `Slab.LeftFresh` | ayumos/kernel/memory/slab.c:98-122 | The bits left are those of a fresh slab if and only if the bitmap bytes between the reserved bits and the last byte were zero |
| `Slab.CountAgainstBitmap` | ayumos/kernel/memory/slab.c:88-127 | The free count stored is never below the number of clear bits left, and equals it if and only if those bytes were zero |
| `Slab.BlankForAll` | ayumos/kernel/memory/slab.c:88-122 | A piece of memory is good for every radix if and only if the 62 bytes behind the first one after the header are zero |
| `Slab.DirtyRegion` | ayumos/kernel/memory/slab.c:88-127 | On memory full of ones a slab of 32-byte objects counts 31 free with 15 bits clear; after 15 allocations its bitmap is full and its count still positive |
| `Slab.ComputeRadix` | ayumos/kernel/memory/slab.c:156-166 | Rounding up and halving give the least radix whose objects hold the size |
| `Slab.SlabAllocator.SlabFree` | ayumos/kernel/memory/slab.c:245-271 | Clears the one bit of the object and counts it; NULL and an object that is free already change nothing; no byte outside the bitmaps changes |
| `Slab.SlabAllocator.Serve` | ayumos/kernel/memory/slab.c:145-271 | Over every run of requests on a blank region: the slabs are those of the run on slab lists, and every byte of every object live at the start is as before |
| `Slab.SlabAllocator.ClientWrite` | ayumos/kernel/memory/slab.c:67-271 | A store anywhere inside a live object changes that one byte and keeps bitmaps, free counts and chains of all slabs |
| `Slab.SlabAllocator.SlabGetStats` | ayumos/kernel/memory/slab.c:279-302 | The chain walk sums capacities and free cells over exactly the slabs of the radix |
| `Preorder.ListingIsPreorder` | ayumos/kernel/device/device.c:105-127 | The listing that dev_get_next follows is the pre-order walk of the tree, each subtree a stretch of it |
| `Preorder.LinksInverse` | ayumos/kernel/device/device.c:73-99 | In any listing next and previous sibling are mutually inverse and a first child has its parent and no previous sibling |
| `Devices.LeafLinked` | ayumos/kernel/device/device.c:73-99 | A listing with one more leaf is correctly linked if and only if exactly the prescribed links of its neighbours and its own are set |
| `Devices.DeviceTree.constructor` | ayumos/kernel/device/device.c:35-42 | A tree of one nameless root |
| `Devices.DeviceTree.GetNext` | ayumos/kernel/device/device.c:105-127 | From NULL the first device; from a device the next one of the pre-order listing, found by links alone; NULL after the last |
| `Devices.DeviceTree.Iterate` | ayumos/kernel/boot.c:56-60 | The loop from NULL until NULL visits every device exactly once, in the order of the listing |
| `Devices.DeviceTree.Climb` | ayumos/kernel/device/device.c:112-126 | The climbing loop finds the next sibling of the nearest ancestor that has one |
| `Devices.DeviceTree.FindSubtree` | ayumos/kernel/device/device.c:142-169 | The first device of that name in the subtree and the following siblings, none if there is none |
| `Devices.DeviceTree.Find` | ayumos/kernel/device/device.c:133-136 | NULL if and only if no device has the name |
| `Devices.DeviceTree.AddSuffix` | ayumos/kernel/device/device.c:177-191 | The first suffix character that gives an unused name; fails if and only if every suffix is taken |
| `Devices.DeviceTree.AddChild` | ayumos/kernel/device/device.c:73-99 | Refused exactly when the name is taken, changing nothing; else the child becomes the last child of its parent, behind all its siblings, every other link as before, names still distinct |
| `Devices.DeviceTree.LastSibling` | ayumos/kernel/device/device.c:91-92 | The walk over next links ends at the last child |
| `Devices.DeviceTree.Create` | ayumos/kernel/device/device.c:197-254 | A new last child under the first suffix that gives an unused name; no device when every name is taken or initialisation fails, and then the tree is as it was, unless the shut-down handler refuses: then the failed device stays as last child |
| `Devices.DeviceTree.Destroy` | ayumos/kernel/device/device.c:260-283 | A shut-down handler that returns 0 or -38 lets the device go with its whole subtree, and any other result keeps the device but not its subtree; the rest of the listing keeps its order and links, names still distinct |
| `Devices.DeviceTree.UnlinkLeaf` | ayumos/kernel/device/device.c:271-278 | Unlinking a childless device takes exactly it out of the listing |
| `Ksym.EmitTable` | ayumos/tools/makemap.c:160-191 | The output is the concatenation of one padded record per symbol, and the end marker |
| `Ksym.EmitRecord` | ayumos/tools/makemap.c:166-182 | Address, type, length, name, terminator and padding to a multiple of four |
| `Ksym.RecordLayout` | ayumos/tools/makemap.c:166-182 | Byte by byte: big-endian address, kind, own length, name, and zeros up to the next multiple of four |
| `Bytes.MostSignificantFirst` | ayumos/tools/makemap.c:166-169 | The bytes of a word are its shifts by 24, 16, 8 and 0 bits |
| `Ksym.DecodeImage` | ayumos/kernel/ksym.c:15-17 | Walking the emitted table visits exactly the symbols written, in order, with address, type and name intact |
| `Ksym.ImageAt` | ayumos/tools/makemap.c:169-191 | Each record stands at its offset and the marker right behind the last |
| `Ksym.OffsetAligned` | ayumos/tools/makemap.c:160-191 | Every record, and the marker, starts at a multiple of four |
| `Ksym.Stop` | ayumos/kernel/ksym.c:15-17 | The walk stops at the marker and nowhere else |
| `Ksym.SameName` | ayumos/kernel/ksym.c:27-32 | The name comparison in place is true exactly for equal names |
| `Ksym.FindByName` | ayumos/kernel/ksym.c:22-39 | The first entry with the name; -ENOENT if and only if there is none |
| `Ksym.FindNearestPrev` | ayumos/kernel/ksym.c:46-70 | The last entry with the greatest address not above the query; -ENOENT if and only if there is none |
| `Checksums.Fletcher16` | ayumos/kernel/util/checksum.c:17-39 | For every byte string both result bytes are the representatives in 1..255, modulo 255, of the plain sum and of the sum of prefix sums |
| `Checksums.AddBlock` | ayumos/kernel/util/checksum.c:26-29 | Twenty bytes without reduction never overflow the 16-bit accumulators |
| `Checksums.Fold8` | ayumos/kernel/util/checksum.c:31-36 | A fold keeps the residue modulo 255, never turns a positive sum into zero, and twice folded fits a byte |
| `Checksums.ResidueUnique` | ayumos/kernel/util/checksum.c:17-39 | The residue class and the range 1..255 determine the byte |
| `Checksums.ChangeDetected` | ayumos/kernel/util/checksum.c:17-39 | Replacing one byte changes the first sum, unless by 0 and 255 |
| `Checksums.SwapDetected` | ayumos/kernel/util/checksum.c:17-39 | Exchanging two neighbouring bytes changes the second sum, unless they are equal, or 0 and 255 |
| `Checksums.LettersExample` | ayumos/kernel/util/checksum.c:17-39 | "abcde" gives 0xC8F0 |
| `Checksums.NetCksum` | ayumos/kernel/net/net.c:138-156 | The 32-bit sum never overflows for up to 65535 bytes, and the result complements its single fold |
| `Checksums.WordSums` | ayumos/kernel/net/net.c:138-153 | Words are two bytes, the first one high; sums of stretches of whole words add up; an odd byte counts as if padded with 0 |
| `Checksums.SingleFoldExact` | ayumos/kernel/net/net.c:155 | The single fold agrees with the repeated fold of section 4.1 of RFC 1071 if and only if the two halves of the sum add without carry |
| `Checksums.FoldFullyResidue` | ayumos/kernel/net/net.c:155 | The repeated fold is the sum modulo 2^16-1, with 0 for nothing but 0 |
| `Checksums.ChecksumVerifies` | ayumos/kernel/net/net.c:138-156 | A buffer that carries its own checksum verifies to zero if and only if the halves of the first sum add without carry |
| `Checksums.ChecksumCanFail` | ayumos/kernel/net/net.c:138-156 | A concrete buffer whose stored checksum does not verify |
| `Checksums.FieldSum` | ayumos/kernel/net/net.c:138-156 | Storing a value in a zeroed aligned field adds exactly that value to the sum |
| `BlockCache.Cache.constructor` | ayumos/kernel/device/block.c:31-63 | All slots empty, so the cache agrees with every device |
| `BlockCache.HashInjective` | ayumos/kernel/device/block.c:66-72 | Before the reduction to the number of slots no two blocks of one device share a hash |
| `BlockCache.XorBits` | ayumos/kernel/device/block.c:66-72 | The exclusive or, bit by bit |
| `BlockCache.Cache.BlockRead` | ayumos/kernel/device/block.c:78-140 | A hit, and a miss whose driver delivers the block, give the current device block on a coherent cache, and zeros exactly under a pending zero flag; the cache stays coherent if and only if, on a miss, a reported block was delivered and a failed read left alone what the slot claims to hold |
| `BlockCache.Cache.BlockWrite` | ayumos/kernel/device/block.c:146-213 | Success puts the buffer into the slot and a failure changes no slot, whatever the driver stored; the cache stays coherent if and only if the driver stored what it reported and nothing else, or the bytes agree by luck: the device held them already, or the block was not cached or was cached with them |
| `BlockCache.Cache.StaleRead` | ayumos/kernel/device/block.c:193-198 | A driver that stores a block and returns 0 makes the write fail and the next read give the old bytes |
| `BlockCache.Cache.ZeroFlagLeft` | ayumos/kernel/device/block.c:78-213 | With one slot, a write without buffer makes the next read of any other block come back as zeros |
| `BlockCache.Cache.SpoiltSlot` | ayumos/kernel/device/block.c:107-113 | With one slot, a failed read of another block that has begun to fill the slot makes the next read of the cached block give its bytes |
| `BlockCache.Cache.NoSlots` | ayumos/kernel/device/block.c:78-140 | Without slots a read of any block gives block 0 |
| `BlockCache.Cache.BlockReadMulti` | ayumos/kernel/device/block.c:219-233 | All blocks read means each buffer is the current device block, whatever slots collide, or zeros exactly where its slot carried the zero flag before; the driver delivers what it reports |
| `BlockCache.Cache.BlockWriteMulti` | ayumos/kernel/device/block.c:239-266 | Complete if and only if every driver write reports its block; otherwise it ends at the first that does not, and the device holds exactly what the driver stored up to there |
| `BlockCache.Cache.OverwrittenAt` | ayumos/kernel/device/block.c:239-266 | After a run of writes each of its blocks holds its buffer and every other block is as before |
| `Vfs.File.VfsWrite` | ayumos/kernel/fs/vfs.c:435-498 | Exactly the bytes stored are spliced in at the offset, none elsewhere change; errors change nothing; return value as reported for complete and short transfers; an aligned write never depends on a read |
| `Vfs.File.VfsRead` | ayumos/kernel/fs/vfs.c:381-426 | The bytes of the blocks the driver moved, from the offset on: all asked for if they end inside the file, up to the size if they start inside it, and those of the blocks moved after a short transfer; allocator leftovers behind them when the driver answers more than it moved; errors give no bytes |
| `Vfs.ReadStaysInFile` | ayumos/kernel/fs/vfs.c:400-425 | From an offset inside the file the result ends inside the file if and only if a complete transfer has a range that does not wrap around 32 bits, or a short one stopped at or before the size; a range inside the file is always enough |
| `Vfs.ReadPastEnd` | ayumos/kernel/fs/vfs.c:400-413 | 1024 bytes from the start of a file of 100, one of two blocks moved: 512 bytes are returned |
| `Vfs.ReadWraps` | ayumos/kernel/fs/vfs.c:417-420 | 100 bytes from 2^32-10 on of a file of 2^32-5: all 100 are returned |
| `Vfs.ReadCountExact` | ayumos/kernel/fs/vfs.c:400-422 | The number of bytes to copy is a count if and only if the transfer was short, the offset is inside the file, or the end of the range wraps to within it |
| `Vfs.ReadBehindEnd` | ayumos/kernel/fs/vfs.c:417-422 | Ten bytes from 1000 on of a file of 100: -900 bytes to copy |
| `Vfs.ShortReadExact` | ayumos/kernel/fs/vfs.c:463-477 | After a short read the clipped count stays a count if and only if not just one block was read while the range ends earlier in its last block than it starts in its first |
| `Vfs.ShortReadFails` | ayumos/kernel/fs/vfs.c:463-477 | Twenty bytes at offset 500 with one of two blocks read: -492 bytes to copy |
| `Vfs.ReportedAgainstStored` | ayumos/kernel/fs/vfs.c:463-497 | A short write never reports more than it stored; it reports exactly that if and only if all blocks read back were written or the range ends on a block boundary |
| `Vfs.ShortWriteReportsLess` | ayumos/kernel/fs/vfs.c:483-494 | Twelve bytes stored, -492 reported: a short write of twenty bytes across a block boundary |
| `Vfs.CompleteTransfer` | ayumos/kernel/fs/vfs.c:435-498 | With complete transfers the whole count is stored and reported |
| `Vfs.LastWriteWins` | ayumos/kernel/fs/vfs.c:435-498 | After any run of complete writes each byte is that of the last write covering it, or the original one |
| `Vfs.BlocksCover` | ayumos/kernel/fs/vfs.c:390-391 | The computed blocks hold the range, inside the file, and one fewer would not |
| `Vfs.File.PatchedBlocks` | ayumos/kernel/fs/vfs.c:477-481 | Writing back the first patched blocks stores exactly the part of the patch they hold |
| `Numerals.PutDecimal` | ayumos/klibc/printf.c:303-362 | Writes the sign, the padding and the canonical decimal numeral, counts all of it, and drops what does not fit the buffer |
| `Numerals.PrintedParts` | ayumos/klibc/printf.c:303-362 | A printed text is a minus for the negative numbers of a signed conversion, then zeros or blanks up to the width, then the digits of the absolute value without leading zeros; only the zero of an explicit zero width has none |
| `Numerals.PutDigits` | ayumos/klibc/printf.c:350-362 | Repeated subtraction of powers of ten writes the canonical numeral and stays inside the table |
| `Numerals.RequiredDigits` | ayumos/klibc/printf.c:324-330 | The least number of digits that holds the value |
| `Numerals.CanonicalUnique` | ayumos/klibc/printf.c:303-362 | A digit string without leading zeros is the numeral of its value, so the printed text is determined |
| `Numerals.NumeralMeans` | ayumos/klibc/printf.c:303-362 | The numeral has the value and no leading zero |
| `Numerals.PowersOfTen` | ayumos/klibc/printf.c:30-42 | Every table entry is its power of ten |
| `Numerals.DigitAlphabet` | ayumos/klibc/stdlib.c:212-221 | The 36 digits in either case are worth their place in the alphabet; any other character is a digit in no base up to 36 |
| `Parsing.Strtoul` | ayumos/klibc/stdlib.c:160-258 | For every string and base the parsed value, end index and error are those of the specification, stops at other characters included; refused are exactly the bases 1, below 0 and above 36 |
| `Parsing.TakePrefix` | ayumos/klibc/stdlib.c:168-209 | Blanks, sign, base and prefix, as the specification has them |
| `Parsing.TakeDigits` | ayumos/klibc/stdlib.c:212-245 | Stops at the first character that is no digit of the base |
| `Parsing.ParseMeans` | ayumos/klibc/stdlib.c:160-258 | For blanks, a sign or none, a hexadecimal prefix or none, digits and a tail: the end of the digits, and in front of a tail the value modulo 2^32 without sign or range error, at the end of the string a range error if and only if some multiplication overflows, else the value modulo 2^32, negated under a minus |
| `Parsing.StrtoulExact` | ayumos/klibc/stdlib.c:160-258 | For every string and every base from 2 to 36: value, range error and end pointer are all right if and only if (at the end of the string the number fits or a multiplication overflows; in front of another character it fits and there is no minus, or it is 0 or 2^31) and (there is a digit, or neither a bare prefix nor nothing but blanks and sign) |
| `Parsing.ReadsBack` | ayumos/klibc/stdlib.c:160-258 | Any way of writing a 32-bit number down is read back: white space, a sign, 0x in base 16, digits of either case in any base, then the end or a character that is no digit; negated under a minus at the end |
| `Parsing.ReadsBackBase0` | ayumos/klibc/stdlib.c:187-209 | So with base 0: hexadecimal behind 0x, octal behind another 0, else decimal |
| `Parsing.EveryNumberWritten` | ayumos/klibc/stdlib.c:212-245 | Every number can be so written in every base, so that the round trip covers all of them |
| `Parsing.BlankCharacters` | ayumos/klibc/stdlib.c:169-171 | White space is blank, tab, carriage return and line feed, and nothing else |
| `Parsing.StrtoulRight` | ayumos/klibc/stdlib.c:160-258 | Value and range error alone, on a text cut into blanks, sign, prefix, digits and tail, with or without digits: right if and only if the first of those conditions holds |
| `Parsing.EveryText` | ayumos/klibc/stdlib.c:160-233 | Every string is such a text, with a longest run of digits or with none |
| `Parsing.BareMeans` | ayumos/klibc/stdlib.c:160-249 | A text without digits gives 0, with the end pointer at the start in front of another character and at the end otherwise |
| `Parsing.EndRight` | ayumos/klibc/stdlib.c:226-249 | The end pointer is right if and only if there is a digit, or no prefix and either another character or an empty string |
| `Parsing.EndLost` | ayumos/klibc/stdlib.c:226-249 | A bare "-" moves the end pointer behind it, and "0xg" in base 16 leaves it in front of the 0 |
| `Parsing.SignLost` | ayumos/klibc/stdlib.c:220-233 | "-5x" comes back as 5 |
| `Parsing.BaseSettled` | ayumos/klibc/stdlib.c:185-209 | With base 0 a hexadecimal prefix gives base 16, else a leading zero base 8, else base 10 |
| `Parsing.ParseDigits` | ayumos/klibc/stdlib.c:212-257 | For blanks and digits of any base: the value if it fits in 32 bits, a range error if and only if some multiplication overflows, otherwise the value modulo 2^32 |
| `Parsing.StopsEarly` | ayumos/klibc/stdlib.c:220-233 | The case of a minus sign, digits and any other character, whatever follows: the value modulo 2^32 |
| `Parsing.OverflowNoticed` | ayumos/klibc/stdlib.c:238-252 | Of the decimals from 2^32 to 10*2^32 exactly the first four come back as 0 to 3 without a range error |
| `Parsing.PrintThenParse` | ayumos/klibc/stdlib.c:160-258 | For every 32-bit value the "%u" text parses back to it in base 10 and base 0, ending at the terminator |
| `Parsing.AccumulatedIsValue` | ayumos/klibc/stdlib.c:238-243 | The 32-bit accumulator is the value of the digits modulo 2^32 |
| `Addresses.Strtoipv4` | ayumos/klibc/string.c:391-423 | Succeeds exactly when the greedy reading finds four octets, and returns them as one big-endian number without overflow |
| `Addresses.AcceptedExactly` | ayumos/klibc/string.c:391-423 | Accepted are exactly the strings that start with four dotted parts of one to three digits worth at most 255, not followed by a dot, nor by a digit unless the last part has three |
| `Addresses.AcceptedSpelled` | ayumos/klibc/string.c:391-423 | The same without any definition of the model: four parts of one to three digits worth at most 255, three dots, and behind them no dot, nor a digit unless the last part has three |
| `Addresses.AddressOfFour` | ayumos/klibc/string.c:408-415 | The first part is the most significant byte |
| `Addresses.TextBehindAccepted` | ayumos/klibc/string.c:391-423 | Any text behind a printed address is accepted, as long as it starts with neither dot nor digit |
| `Addresses.JunkAccepted` | ayumos/klibc/string.c:391-423 | "1.2.3.4x" is taken for 1.2.3.4 |
| `Addresses.TakeOctet` | ayumos/klibc/string.c:400-406 | At most three digits and their value |
| `Addresses.PrintAddr` | ayumos/kernel/net/ipv4.c:295-301 | The dotted quad of the address, cut to the buffer, terminated, and its full length returned |
| `Addresses.ParsePrintedAddress` | ayumos/kernel/net/ipv4.c:295-301 | Parsing the printed form of any address gives it back |
| `Elf.LoadExe` | ayumos/kernel/elf.c:75-151 | No string table or no memory: the respective error; else an image of the computed size, filled from the sections, with the moved entry point |
| `Elf.ComputeExtents` | ayumos/kernel/elf.c:84-101 | The extents cover every relevant section and are attained |
| `Elf.FillImage` | ayumos/kernel/elf.c:117-141 | The image is that of the sections applied in order |
| `Elf.Program.InExtents` | ayumos/kernel/elf.c:103-126 | Every pass 2 write lies inside the room that pass 1 asked for |
| `Elf.ByteInPlace` | ayumos/kernel/elf.c:117-141 | With disjoint sections the byte linked at v is at image offset v - start |
| `Elf.LoadedImage` | ayumos/kernel/elf.c:117-141 | Program sections appear unchanged at their place and .bss is all zero |
| `Elf.LoadedTable` | ayumos/kernel/elf.c:130-137 | Each non-zero word of the offset table is moved by image address minus start, zero words stay |
| `Elf.Gaps` | ayumos/kernel/elf.c:116-141 | Bytes between the sections are not written |
| `Elf.Relocate` | ayumos/kernel/elf.c:131-136 | The in-place loop relocates exactly the words of the table |
| `Elf.StringTable` | ayumos/kernel/elf.c:75-78 | The last non-empty string table section is the one used |
| `Elf.SectionsTaken` | ayumos/kernel/elf.c:154-174 | Taken are the sections of kind 1 whose zero-terminated name is ".text", ".rodata", ".got" or ".data", and those of kind 8 called ".bss"; no others |
| `Elf.LoadedByName` | ayumos/kernel/elf.c:84-141 | By kind and spelled name: the image of disjoint sections holds the file bytes of .text, .rodata and .data at their distance from the start, the moved words of .got, and zeros for .bss |
| `Elf.OthersIgnored` | ayumos/kernel/elf.c:84-126 | A section of any other kind or name has no part in the extents, and its turn in the second pass changes no byte |
| `Calendar.RtcTime.FromTimestamp` | ayumos/kernel/util/ktime.c:307-393 | For every 32-bit timestamp the fields are a valid Gregorian date and time denoting that second, with weekday (floor(t / 86400) + 4) mod 7 + 1, whatever lies behind the year table, which timestamps of 2038 make the search read |
| `Calendar.DateUnique` | ayumos/kernel/util/ktime.c:307-393 | Two valid dates that denote the same second are equal, so the fields are determined |
| `Calendar.TickCounts` | ayumos/kernel/util/ktime.c:307-434 | Seconds count the ticks of a clock with a wall calendar, month lengths and leap years spelled out |
| `Calendar.Epoch` | ayumos/kernel/util/ktime.c:307-434 | The count starts at 0 with 1970 |
| `Calendar.WeekdaysFollow` | ayumos/kernel/util/ktime.c:261-281 | Days of the week follow one another, from a Thursday on 1 January 1970 |
| `Calendar.FindYear` | ayumos/kernel/util/ktime.c:319-334 | Binary plus linear search brackets every 32-bit timestamp, whatever is read behind the table |
| `Calendar.FindMonth` | ayumos/kernel/util/ktime.c:355-360 | The month of a second of the year |
| `Calendar.Peel` | ayumos/kernel/util/ktime.c:363-368 | Subtracting shifted units divides |
| `Calendar.YearTable` | ayumos/kernel/util/ktime.c:60-97 | Every entry but the first is the first second of its Gregorian year |
| `Calendar.MonthTable` | ayumos/kernel/util/ktime.c:45-57 | The entries are the first seconds of February to December |
| `Calendar.DayOfWeekUnchecked` | ayumos/kernel/util/ktime.c:261-281 | For every date from 1900 to 2099 the table sums give the weekday of the day number, Sunday being 1 |
| `Calendar.DayOfWeek` | ayumos/kernel/util/ktime.c:287-295 | -1 if and only if it is no date of 1900 to 2099 |
| `Calendar.IsLeapYear` | ayumos/kernel/util/ktime.c:300-303 | The Gregorian leap years |
| `Calendar.RtcTime.ToTimestamp` | ayumos/kernel/util/ktime.c:397-434 | For years 1901 to 2038 and any other fields, valid or not: refused are exactly the dates that are at or below 1901-12-13 20:45:52, or at or above 2038-01-19 03:14:07, in every field, and else the sum over the tables cut to 32 bits |
| `Calendar.ToTimestampExact` | ayumos/kernel/util/ktime.c:397-434 | The timestamp is right if and only if the year is after 1901 and the second is before the last one that 32 bits hold |
| `Calendar.Shifted1901` | ayumos/kernel/util/ktime.c:397-434 | 31 December 1901 is accepted and gives another second |
| `Calendar.LastSecondRefused` | ayumos/kernel/util/ktime.c:397-434 | 2038-01-19 03:14:07, the last second of 32 bits, is refused |
| `Calendar.NextDayWraps` | ayumos/kernel/util/ktime.c:397-434 | 2038-01-20 is accepted and comes back negative |
| `Calendar.RoundTrip` | ayumos/kernel/util/ktime.c:397-434 | Any date denoting a second from 1902 to 2037 converts back to that second |

## Left out

- Heap.HeapCtx.constructor: the region has at least the 16 bytes of the two headers, is not at address 0 and ends below 2^32, where the pointer comparisons of the scans would wrap.
- Heap.HeapCtx.Realloc: a request above 2^32-4 bytes that finds a free block is excluded, because the block it gets may have zero bytes and the copy runs over what follows; so is the call with NULL and size 0, which inspects a header in front of address 0.
- Heap.HeapCtx.Free: a pointer is NULL, a payload, or has no in-use magic word in front; a payload that imitates a header, or the end marker, is not handed in.
- HeapBlocks.HeapSafety: requests above 2^32-4 bytes are not admissible in a run; their effect is stated by `HeapBlocks.MallocKeepsWellFormed`.
- Sched.Kernel.ProcCreate: getting stacks, working directory and registers is one step that succeeds or fails.
- Sched.Kernel.ProcDestroy: freeing the memory of the process is not modelled.
- Sched.Kernel.ProcSleep: a wake between marking the process asleep and switching is not modelled; the call is one step.
- Sched.Kernel.Sched: the quantum timer and the saving and restoring of registers are not modelled, nor is the link from a queue entry to its process, which is a map.
- Slab.SlabAllocator.constructor: the region starts at a multiple of the slab size and is a whole number of slabs, as `ayumos/kernel/entry.c:65` has it.
- Slab.SlabAllocator.SlabAlloc: the piece that a new slab needs is blank where its bitmap is not written; what happens elsewhere is stated by `Slab.CountAgainstBitmap` and `Slab.DirtyRegion`.
- Slab.SlabAllocator.SlabFree: pointers that are not the start of an object cell are left out.
- Devices.DeviceTree.Destroy: the root is not destroyed, and devices below the one destroyed agree to go; with one that refuses, `dev_destroy` does not come to an end.
- Devices.DeviceTree.Create: the length of the name buffer, allocation failure and the driver's own work in its initialiser are not modelled.
- Devices.DeviceTree.AddSuffix: names are unbounded strings.
- Ksym.FindByName: the build with the symbol table present; formatting of addresses is left out.
- Ksym.EmitTable: scanning the input lines and input/output errors are left out; the symbols arrive parsed, with names of 1 to 245 bytes.
- BlockCache.Cache.BlockRead: semaphores, statistics and the dirty flag, which nothing in the file sets, are left out.
- BlockCache.Cache.BlockReadMulti: drivers that report success without delivering the block, or spoil a slot, are left to `BlockCache.Cache.BlockRead`.
- Vfs.File.VfsWrite: the short reads that `Vfs.ShortReadExact` singles out are excluded by its guard, because the copy of a negative count that follows has no meaning; writes of no bytes and beyond the end of the device are left out.
- Vfs.File.VfsRead: the complete transfers that `Vfs.ReadCountExact` singles out are excluded by its guard, because the copy of a negative count has no meaning; negative counts are left out.
- Elf.LoadExe: the checks of the ELF header and the decoding of section headers are left out; sections that wrap around the address space or lie outside the file are excluded, as are tables that are no multiple of a word.
- Elf.ComputeExtents: sections that wrap around the address space are excluded.
- Numerals.PutDecimal: parsing of the format string and the 64-bit, hexadecimal, string and character conversions are left out.
- Parsing.Strtoul: `errno` is part of the result, and the pointer result an index.
- Addresses.PrintAddr: a buffer length of 0, for which the length less one wraps to 2^32-1 and the output is not bounded, is excluded; addresses are plain 32-bit numbers, in the processor's own big-endian order.
- Calendar.RtcTime.ToTimestamp: years outside 1901 to 2038, which index in front of or behind the year table, and months above 12, of which 13 reads the sentinel of the month table and others lie behind it, are left out.
- Hardware drivers, processor assembly and platform start-up, because their behaviour is outside the files.
- The buddy allocator and `memory.c`, which are unfinished.
- Nesting of preemption control and locks: critical sections are atomic here.
- IPv4 routing, ports, the mount table and the file systems below `vfs.c`.
- `memcpy` and the other string functions are plain byte copies where they are called.
- The monitor, disassembler, S-record loader and line editor.
