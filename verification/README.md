# xv6 with copy-on-write fork and swapping: a verified model

This project models the parts of an x86 xv6 kernel (with copy-on-write `fork` and page swapping) whose
correctness cannot be seen from one function at a time, and proves what those parts are for. Routines that
change state in place are classes and methods with the source's loops; each is tied by its contract to a
specification on plain values, and the promises are proved about that specification, over every run or
every input. `dafny verify dfyconfig.toml` checks everything.

The parts and the files that hold them:

- **Write-ahead log** (`LogModel`, `LogRun`, `Log`, `LogReserve`). `Log` is log.c on a block disk, with every
  disk image it passes through recorded. `LogRun.EveryRunIsAtomic` says that whatever is cut off between any
  two block writes, including inside recovery and again inside the next recovery, the files are those of a
  whole number of transactions and no completed commit is missing.
- **Buffer cache** (`LruRing`, `Bcache`, `LogCache`): bio.c with its linked ring; clients see a flat disk.
  `LogCache.Commit` carries out a commit on it while others hold buffers, and says exactly when it finds its own.
- **Copy-on-write memory and swapping** (`VmModel`, `VmInv`, `PteBits`, `SwapDisk`, `Victim`, `Vm`, `VmRun`, `Exec`).
  `VmRun.Run` carries out any sequence of fork, user loads and stores with their faults, sbrk, exit and
  swap-outs with the kernel's own routines and shows that every byte read is the byte a kernel with eager
  copies, unlimited memory and no swapping would return, and that every page keeps its flags; within a stated
  budget of free frames no operation stops short. `Exec.ExecStack` shows that main finds the arguments exec
  was given.
- **Inode layer** (`Bitmap`, `FsModel`, `FsInode`, `FsInv`, `FsContent`, `FsWrite`, `FsTrunc`, `FsStart`, `Fs`,
  `FsRun`, `FsLog`). `FsRun.Session` shows that any series of writes, reads and truncations acts like the same
  series on byte sequences; the bitmap marks exactly the metadata and the blocks some inode names, each in one
  place; the inode blocks hold the inodes byte for byte. What a write logs is stated exactly: one chunk of
  filewrite stays within its log reservation and can use all of it.
- **Heap allocator** (`HeapModel`, `Umalloc`): umalloc.c's address-ordered free ring.
- **Shell parser** (`ShellSyntax`, `ShellWords`, `Shell`, `ShellPrint`, `ShellRoundTrip`): sh.c's recursive
  descent, its NUL terminators in the shared buffer, and a printer it reads back.
- **Pattern matcher** (`Grep`): grep.c against the set of texts a pattern denotes.
- **Sleep, wakeup, exit and wait** (`SleepLock`, `Monitor`, `WaitExit`): interleaved steps with both locks
  explicit, for sleep locks, for any condition under any spinlock, and for exit and wait.

## What turned out not to hold

Each of these is stated and proved, by a lemma or an exact condition in a contract; the last is visible in a
definition.

- An operation that logs its full MAXOPBLOCKS blocks can make `log_write` panic, because the log of LOGSIZE
  blocks that mkfs makes includes its header block. No interleaving panics exactly when operations stay one
  block below the budget (`LogReserve.PanicExactly`); filewrite's chunks do on mkfs's disk
  (`FsLog.ChunksNeverFillLog`).
- Swap-in stores 0 at the index of the count table that is the page's swap block number. All goes well exactly
  when that is the number of a frame no entry maps, other than the one just allocated (`VmInv.SwapInKeeps`,
  `Vm.Vm.SwapInPage`). It fails in two ways: the number may be a mapped frame's (`VmInv.SwapInClearsCount`), or,
  for the slots from 128 on, lie behind the end of the table (`VmInv.SwapInLeavesTable`). Given the frames kinit
  frees, `VmInv.HarmfulSlots` says from which slots it can; for the kernel as built these are the slots from 35
  on (`VmInv.KernelSlots`).
- A page fault is never refused. An access is taken for a wild one exactly when the page is not a user page with
  PTE_U (`Vm.Served`, in `Vm.Vm.UserWrite` and `Vm.Vm.UserRead`). Without an entry the handler follows a null
  pointer or takes a zero entry for a page in block 0, whose slot does not exist (`VmInv.ZeroEntry`). On a page
  of the kernel's own mapping it finds a present entry and, if the frame is shared, gives up a reference that is
  none: the counts survive exactly if it is not shared (`VmInv.KernelFaultBreaks`), and afterwards a store can
  reach two processes (`VmInv.KernelFaultShares`). Runs stop at such accesses (`Vm.Refusal`).
- A commit meets "bget: no buffers" exactly when the blocks of its list and the buffers that others hold fill
  the cache (`LogCache.Commit`, `LogCache.RoomExactly`). For a list of any length there is a run from binit to
  such a state (`LogCache.CommitPanics`).
- mkfs rounds the size of the root directory up to a further block. It then has the blocks its size needs exactly
  when the number of its entries is no multiple of 32 (`FsStart.RootRounded`, `FsStart.RootEntries`).
- `malloc`'s header arithmetic is exact, and its request to `sbrk` is what was meant, only below stated sizes
  (`Umalloc.NunitsSuffice`, `Umalloc.SbrkRequestExact`).
- A shrink of a process to size 0 frees all its pages, reports failure and leaves its size
  (`Vm.Vm.Growproc`, the case `Vm.ToNothing`); one of a process that has no pages reports failure too.
- mkfs reserves one inode block that no inode lies in (`FsModel.MkfsLayout`).
- The shell builds the same node for `>>` as for `>`, although its tokens tell them apart
  (`ShellSyntax.RedirectionOf`).

## Model

| member | source | states |
|---|---|---|
| `Grep.Match` | grep.c:72-82 | true exactly when some substring of the text is in the language of the pattern, anchors included |
| `Grep.MatchHere` | grep.c:85-96 | true exactly when the rest of the pattern matches at this position |
| `Grep.MatchStar` | grep.c:99-106 | true exactly when some run of accepted characters is followed by a match of the rest |
| `Grep.StarUnfolds` | grep.c:99-106 | the language of `c*` followed by a pattern is the union over all lengths of the run |
| `LogModel.CommitIsAtomic` | log.c:192-202 | a commit cut before its header write leaves the old files after recovery, cut anywhere later the new ones |
| `LogModel.RecoveryRestarts` | log.c:115-122 | recovery cut after any number of writes and started over gives the same files, and finishing empties the header |
| `LogModel.InstallForgets` | log.c:69-82 | installing twice, or over half-installed blocks, is installing once |
| `LogRun.AbsorptionKeepsWrites` | log.c:213-233 | committing the list with repeated blocks absorbed does what the writes do in order |
| `LogRun.CommitTrailIsStep` | log.c:177-202 | the w-th disk image of a commit is the disk of a transaction cut after w writes |
| `LogRun.RecoverTrailIsStep` | log.c:115-122 | the w-th disk image of a recovery is the disk of a boot cut after w writes |
| `LogRun.CommitEffect` | log.c:177-202 | the images a commit goes through, in order, and the files it ends with |
| `LogRun.StepIsAtomic` | log.c:177-202 | one event keeps what recovery gives, or adds exactly the event's writes if its header write completed |
| `LogRun.EveryRunIsAtomic` | log.c:69-122 | for every run of boots, transactions and power cuts, recovery gives exactly the transactions whose commit completed |
| `Logging.Log.InstallTrans` | log.c:69-82 | every listed home gets its log block, through exactly the images of the specification, and its buffer is unpinned |
| `Logging.Log.WriteLogBlocks` | log.c:177-190 | the cached contents go to the log blocks in order, the homes untouched |
| `Logging.Log.ReadHead` | log.c:85-96 | the in-memory list is what the header block on disk says |
| `Logging.Log.WriteHead` | log.c:98-113 | one block write makes the header on disk the in-memory list |
| `Logging.Log.RecoverFromLog` | log.c:115-122 | afterwards the disk is the recovered one and the log is empty, whatever crash came before |
| `Logging.Log.CommitList` | log.c:194-201 | log blocks, header, homes, empty header, with exactly the images in between |
| `Logging.Log.Commit` | log.c:192-202 | the disk goes through exactly the images of the commit and ends with all writes of the transaction |
| `Logging.Log.LogWrite` | log.c:213-233 | the write is recorded once per block, and refused exactly when the list is full or no operation is open |
| `Logging.Log.BeginOp` | log.c:124-141 | admitted exactly when no commit runs and the reservation fits |
| `Logging.Log.EndOp` | log.c:143-174 | the last operation commits everything written since, any other only leaves |
| `LogReserve.StepKeepsInvariant` | log.c:124-174 | every step of every interleaving keeps blocks plus unused reservations within the bound |
| `LogReserve.ReservationHolds` | log.c:124-174 | in every interleaving the list fits, its blocks are distinct and inside the log area, and nothing is open during a commit |
| `LogReserve.BelowQuotaNeverPanics` | log.c:213-219 | operations one block below the budget never make log_write panic |
| `LogReserve.FullRunPanics` | log.c:218-219 | three full operations do |
| `LogReserve.PanicExactly` | log.c:218-219 | no interleaving panics if and only if the budget is below MAXOPBLOCKS |
| `VmInv.UnmapKeeps` | vm.c:266-278 | dropping a present entry keeps counts, free list and slots right and takes away that page alone |
| `VmInv.MapOwnedKeeps` | vm.c:233-247 | a fresh frame becomes one new page |
| `VmInv.LinkKeeps` | vm.c:408-415 | a second, read-only entry to a frame is a copy of the page as far as anyone can read |
| `VmInv.CowOwnedKeeps` | pageswap.c:87-104 | the private copy changes nobody's bytes and leaves one writer |
| `VmInv.StoreKeeps` | pageswap.c:118-138 | a store through a writable entry changes those bytes of that process only |
| `VmInv.SetFlagsKeeps` | pageswap.c:131-137 | giving write permission to the only reference keeps the invariant |
| `VmInv.AgeKeeps` | proc.c:619-647 | clearing accessed bits changes nothing else |
| `VmInv.SwapOutKeeps` | pageswap.c:58-84 | no process's bytes or flags change when a page goes to a slot |
| `VmInv.SwapOutMeasure` | pageswap.c:58-84 | each swap-out leaves one present entry less, however many share the frame |
| `VmInv.SwapInKeeps` | pageswap.c:139-155 | no bytes or flags change, and the counts stay right and within their table if and only if the swap block number is that of a frame no entry maps |
| `VmInv.SwapInClearsCount` | pageswap.c:147-152 | for every slot whose block number is a frame of the pool, a state where swap-in clears the count of that frame while it is mapped |
| `VmInv.SwapInLeavesTable` | pageswap.c:147-152 | for every slot from 128 on a state where swap-in stores behind the count table, and for no slot below |
| `VmInv.HarmfulSlots` | pageswap.c:147-152 | given the pool, some state makes swap-in from a slot harmful if and only if its block number is a frame of the pool or behind the table |
| `VmInv.KernelSlots` | kernel.sym:288 | with the frames above this kernel's end, exactly the slots from 35 on |
| `VmInv.KernelFaultBreaks` | pageswap.c:124-130 | a fault on the kernel's mapping of a frame keeps the counts if and only if the frame is not shared |
| `VmInv.KernelFaultShares` | pageswap.c:124-137 | after one on a frame with two references, a write fault lets one process store into the other's page |
| `VmInv.ClearSlotKeeps` | pageswap.c:106-109 | a dead process's swapped page gives its slot back |
| `VmInv.KernAllocKeeps` | kalloc.c:108-131 | the head of the free list becomes the kernel's with count 1 |
| `VmInv.KernFreeKeeps` | kalloc.c:75-103 | a kernel frame goes back to the free list |
| `VmInv.InvMeans` | kalloc.c:75-131 | counts equal references, a writable entry is the only one, a frame is free exactly when unmapped, slots are distinct |
| `VmInv.UncheckedStore` | vm.c:485-491 | one piece of copyout acts like a store to a private page if and only if the frame is unshared or its bytes stay the same |
| `VmInv.Conservation` | kalloc.c:75-131 | free, kernel and mapped frames always add up to the frames kinit was given |
| `SwapDisk.WritePageToSwap` | bio.c:145-154 | the slot then reads as the page and no other block has changed |
| `SwapDisk.ReadPageFromSwap` | bio.c:155-162 | the page the slot holds |
| `PteBits.ShareBits` | vm.c:402-413 | the bit operations of copyuvm_cow clear write permission and keep address and other flags |
| `PteBits.CowBits` | pageswap.c:96-101 | those of cow_page install the new address with write permission |
| `PteBits.SwapOutBits` | pageswap.c:76-79 | those of swap_out make a swapped entry that names the block |
| `PteBits.SwapInBits` | pageswap.c:152-153 | those of handle_page_fault install the new address with exactly the flags of the slot |
| `PteBits.GrantBits` | pageswap.c:135 | setting PTE_W changes nothing else |
| `PteBits.RevokeBits` | vm.c:409 | clearing PTE_W changes nothing else |
| `PteBits.ForgetBits` | proc.c:641 | clearing PTE_A changes nothing else |
| `PteBits.SwapRoundTripBits` | pageswap.c:64-153 | swapping out and in restores the flag bits |
| `Victim.GetVictimProcess` | proc.c:553-572 | a process of largest rss and among those of lowest pid |
| `Victim.GetVictimPage` | proc.c:595-617 | the first present user page not accessed, if there is one |
| `Victim.FlushTable` | proc.c:619-647 | every tenth accessed page, from the first on, loses its accessed bit and nothing else changes |
| `Victim.FlushClears` | proc.c:619-647 | exactly ceil(k / 10) of k accessed pages |
| `Victim.FlushMakesCandidate` | proc.c:649-662 | after a flush there is a candidate if there is any present user page |
| `Victim.FlushExposes` | proc.c:649-662 | and only then |
| `Victim.ChoosePage` | proc.c:649-662 | a page is found exactly when the process has a present user page |
| `Vm.Vm.constructor` | kalloc.c:56-69 | freerange and swapinit leave exactly the given frames free, all slots free and the invariant in force |
| `Vm.Vm.Kfree` | kalloc.c:75-103 | one reference less, and the frame on the free list when it was the last |
| `Vm.Vm.Kalloc` | kalloc.c:108-131 | a frame with count 1; swapping out to get it ends and disturbs no process |
| `Vm.Vm.FinalPage` | proc.c:649-662 | a page of the process of largest rss, or none exactly when it has no present user page |
| `Vm.Vm.FindSlot` | pageswap.c:61-62 | the first free slot |
| `Vm.Vm.Evict` | pageswap.c:62-81 | the page goes to the slot with its flags, one present entry less, no process notices |
| `Vm.Vm.SwapOutPage` | pageswap.c:58-84 | one present entry less, no process notices, stopped by full slots exactly when they are full |
| `Vm.Vm.WalkAlloc` | vm.c:36-55 | a page table for the address, taking at most one frame, which is booked for the process |
| `Vm.Vm.AllocPage` | vm.c:232-248 | one more zeroed page in the page table, nobody else's changed |
| `Vm.Vm.Allocuvm` | vm.c:222-250 | the page table gets exactly the zeroed pages between the sizes, writable and the user's |
| `Vm.Vm.Deallocuvm` | vm.c:257-318 | the pages between the sizes are gone; stops exactly when one of them is swapped out |
| `Vm.Vm.SharePage` | vm.c:397-418 | one page shared by parent and child reads as a copy and may be written by neither |
| `Vm.Vm.CowRound` | vm.c:395-418 | one round of copyuvm_cow adds one page to the eager copy, moves no frame and books what it takes for the child |
| `Vm.Vm.CopyuvmCow` | vm.c:384-426 | the child has what an eager copy would have given it, flags included but for write permission |
| `Vm.Vm.CowPage` | pageswap.c:87-104 | a private writable frame with the same bytes; stops exactly when the free list is empty |
| `Vm.Vm.SwapInPage` | pageswap.c:139-155 | no bytes and no flags of any page change; the invariant survives if and only if the block number is harmless, stated on the entry state when a frame is free |
| `Vm.Vm.RestorePage` | pageswap.c:147-154 | the slot's page and saved flags, the slot free, and the store to the count table, harmless exactly when stated |
| `Vm.Vm.HandlePageFault` | pageswap.c:118-156 | all bytes and flags stay but for write permission on that page; with a free frame, served exactly when there is an entry below the kernel's and its swap block is harmless |
| `Vm.Vm.StoreByte` | pageswap.c:118-138 | through a writable entry one byte of one process changes |
| `Vm.Vm.Touch` | trap.c:50-54 | a user access is stopped as wild exactly when the page is the kernel's, has no entry or no PTE_U; with a free frame any other is brought in exactly when its swap block is harmless, and nothing changes |
| `Vm.Vm.UserWrite` | pageswap.c:118-156 | a user store with all its faults changes that byte of that process only; refused as wild exactly for pages that are not the user's, and with a free frame served exactly when the page can be brought in |
| `Vm.Vm.UserRead` | pageswap.c:139-155 | a user load returns the byte the process last had there and changes nothing; refused as wild exactly for pages that are not the user's, and with a free frame served exactly when the page can be brought in |
| `Vm.Vm.Uva2ka` | vm.c:461-471 | a page is found exactly when it is present and the user's; where there is no page table a null pointer is followed |
| `Vm.Vm.Copyout` | vm.c:477-497 | the bytes go to their addresses up to the first page that is not there or not the user's; with unshared frames nothing else changes |
| `Vm.Vm.Clearpteu` | vm.c:341-349 | that page is no longer the user's, nothing else changes |
| `Vm.Vm.Fork` | proc.c:177-222 | the whole fork acts like an eager copy, and every frame it takes for the kernel serves the child |
| `Vm.Vm.ClearZombie` | vm.c:443-456 | none of the dead process's slots stays taken |
| `Vm.Vm.FreeUser` | vm.c:428-456 | all pages of the process, swapped or not, are gone and no other |
| `Vm.Vm.FreeKernPages` | vm.c:435-441 | exactly the page tables and the kernel stack of the process are free |
| `Vm.Vm.Reap` | proc.c:285-302 | the pages of the process are gone, exactly its kernel frames are free, its slots too, everything else is as before |
| `Vm.Vm.Growproc` | proc.c:158-175 | the size and the pages sbrk promises, with its refusals, those of a process without pages included, except for a shrink to nothing, which frees the pages and keeps the size |
| `VmRun.Run` | vm.c:353-426 | any run reads the bytes of the eager system and keeps its flags, stops at an access exactly when that is not one to a user page, and within the frame budget stops at nothing else |
| `VmRun.RunApart` | pageswap.c:58-155 | operations that do not concern a page leave its bytes and flags, for every run |
| `VmRun.RunThenLoad` | pageswap.c:58-155 | a page swapped out and in any number of times on the way comes back present, with the flags and bytes it had |
| `VmRun.NoFrameLost` | kalloc.c:75-131 | between system calls free frames, frames of live processes' tables and stacks, and mapped frames are all there are |
| `VmRun.ForkThenReap` | proc.c:177-314 | fork and the wait for that child leave exactly the free frames there were |
| `Exec.StringBack` | exec.c:72-79 | a pushed string is the C string found at its address |
| `Exec.ArgvBack` | exec.c:72-88 | strings and vector together give main its arguments back |
| `Exec.PushAt` | vm.c:477-497 | a push comes through exactly when it starts in the stack page; the guard page stops the others |
| `Exec.PushStrings` | exec.c:72-79 | all strings lie whole in the stack page, or there are too many or they do not fit |
| `Exec.PushVector` | exec.c:80-88 | the vector below them, or it does not fit |
| `Exec.AllocStack` | exec.c:65-68 | a guard page that is not the user's and a stack page that no one shares |
| `Exec.ExecStack` | exec.c:63-88 | main reads exactly the arguments given and no page of any process changes; refused exactly when they do not fit one page or the address space |
| `HeapModel.PartitionMeans` | umalloc.c:24-90 | live and free blocks never overlap and together are every unit obtained from sbrk |
| `HeapModel.InsertKeepsRing` | umalloc.c:28-42 | linking a block between its neighbours keeps the ring ordered and disjoint |
| `HeapModel.MergeKeepsRing` | umalloc.c:33-41 | joining two touching free blocks keeps it |
| `HeapModel.RemoveKeepsRing` | umalloc.c:75-77 | unlinking an exact fit keeps it |
| `HeapModel.FreeKeeps` | umalloc.c:24-44 | free keeps the whole invariant, with no two free blocks touching |
| `HeapModel.TakeKeeps` | umalloc.c:75-83 | so does taking a whole block |
| `HeapModel.SplitKeeps` | umalloc.c:78-82 | so does taking the tail of one |
| `HeapModel.GrowKeeps` | umalloc.c:46-61 | so does a region from sbrk |
| `Umalloc.NunitsSuffice` | umalloc.c:69 | the rounded size holds the request if and only if it does not overflow 32 bits |
| `Umalloc.SbrkRequestExact` | umalloc.c:52-54 | the byte count passed to sbrk is right if and only if it fits a signed int |
| `Umalloc.Heap.Search` | umalloc.c:30-32 | the walk ends at the free block just below, whatever freep is |
| `Umalloc.Heap.Free` | umalloc.c:24-44 | the block is free, possibly merged, and every other block is untouched |
| `Umalloc.Heap.Morecore` | umalloc.c:46-61 | the arena grows by exactly the region granted and a fitting free block exists |
| `Umalloc.Heap.Take` | umalloc.c:74-84 | the caller gets a block of exactly the units asked for |
| `Umalloc.Heap.Malloc` | umalloc.c:63-90 | a fresh block of the right size, or none exactly when sbrk refuses and no free block fits; the search ends, also on the lap after morecore |
| `LruRing.UnlinkKeeps` | bio.c:131-133 | taking a buffer out leaves a well-formed ring of the others in order |
| `LruRing.PushFrontKeeps` | bio.c:134-137 | putting it first leaves a well-formed ring |
| `Bcache.Bcache.constructor` | bio.c:39-57 | a well-formed ring of all buffers |
| `Bcache.Bcache.FindCached` | bio.c:69-77 | the buffer of the block, if any buffer holds it |
| `Bcache.Bcache.FindOldest` | bio.c:79-92 | the least recently released buffer that is neither referenced nor dirty, if there is one |
| `Bcache.Bcache.Bget` | bio.c:62-94 | the buffer of the block, alone among buffers, or a recycled clean one, or a panic exactly when there is none |
| `Bcache.Bcache.Acquire` | bio.c:75-76 | a locked valid buffer shows the flat disk |
| `Bcache.Bcache.ReadIn` | bio.c:97-107 | afterwards the buffer holds what the flat disk holds |
| `Bcache.Bcache.Bwrite` | bio.c:110-117 | disk and flat disk get the buffer, and only that block changes |
| `Bcache.Bcache.Pin` | log.c:231 | the flat disk gets the buffer, the disk later |
| `Bcache.Bcache.Brelse` | bio.c:121-142 | the released buffer is the most recent, and the ring stays a permutation of all buffers |
| `Bcache.RecycleKeeps` | bio.c:79-92 | a recycled buffer loses nothing the disk does not have |
| `LogCache.RoomExactly` | bio.c:79-93 | a buffer can be recycled if and only if pinned blocks and held buffers do not fill the cache |
| `LogCache.Take` | bio.c:97-107 | bread of a pinned block always finds a buffer, of any other exactly if there is room |
| `LogCache.TakeBoth` | log.c:182-183 | the two buffers of a round are found exactly if pinned and held buffers leave one, and show the flat disk; what others hold is untouched |
| `LogCache.WriteLog` | log.c:177-190 | every round finds its buffers if and only if list and held buffers leave one; the log blocks get the cached contents, no home block changes, the blocks stay pinned |
| `LogCache.InstallTrans` | log.c:69-82 | every home block gets its log block and is no longer pinned, in a commit or after a crash; the buffers are found exactly if there is room |
| `LogCache.PutBlock` | log.c:98-113 | the header block is written, exactly if there is room for it |
| `LogCache.Commit` | log.c:192-202 | every bread finds a buffer if and only if list and held buffers do not fill the cache; then the disk ends up as the clients see it with nothing pinned, and before the header write no home block has changed |
| `LogCache.FillCache` | bio.c:62-117 | from binit, any number of blocks pinned and all other buffers held |
| `LogCache.CommitPanics` | log.c:182 | there the commit fails and bget of the first log block returns none |
| `Bitmap.OrBit` | fs.c:66-68 | setting a bit of a byte changes that bit only |
| `Bitmap.AndNotBit` | fs.c:88-92 | clearing one changes that bit only |
| `Bitmap.MarkOne` | fs.c:66-68 | marking a block in the map marks that block only |
| `Bitmap.UnmarkOne` | fs.c:88-92 | unmarking one unmarks that block only |
| `FsModel.MkfsLayout` | mkfs.c:95-107 | mkfs's layout is in order and every block but one lies in an area |
| `FsModel.OneArea` | fs.h:14-24 | boot, super, swap, log, inode, bitmap and data blocks never coincide |
| `FsInode.DinodeBack` | fs.c:220-236 | what iupdate encodes is what ilock decodes, all fields |
| `FsInode.DinodeSpared` | fs.c:225-226 | the other inodes of the block decode as before |
| `FsInode.UpdatedHolds` | fs.c:220-236 | after iupdate the inode blocks hold exactly the inodes, that one new |
| `FsModel.AddDataKeeps` | fs.c:378-399 | a free block added to a file is owned by it alone |
| `FsInv.DirectKeeps` | fs.c:378-382 | the same, for what inode and disk say after bmap gives a direct block |
| `FsInv.IndirectKeeps` | fs.c:386-388 | for a new indirect block, full of zeros |
| `FsInv.LinkKeeps` | fs.c:389-396 | for a block linked through the indirect block |
| `FsInv.WriteKeeps` | fs.c:500-504 | a data block may hold anything without disturbing any map |
| `FsInv.OnePlace` | fs.c:372-400 | a block number stands in at most one place of one inode and is never metadata |
| `FsInv.BitmapExact` | fs.c:56-95 | a bit is set if and only if the block is metadata or some inode names it |
| `FsInv.WriteContent` | fs.c:497-504 | copying a piece into its block overwrites exactly those bytes of the file |
| `FsWrite.ChunkFits` | file.c:127-134 | one chunk logs at most MAXOPBLOCKS blocks, at most nine with three bitmap blocks |
| `FsWrite.WriteSettles` | fs.c:506-509 | after a write the file has exactly the blocks its size needs; without growth no block was allocated |
| `FsWrite.WriteSpares` | fs.c:482-511 | every other file reads as before |
| `FsWrite.MappedThrough` | fs.c:384-397 | the indirect half of bmap is its two allocations one after the other, in what is taken, linked and logged |
| `FsWrite.WriteLogs` | fs.c:481-511 | writei logs exactly the bitmap blocks of the blocks it takes, the data blocks, the indirect block if it links one in and the inode's block if the file grows; it takes the lowest free blocks |
| `FsWrite.LogsSize` | fs.c:481-511 | these are all different, so their number is the sum |
| `FsWrite.UpdateSettles` | fs.c:220-236 | writing the inode back makes memory and disk agree and disturbs no file |
| `FsWrite.FullChunk` | file.c:127-134 | for a file of 11 blocks and a byte, with the four lowest free blocks in four bitmap blocks, that number is MAXOPBLOCKS |
| `FsLog.ChunksNeverFillLog` | file.c:127-152 | chunks of at most nine blocks never make log_write panic, however they interleave |
| `FsLog.RunAgrees` | log.c:124-233 | such a run is a run of the reservation machine at quota nine, step by step |
| `FsLog.ChunkWritesTaken` | log.c:213-233 | and every write of a chunk is on the list right afterwards |
| `FsLog.FilewriteFits` | file.c:118-156 | the sets that filewrite's transactions log, with those of any other filewrites on such a disk, make runs in which log_write never panics |
| `FsTrunc.FreeingNext` | fs.c:413-428 | each block itrunc frees is still marked, so bfree never panics |
| `FsTrunc.GoneSettles` | fs.c:408-435 | after itrunc the invariants hold with the file owning nothing |
| `FsStart.InitialBitmap` | mkfs.c:241-254 | the bitmap block marks exactly the first blocks |
| `FsStart.FreshDisk` | mkfs.c:95-120 | the invariants hold of the disk before mkfs adds the root directory and the files |
| `FsStart.RootRounded` | mkfs.c:161-166 | the rounded root directory has the blocks its size needs if and only if its size was not a whole number of blocks; otherwise its last block is missing |
| `FsStart.RootEntries` | mkfs.c:161-166 | which is a number of entries that is no multiple of 32 |
| `Fs.Fs.FindFree` | fs.c:64-73 | the first unmarked block that this bitmap block covers |
| `Fs.Fs.Balloc` | fs.c:56-78 | the lowest free block, marked and zeroed; a panic exactly when there is none |
| `Fs.Fs.Bfree` | fs.c:81-95 | the block unmarked; a panic exactly when it was not marked |
| `Fs.Fs.Bmap` | fs.c:372-400 | for any block number: nothing changes if it is there; otherwise the lowest free blocks are taken, zeroed, linked and logged with their bits, file data stays put; a panic exactly out of range or for want of free blocks |
| `Fs.Fs.Readi` | fs.c:452-476 | the bytes of the file from off, clipped; nothing is allocated or changed; -1 exactly on a bad offset |
| `Fs.Fs.Iupdate` | fs.c:220-236 | ilock would read the inode back as it is in memory, and every other inode as before; one block is logged |
| `Fs.Fs.Ilock` | fs.c:286-313 | a slot that is not valid gets the stored inode, whatever it held, and a valid one stays; panics exactly without a reference or for a stored type 0 |
| `Fs.Fs.Writei` | fs.c:481-511 | the file is overwritten at off and grows as needed, others unchanged; exactly the logged blocks; -1 exactly on bad offsets, a panic exactly when fewer blocks are free than it takes |
| `Fs.Fs.Itrunc` | fs.c:408-435 | the file is empty, exactly its blocks are free, every other file is unchanged |
| `Fs.Fs.WriteChunk` | file.c:139-145 | one transaction of filewrite logs exactly the counted number of blocks, never more than MAXOPBLOCKS |
| `Fs.Fs.Filewrite` | file.c:118-156 | all of the data or -1 exactly when it does not fit, keeping then exactly the whole chunks that do; every transaction within the budget |
| `FsRun.Session` | fs.c:452-511 | any series of writes, reads and truncations acts like the same series on byte sequences |
| `FsRun.TightChunk` | file.c:127-145 | from every such state the chunk succeeds and logs exactly MAXOPBLOCKS blocks |
| `ShellSyntax.TokenAdvances` | sh.c:265-308 | every token but the end moves the cursor |
| `Shell.Gettoken` | sh.c:265-308 | the token and cursor the grammar defines, never past the end |
| `Shell.PeekAt` | sh.c:310-320 | whether the next character is one of the given ones |
| `Shell.Parseredirs` | sh.c:374-397 | the redirections in order, or the panic |
| `Shell.Parsesimple` | sh.c:415-446 | arguments and redirections, with every argv index in bounds |
| `Shell.Parseexec` | sh.c:415-446 | the command of the grammar |
| `Shell.Parseblock` | sh.c:399-413 | the parenthesised line with its redirections |
| `Shell.Parsepipe` | sh.c:361-372 | the pipeline |
| `Shell.Parseline` | sh.c:344-359 | the line; the parser ends on every input |
| `Shell.Nulterminate` | sh.c:448-493 | NULs at exactly the ends of the tree's tokens |
| `Shell.Parsecmd` | sh.c:327-342 | the tree of the text, each token reading back from the buffer as its own text; a panic leaves the buffer alone |
| `ShellWords.LineGood` | sh.c:344-359 | every token of a parsed tree is a whole word and every argv has room for its null |
| `ShellWords.EndsMissWords` | sh.c:448-493 | no terminator lands inside any token |
| `ShellWords.TokensReadBack` | sh.c:448-493 | after nulterminate each token, read as a C string, is what was scanned |
| `ShellRoundTrip.RoundTrip` | sh.c:265-446 | every tree of words with at most nine arguments a command has a text that parses to exactly it |
| `ShellRoundTrip.ReparseSame` | sh.c:265-446 | every accepted line has such a tree, and printing that tree gives a line with the same tree |
| `SleepLock.ActionKeeps` | proc.c:434-492 | every step of every process keeps the invariant of both locks, sleepers and holders |
| `SleepLock.ScanKeeps` | proc.c:473-492 | wakeup1 keeps that invariant although its own pending wakeup is what excused the sleepers |
| `SleepLock.ScanWakesAll` | proc.c:473-483 | after wakeup1 nobody sleeps on the lock |
| `SleepLock.AtMostOneHolder` | sleeplock.c:22-42 | in every interleaving a sleep lock has at most one holder, the one its pid names |
| `SleepLock.NoLostWakeup` | proc.c:434-492 | in every interleaving a process sleeping on a free lock has a wakeup on its way |
| `SleepLock.LocksNeverWedge` | proc.c:434-470 | in every interleaving whoever holds a spinlock can go on or waits for one who can |
| `Monitor.ActionKeeps` | proc.c:434-492 | every step of sleep, wakeup and their users keeps both locks and the excuse of every sleeper |
| `Monitor.NoLostWakeup` | proc.c:434-492 | for any condition under any lk, in every interleaving, a process asleep although its condition holds has a wakeup on its way, from one who can neither leave nor sleep before it |
| `Monitor.WakesWhereNeeded` | log.c:124-174 | log.c wakes &log after exactly the changes that can let a waiting begin_op go on |
| `WaitExit.ExitKeeps` | proc.c:247-267 | exit leaves nobody asleep in wait who has a dead child, and no orphan |
| `WaitExit.WaitKeeps` | proc.c:273-314 | a round of wait sleeps only with a living child and no dead one |
| `WaitExit.ForkKeeps` | proc.c:73-222 | so do the steps of fork while a child is being built |
| `WaitExit.NoMissedExit` | proc.c:247-314 | in every run nobody sleeps in wait with a child to collect, and every zombie has a living parent |
| `WaitExit.ExitWakesParent` | proc.c:247-267 | after an exit the parent has a zombie and is not asleep in wait |
| `WaitExit.Ptable.Wakeup1` | proc.c:473-483 | exactly the sleepers on the channel become runnable |
| `WaitExit.Ptable.Abandon` | proc.c:252-259 | the children become init's, and init is woken exactly if one is a zombie |
| `WaitExit.Ptable.Exit` | proc.c:226-268 | the section of exit under the lock is the step of the state machine; init may not exit |
| `WaitExit.Ptable.Wait` | proc.c:273-314 | the lowest zombie child is reaped, else -1 exactly without children or when killed, else sleep |
| `WaitExit.Ptable.Kill` | proc.c:497-515 | the first slot with the pid is killed and woken; -1 exactly when there is none |
| `WaitExit.Ptable.Fork` | proc.c:180-222 | the steps through EMBRYO to a runnable child of the next pid, or back; -1 exactly when no slot is unused or the copy failed |
| `WaitExit.Ptable.Allocproc` | proc.c:73-116 | the first unused slot becomes EMBRYO with the next pid; none exactly when all are used |

## Left out

- Fs.Fs.Readi: the device branch (devsw) is not modelled, and the same holds for Fs.Fs.Writei.
- Fs.Fs.Filewrite: pipes and the writable flag of the file are not modelled; the caller's buffer is a sequence.
- Fs.Fs.Ilock: the sleep lock itself is not modelled.
- FsStart.FreshDisk: the root directory and the files that mkfs copies in afterwards are not modelled.
- Vm.Vm.Fork: files, name and trap frame of the child are not modelled.
- Vm.Vm.HandlePageFault: what a fault without an entry goes on to read and overwrite is not modelled; the run stops there, and at a fault on a page of the kernel.
- Exec.ExecStack: loading the program, the copy of argv from the old image, the switch to the new page table and the failure path are not modelled; an argument is shorter than 2 GB.
- LogCache.Commit: others hold neither log blocks nor blocks of the list, for whose locks a commit would wait; the contents of the header block are given, and power cuts inside a commit are the business of Logging and LogRun.
- Vm.Vm.Deallocuvm: steps page by page where the source skips missing page tables.
- VmRun.Run: speaks of the operations up to the first that stops (the cases of Vm.Stop: panics, a null victim, a count clash, a wild access, a shrink to nothing, no free frame inside cow_page or copyuvm_cow).
- PteBits.ShareBits: the numeric shift between an entry and its frame number is stated on 32-bit words only; Vm works on decoded entries.
- Logging.Log.Commit: swap writes that reach the disk between the writes of a commit are not interleaved; they touch other blocks.
- Umalloc.Heap.Malloc: addresses count header units; that sbrk returns aligned memory above the old break is the caller's part.
- Monitor.NoLostWakeup: that the users of a lock wake every channel whose condition they made true is part of their steps; it is proved for log.c only.
- SleepLock.AtMostOneHolder: releasesleep is called by a holder only, as brelse and iunlock check.
- rss is an arbitrary number that victim selection reads; the source does not keep it exact.
- Real memory order, the TLB, trap frames and context switches: a spinlock section or a disk block write is one step.
- ide.c, console.c, uart.c, boot code, the rest of exec.c, sysfile.c, pipe.c and system-call argument checks.
- Directories, link counts, the inode cache and ialloc.
- runcmd of sh.c and the line-reading loop of grep.c.
