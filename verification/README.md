# aceOS kernel model

This project models the parts of the aceOS kernel that keep state by changing linked structures and tables in
place, and proves what they keep over whole runs. `dafny verify dfyconfig.toml` checks all of it.

The source updates memory, arrays and global records, so the model does too: each such part is a class whose
methods follow the source branch by branch, proved against an abstract value that the class stands for. The
properties that clients rely on are then lemmas about that value, or about runs of it.

| files | what they model |
|---|---|
| `Machine`, `Memory`, `Bits`, `Lists` | 32-bit wrap-around, byte-addressed memory with little-endian words, single bits, lists without duplicates |
| `BlockList`, `FirstFit`, `LibcHeap` | the C library's first-fit allocator, on its header chain in memory |
| `AllocatorRuns`, `FirstFitRuns` | any sequence of allocations, releases and client writes |
| `BestFit`, `KernelChain`, `KernelHeap`, `KernelHeapRuns` | the kernel's best-fit heap, doubly linked, with magic numbers and counters |
| `FrameBitmap`, `MemoryLayout`, `Paging`, `AddressSpaces` | the frame allocator, the kernel heap among its frames, and the two-level page tables built out of them |
| `PathTokens`, `FileTree`, `FileContents`, `FileSystem`, `FileSystemRuns` | the in-memory filesystem: tokenizer, tables, contents in malloc blocks, whole runs |
| `Scheduling`, `ReadyQueue` | the process table, the linked ready queue, and waiting times |
| `DiskGeometry`, `Graphics`, `Numerals` | CHS/LBA conversion, Bresenham line, midpoint circle, itoa and atoi |

The main results:

- **Filesystem.** The tables refine a map from paths to contents (`Folder`, `File(bytes)`, or `Lost` after a write
  that could not get a block). Every operation is one change of that map and says exactly when it succeeds; the
  map is a tree in every run; reading returns what was written last; the blocks owned are exactly the data
  blocks of live files, so nothing leaks and nothing is freed twice.
- **Allocators.** Blocks tile the heap, live payloads are disjoint, and no operation alters a byte of another
  payload, over every run. First fit and best fit are the blocks really chosen.
- **Paging.** Two-level tables refine a plain map from page to frame, address spaces stay isolated, and each
  operation is also described entry by entry, rights included.
- **Scheduler.** The linked queue refines a sequence; switching rotates; waiting is exact and bounded; an exited
  process stays out.
- **Drawing and numerals.** The pixels of a circle are exactly those nearest to it, those of a line within half a
  pixel; numerals denote their number in every base and are parsed back.

Where the code does less than its comments or its callers expect, the exact condition is proved:

- `heap.c` computes the size left over by a split unsigned (kernel/heap.c:74). The heap survives an allocation iff
  the chosen block can hold the request and one more header (`KernelHeap.Heap.Malloc`); otherwise no block list
  explains the headers any more (`KernelChain.WrappedSplitCorrupts`). On the fresh kernel heap the requests
  concerned are those from 0x3FFFD9 to 0x3FFFE8 bytes (`KernelHeapRuns.FreshHeapWraps`).
- `free` of the C library leaves two adjacent free blocks iff there were two already or both neighbours of the block
  were free (`FirstFit.FreeCoalesces`), so that a run never has two iff it never frees a block between two free
  ones (`FirstFitRuns.RunCoalesces`); three requests and three frees on a fresh heap do it
  (`FirstFitRuns.FreeingTheMiddleLast`).
- `vmm_unmap_page` gives back whatever frame the page maps. The paging structures survive iff that is none of
  their own frames (`Paging.UnmapPageInv`); the identity mapping made at boot contains such pages
  (`AddressSpaces.UnmappingATableFreesIt`).
- A failing `fs_write` has already freed the old block, so the old contents are lost while the size stays. It
  happens iff the file has something in it, the new size is another, and the heap has no block for it even with
  the old one freed (`FileSystem.FileSystem.Write`, `FileSystemRuns.StepLosesNothing`), which can be seen before
  the call; `FileSystemRuns.OverwritingLosesContents` is such a call.
- Both allocators round a request above 2^32 - 8 to a tiny one (`FirstFit.RoundingCovers`,
  `BestFit.RoundingCovers`).
- `itoa` stays within its digit table iff the value is not negative, or the base is ten and it is not INT_MIN
  (`Numerals.ItoaInRange`).
- `fs_mkdir` cuts the name of a directory to 31 characters, but the walk compares it uncut: below a directory that was
  made with a longer name nothing can be created under the name given (`FileTree.LongNamesEndTheWalk`).
- The kernel heap lies among the frames that the frame allocator manages and is never marked used: frames 1536 to
  2559 are handed out when their turn comes (`MemoryLayout.HeapFramesAreHandedOut`).
- The tick count of a process is 32 bits wide. A process that nobody has preempted until the count is about to
  wrap can hold the processor for one slice longer than its rest (`Scheduling.RestOfSlice`); the
  kernel, alone after boot, gets there (`Scheduling.BootedCounterWraps`), and a process of low priority makes the
  wait exceed the bound of 200 ticks per process (`Scheduling.BoundExceeded`).

Inputs from outside the modelled code are parameters: what memory holds at boot, where the linker places the
heap, whether the memory for a new process could be had. Each operation is one uninterrupted step.

## Model

| member | source | states |
|---|---|---|
| PathTokens.TokensAreRuns | drivers/fs.c:24-53 | every string is its tokens interleaved with delimiters: the tokens are delimiter-free, not empty, and separated |
| PathTokens.RunsAreTokens | drivers/fs.c:24-53 | there is only one way to cut a string into maximal runs, and it is the one the tokenizer specification computes |
| PathTokens.TokensOfJoin | drivers/fs.c:76-88 | joining slash-free components with "/" and tokenising gives back exactly these components |
| PathTokens.JoinOfTokens | drivers/fs.c:76-88 | every path has the same components as the canonical path built from them, whatever slashes it has |
| PathTokens.FewTokens | drivers/fs.c:83 | a string holds at most one token per two characters, so the limit on the number of parts is never reached |
| PathTokens.Tokenizer.First | drivers/fs.c:11-54 | the first call on a buffer: the first token is cut out in place, the rest is pending, or nothing is left |
| PathTokens.Tokenizer.Next | drivers/fs.c:16-54 | later calls continue where the last one stopped, return NULL for ever once nothing is left, and write nothing before that place |
| PathTokens.Tokenizer.Scan | drivers/fs.c:24-53 | the two scanning loops and the NUL written behind the token do exactly one step of the specification |
| PathTokens.CutAll | drivers/fs.c:80-87 | the collected pointers denote the tokens, all of them, in order, and stay good while the buffer behind them is cut |
| PathTokens.ParsePath | drivers/fs.c:76-88 | parsing a path of less than 256 characters yields its maximal slash-free runs |
| FileTree.EntryInvariant | drivers/fs.c:162-330 | a live entry is in exactly one file list, that of its parent; its name is unique there; a directory entry has exactly one record |
| FileTree.RecordInvariant | drivers/fs.c:256-259 | a live record other than the root has a live parent with a smaller index and exactly one directory entry |
| FileTree.DirPathInjective | drivers/fs.c:91-142 | two live directories never have the same path |
| FileTree.EntryPathInjective | drivers/fs.c:162-188 | two live entries never have the same path |
| FileTree.EntryAtParent | drivers/fs.c:162-188 | a path leads to an entry iff all but its last component lead to the entry's parent and the last is its name |
| FileTree.PlaceIsPrefix | drivers/fs.c:145-159 | where a path leads: its components uncut but the last, of which the first 31 characters count |
| FileTree.InsertInv | drivers/fs.c:316-326 | adding a file entry under a fresh name keeps the tree invariant |
| FileTree.MakeDirInv | drivers/fs.c:237-259 | adding the two halves of a directory keeps the tree invariant |
| FileTree.DropInv | drivers/fs.c:381-404 | removing an entry, and the record of an empty directory with it, keeps the tree invariant and makes exactly that entry dead |
| FileTree.SetDataInv | drivers/fs.c:430-448 | changing the data block and the size of a file keeps the tree invariant |
| FileTree.InsertResolves | drivers/fs.c:316-326 | after a creation the new path leads to the new entry and every other path leads where it led before |
| FileTree.DropResolves | drivers/fs.c:381-404 | after a deletion the path leads nowhere and every other path leads where it led before |
| FileTree.EmptyDir | drivers/fs.c:357-379 | the emptiness test of a directory is true iff nothing in the tree is directly below its path |
| FileTree.CreatableMeans | drivers/fs.c:199-227 | something can be created iff nothing is there yet and the place is in the root, or in a directory that is there, with fewer than 64 things in it |
| FileTree.ViewIsTree | drivers/fs.c:91-142 | the map from paths to contents is a tree: what is above any path in it is a directory |
| FileTree.LongNamesEndTheWalk | drivers/fs.c:117-130 | a path to a directory can be walked through, and something created below it, only if its last component has fewer than 32 characters |
| FileTree.NothingBelow | drivers/fs.c:136-138 | where a component leads to no directory, no longer path does |
| FileContents.OtherBlocks | drivers/fs.c:436-448 | names and contents depend on the filesystem's own blocks only |
| FileContents.CreatedFile | drivers/fs.c:306-326 | creating a file extends the map by one file of the wanted size and keeps everybody else's blocks |
| FileContents.MadeDir | drivers/fs.c:237-259 | creating a directory extends the map by one directory |
| FileContents.CreationMeans | drivers/fs.c:206-320 | making a directory needs such a place and fewer than 32 records; making a file such a place, fewer than 128 entries and, unless it is empty, a block |
| FileContents.CanGetMeans | src/libc/stdlib.c:48-86 | a block can be had iff the size is at most 2^32 - 8 and some free block is as large as the rounded size |
| FileContents.Deleted | drivers/fs.c:381-404 | deleting an entry with its block removes exactly its path from the map; the blocks of others are the same, none is leaked and none freed twice |
| FileContents.Emptied | drivers/fs.c:430-434 | a file whose block is freed has lost its contents and keeps its size; nothing else changes |
| FileContents.Stored | drivers/fs.c:446-448 | data stored in a file's block is what the map says at its path, and nothing else changes |
| FileSystem.FileSystem.constructor | drivers/fs.c:8 | the static tables before fs_init: an empty tree that owns no block |
| FileSystem.FileSystem.Init | drivers/fs.c:57-73 | after fs_init the tree is empty, the invariant holds and no block has changed hands |
| FileSystem.FileSystem.ChildDir | drivers/fs.c:111-139 | one step of the walk finds the record of the named subdirectory, or there is none |
| FileSystem.FileSystem.FindParentDir | drivers/fs.c:91-142 | the walk ends at the directory whose path is all components but the last, or at -1 if there is none |
| FileSystem.FileSystem.GetFilename | drivers/fs.c:145-159 | the first 31 characters of the last component, all of it if it has no more, or nothing if there is none |
| FileSystem.FileSystem.Find | drivers/fs.c:162-188 | the live entry whose path is the components of the argument; -1 if there is none, -2 for the root |
| FileSystem.FileSystem.MkDir | drivers/fs.c:191-267 | succeeds iff nothing is there, the directory above is and has room, and a record is free; then the map gains one directory |
| FileSystem.FileSystem.Create | drivers/fs.c:270-330 | succeeds iff nothing is there, the directory above has room, an entry is free and the allocator has a block; then the map gains one file of that size |
| FileSystem.FileSystem.Delete | drivers/fs.c:333-408 | succeeds iff something is there and, if a directory, nothing is in it; then exactly that path is gone and its block is free |
| FileSystem.FileSystem.DeleteEntry | drivers/fs.c:352-407 | the same for an entry already found; the branch for a missing record is never taken |
| FileSystem.FileSystem.ShiftDown | drivers/fs.c:395-397 | the shifting loop moves what is behind the gap down by one |
| FileSystem.FileSystem.RemoveEntry | drivers/fs.c:391-404 | the entry is cut out of its list, the order of the others is kept, and its name is cleared |
| FileSystem.FileSystem.Write | drivers/fs.c:411-452 | succeeds iff the path is a file's and, seen before the call, it has a block of that size or one can be had once its own is freed; then the map holds the data there; otherwise the old contents of a file are lost |
| FileSystem.FileSystem.ReleaseBlock | drivers/fs.c:430-434 | a block of the wrong size is freed and the contents with it; what a request gets afterwards is known before |
| FileSystem.FileSystem.BlockFor | drivers/fs.c:430-444 | the block the file gets is the one foreseen from the state before, NULL included |
| FileSystem.FileSystem.Read | drivers/fs.c:455-490 | a file's contents up to the asked size, nothing if they are lost; -1 exactly when the path is not a file's |
| FileSystem.FileSystem.CopyBytes | drivers/fs.c:817-838 | the destination gets the source's bytes iff the allocator has a buffer of that size, and is deleted again otherwise; the buffer is always given back, and the failing-write branch is never taken |
| FileSystem.FileSystem.Copy | drivers/fs.c:784-842 | succeeds iff the source is a file, the destination can be created with its size, and the heap left then has a buffer if there are bytes to copy; then the map gains the destination with the source's contents; otherwise it is the same |
| FileSystem.FileSystem.Move | drivers/fs.c:845-867 | succeeds iff the copy does; then the contents are at the destination and the source is gone; otherwise the map is the same; the branch that cleans up after a failing delete is never taken |
| FileSystemRuns.Perform | drivers/fs.c:191-867 | every call is a step of the map from paths to contents that succeeds exactly when the state before says so, and never touches anybody else's block |
| FileSystemRuns.RunKeepsTree | drivers/fs.c:191-408 | in every state of every run the map is a tree |
| FileSystemRuns.RunReadsLastWritten | drivers/fs.c:411-490 | reading gives the prefix of the bytes last written, through any calls that do not delete, write or move that file |
| FileSystemRuns.RunSpares | drivers/fs.c:270-490 | a call on one path leaves what is at every other path unchanged, over whole runs |
| FileSystemRuns.MovedContents | drivers/fs.c:845-867 | a moved file reads the same at its new path and is gone from the old one |
| FileSystemRuns.CopiedContents | drivers/fs.c:784-842 | a copied file reads the same at both paths, and every other path names what it named |
| FileSystemRuns.StepLosesNothing | drivers/fs.c:430-441 | a call loses contents iff it writes to a file with something in it and, seen before the call, there is no block for the new size even once the file's own, being of another size, is freed |
| FileSystemRuns.RunLosesNothing | drivers/fs.c:430-441 | a run keeps all contents iff none of its calls meets that condition |
| FileSystemRuns.OverwritingLosesContents | drivers/fs.c:430-441 | a concrete failure: a file of 1000 bytes on a fresh heap, overwritten with as much data as the whole heap has, is lost |
| FileSystemRuns.EmptyTreeOwnsNothing | drivers/fs.c:386-388 | no leak: with the tree empty, no live block belongs to the filesystem |
| BlockList.TiledConserves | src/libc/stdlib.c:24-34 | blocks that tile the heap account for every byte once |
| BlockList.PayloadsDisjoint | src/libc/stdlib.c:77 | different live pointers give access to disjoint ranges inside the heap |
| BlockList.SplitContents | src/libc/stdlib.c:65-74 | splitting a free block keeps the tiling and every live payload |
| BlockList.JoinContents | src/libc/stdlib.c:107-117 | joining two free neighbours keeps the tiling and every live payload |
| BlockList.WriteContents | src/libc/stdlib.c:76-78 | writing within the bounds of a live block changes that payload and no other |
| FirstFit.RoundingCovers | src/libc/stdlib.c:48-56 | the rounded size covers the request iff the request is at most 2^32 - 8, and then is 16 or the least multiple of 8; beyond, rounding wraps to 16 |
| FirstFit.CarveSizes | src/libc/stdlib.c:63-75 | a block is cut down to the rounded size iff at least 28 bytes are left over, 12 of them for the new header; so what is granted is less than 28 bytes too long |
| FirstFit.FreeCoalesces | src/libc/stdlib.c:106-120 | after a free, of whatever heap, there are two adjacent free blocks iff there were two before or both neighbours of the block were free |
| FirstFit.FreeMerges | src/libc/stdlib.c:104-120 | a freed block goes to its predecessor if that is free, else takes its successor if that is; the header of 12 bytes becomes payload |
| FirstFit.CarveCoalesced | src/libc/stdlib.c:63-79 | an allocation makes no new adjacent free blocks |
| FirstFitRuns.StepCoalesces | src/libc/stdlib.c:37-121 | the first two adjacent free blocks come about exactly by freeing a block between two free ones; no later free removes them |
| FirstFitRuns.RunCoalesces | src/libc/stdlib.c:37-121 | a run never has two adjacent free blocks iff it never frees a block between two free ones |
| FirstFit.CarveContents | src/libc/stdlib.c:63-79 | handing out a block makes its pointer the only new one; the tiling and all other payloads stay |
| FirstFit.FreeContents | src/libc/stdlib.c:100-120 | freeing removes exactly one pointer; the tiling and all other payloads stay |
| FirstFit.ChainRewritten | src/libc/stdlib.c:65-74 | rewriting the headers of one place leaves the chain through all others intact |
| LibcHeap.Heap.constructor | src/libc/stdlib.c:18-21 | the static heap before its first use: nothing is live |
| LibcHeap.Heap.InitializeHeap | src/libc/stdlib.c:24-34 | the headers in memory describe one free block over the whole range; a second call changes nothing |
| LibcHeap.Heap.Search | src/libc/stdlib.c:58-83 | the walk along the chain stops at the first free block that is large enough, or at NULL if there is none |
| LibcHeap.Heap.Malloc | src/libc/stdlib.c:37-87 | NULL iff no free block fits; otherwise the first that fits is granted, with at least the rounded size and less than 28 bytes more, and no other payload or byte outside the heap changed |
| LibcHeap.Heap.TakeBlock | src/libc/stdlib.c:63-79 | the header writes of the split and of the marking describe the carved block list |
| LibcHeap.Heap.Free | src/libc/stdlib.c:90-121 | exactly that pointer is no longer live, every other payload is unchanged, and the chain is the merged block list |
| LibcHeap.Heap.Coalesce | src/libc/stdlib.c:104-120 | the whole merging walk, which changes the list under its own cursor, merges with the predecessor, else with the successor, and does nothing else |
| LibcHeap.Heap.Realloc | src/libc/stdlib.c:136-165 | the result holds the request and begins with the old payload, other payloads are untouched; NULL for a nonzero size leaves everything as it was, and is returned iff the block is too small and no block fits; of a NULL pointer it is malloc |
| AllocatorRuns.RunKeepsPayload | src/libc/stdlib.c:37-121 | over any run a payload changes only by its own free or write |
| AllocatorRuns.InvMeaning | src/libc/stdlib.c:37-121 | the run invariant: no byte is lost, live payloads are disjoint and each is a whole used block |
| FirstFitRuns.Perform | src/libc/stdlib.c:37-121 | each call on the heap in memory is a step of the abstract allocator and writes nothing outside the heap |
| FirstFitRuns.RunSafety | src/libc/stdlib.c:37-121 | in every state of every run the blocks tile the heap, bytes are conserved and live payloads are disjoint |
| FirstFitRuns.RunKeepsBytes | src/libc/stdlib.c:37-121 | no call alters a byte of another live payload, over whole runs |
| FirstFitRuns.RunGrantsRequest | src/libc/stdlib.c:48-79 | what a run hands out was not live before and is as long as asked iff the request is at most 2^32 - 8 |
| FirstFitRuns.FreshCapacity | src/libc/stdlib.c:16-34 | a first request is granted iff it is for at most 1048560 bytes, behind the header at the start of the heap |
| FirstFitRuns.FreeingTheMiddleLast | src/libc/stdlib.c:106-120 | a concrete failure: three blocks of a fresh heap, the middle one freed last, leave two adjacent free blocks |
| FirstFitRuns.RunRefusesOnlyWhenFull | src/libc/stdlib.c:58-86 | NULL iff no free block holds the rounded request, and then nothing changes |
| BestFit.RoundingCovers | kernel/heap.c:129-140 | the aligned size covers the request iff the request is at most 2^32 - 8, and then is 32 or the least multiple of 8; beyond, it is 32 |
| BestFit.CarveSizes | kernel/heap.c:73-95 | a block is split iff at least 52 bytes are left over, 20 of them for the new header; so what is granted is less than 52 bytes too long |
| BestFit.ExactFitIsBest | kernel/heap.c:51-70 | an exact fit is the first of the smallest, so the search may stop at it |
| BestFit.BestUnique | kernel/heap.c:51-70 | the first of the smallest sufficient blocks is unique |
| BestFit.CarveCoalesced | kernel/heap.c:73-95 | allocation never leaves two adjacent free blocks |
| BestFit.FreeCoalesced | kernel/heap.c:98-126 | freeing with two-sided merging never leaves two adjacent free blocks |
| BestFit.FreedBlock | kernel/heap.c:98-126 | a freed block becomes one with both its neighbours as far as they are free, the headers of 20 bytes included |
| BestFit.CountSplit | kernel/heap.c:73-95 | a split adds exactly one free block |
| BestFit.CountJoin | kernel/heap.c:98-126 | a merge of free blocks removes exactly one free block |
| KernelChain.SplitWritten | kernel/heap.c:73-95 | the header and link writes of a split describe the split block list, next and prev mirroring each other |
| KernelChain.JoinWritten | kernel/heap.c:98-126 | the writes of a merge describe the joined block list, next and prev mirroring each other |
| KernelChain.WrappedSplitCorrupts | kernel/heap.c:73-95 | after a split whose remaining size has wrapped, no block list at all explains the headers |
| KernelHeap.Heap.constructor | kernel/heap.c:14-15 | before heap_init the heap is not initialized |
| KernelHeap.Heap.Init | kernel/heap.c:18-48 | one free block from the start, rounded up to a multiple of 16, to the end, with exact counters |
| KernelHeap.Heap.FindBestFit | kernel/heap.c:51-70 | the first of the smallest free blocks that hold the size, despite the early exit; NULL iff there is none |
| KernelHeap.Heap.SplitBlock | kernel/heap.c:73-95 | three cases, by the true remaining size: a proper split, nothing, or, when the unsigned subtraction wraps, a link to a rest of wrapped size |
| KernelHeap.Heap.Malloc | kernel/heap.c:129-166 | the block used is the best fit, and what is granted is less than 52 bytes longer than the rounded size; the heap stays well formed, with exact counters and magic numbers, iff the split does not wrap |
| KernelHeap.Heap.Free | kernel/heap.c:169-194 | a pointer without the magic number of a used block is rejected and nothing changes; otherwise exactly that pointer goes and the heap is coalesced, with exact counters; in either case the header no longer carries that number |
| KernelHeapRuns.FreeTwice | kernel/heap.c:169-194 | freeing a pointer twice in a row is freeing it once |
| KernelHeap.Heap.MergeFreeBlocks | kernel/heap.c:98-126 | merging with both sides gives the specified block list and keeps every live payload |
| KernelHeap.Heap.Realloc | kernel/heap.c:214-256 | on success the request is held and the old payload kept; NULL for a nonzero size leaves everything as it was; of a NULL pointer it is malloc |
| KernelHeap.Heap.Validate | kernel/heap.c:300-345 | a heap that no wrapped split has hit is found valid iff it has at most 10000 blocks |
| KernelHeapRuns.Perform | kernel/heap.c:129-194 | each call is a step of the abstract best-fit heap, unless its split wraps; then the headers are corrupt |
| KernelHeapRuns.RunSafety | kernel/heap.c:129-194 | in every state of a run without a wrapped split the blocks tile the heap, no two neighbours are free and live payloads are disjoint |
| KernelHeapRuns.RunKeepsBytes | kernel/heap.c:129-194 | over such runs a payload changes only by its own free or write |
| KernelHeapRuns.RunBestFit | kernel/heap.c:129-166 | a nonzero request gets NULL iff no free block holds the rounded size, else the first of the smallest |
| KernelHeapRuns.FreshHeapWraps | kernel/kernel.c:1103 | on the fresh 4 MB kernel heap exactly the requests from 0x3FFFD9 to 0x3FFFE8 bytes wrap the split |
| KernelHeapRuns.FreshCapacity | kernel/kernel.c:1103 | on the fresh 4 MB kernel heap the best fit is the whole heap iff the request is for at most 0x3FFFE8 bytes; beyond, there is none |
| KernelHeapRuns.BigRequestCorruptsFreshHeap | kernel/heap.c:73-95 | such a request, made of the fresh kernel heap, leaves headers that lay out no heap |
| Bits.SetBitChanges | kernel/pmm.c:60 | setting a bit changes that bit and no other |
| Bits.BitWeight | kernel/pmm.c:58 | bit k is the one of weight 2^k: the test says whether the quotient by 2^k is odd |
| Bits.SameWidth | kernel/pmm.c:23 | setting and clearing bits keeps a word within its width |
| Bits.ClearBitChanges | kernel/pmm.c:108 | clearing a bit changes that bit and no other |
| FrameBitmap.AnswerIsFrame | kernel/pmm.c:48-89 | an answer of 0 means that all 7680 frames are in use; any other is 0x200000 + 4096 f for the lowest free frame f |
| FrameBitmap.FreedFrame | kernel/pmm.c:92-116 | freeing an address frees the frame it lies in and no other |
| FrameBitmap.CountUsed | kernel/pmm.c:48-52 | all frames are counted as used iff no frame is free |
| FrameBitmap.Pmm.constructor | kernel/pmm.c:14-45 | after pmm_init exactly frame 0 is in use, the counter is exact and the hint is sound |
| FrameBitmap.Pmm.AllocFrame | kernel/pmm.c:48-89 | the search from the hint refines "lowest free frame": same answer, same set in use; its fallback loop never finds a frame |
| FrameBitmap.Pmm.FreeFrame | kernel/pmm.c:92-116 | freeing removes exactly that frame from the set in use; anything outside the range, or free already, changes nothing |
| FrameBitmap.Pmm.MarkFrameUsed | kernel/pmm.c:119-132 | marking adds exactly that frame; an index out of range changes nothing |
| FrameBitmap.Perform | kernel/pmm.c:48-132 | every call on the bitmap is a step of the simple allocator |
| FrameBitmap.StaysUsed | kernel/pmm.c:48-132 | over any run a frame in use stays in use until it is freed |
| FrameBitmap.NeverTwice | kernel/pmm.c:48-89 | over any run no frame is handed out twice without a free in between |
| FrameBitmap.FreeThenAlloc | kernel/pmm.c:48-116 | freeing the lowest used frame below which none is free and allocating again restores the state |
| MemoryLayout.HeapFramesAreHandedOut | kernel/kernel.c:1101-1103 | the frame handed out next lies in the kernel heap iff the lowest free frame is one of 1536 to 2559 |
| MemoryLayout.AllocationsReachTheHeap | kernel/kernel.c:1101-1103 | a concrete run: the 1536th allocation after pmm_init answers with the start of the kernel heap |
| Paging.IndexSplit | kernel/vmm.c:82-83 | the 10/10/12 split: the three fields determine the address |
| Paging.TranslateIsPageMap | kernel/vmm.c:148-167 | walking the two levels is looking the page up in a plain map and adding the offset |
| Paging.NewFrameIsFresh | kernel/pmm.c:48-89 | the frame given out for a table was not in use and is the only new one |
| Paging.MapPageEffect | kernel/vmm.c:77-115 | without a frame for a table nothing changes; otherwise exactly one page changes, in this directory and those that share its table, and the structures stay sound |
| Paging.MapPageEntries | kernel/vmm.c:85-111 | entry by entry: the page's entry gets bits 0, 1 and 2 of the flags as present, writable and user and the aligned frame; a new table is otherwise empty and its directory entry present, writable and as user as asked; every other entry in memory is as before |
| Paging.MappedPageTranslates | kernel/vmm.c:107-111 | with the present flag every address of the page translates to the aligned frame plus offset, every other as before |
| Paging.UnmapPageMaps | kernel/vmm.c:118-145 | unmapping removes exactly that page from the map |
| Paging.UnmapPageEntries | kernel/vmm.c:118-145 | entry by entry: the page's entry is cleared, every other is as before, and the frame it held, if managed, is free |
| Paging.UnmapPageInv | kernel/vmm.c:132-141 | the structures stay sound iff the frame given back holds no directory or table |
| Paging.CreateDirectoryEffect | kernel/vmm.c:49-67 | a new directory maps the kernel part as the kernel directory does and nothing below; no other directory changes |
| Paging.CreateDirectoryEntries | kernel/vmm.c:49-67 | entry by entry: a new directory has the kernel directory's entries from 768 on, rights included, and no others |
| Paging.LowIsPrivate | kernel/vmm.c:49-67 | below 0xC0000000 no directory shares a table with another |
| Paging.RunInv | kernel/vmm.c:49-145 | over every run that unmaps no page of a paging structure the structures stay sound |
| Paging.RunIsolation | kernel/vmm.c:49-145 | mapping and unmapping low addresses elsewhere, over whole runs, changes no translation of a directory |
| AddressSpaces.Vmm.constructor | kernel/vmm.c:7-22 | before vmm_init there is no directory and none is current |
| AddressSpaces.Vmm.MapPage | kernel/vmm.c:77-115 | the in-place update refines the page-map specification |
| AddressSpaces.Vmm.UnmapPage | kernel/vmm.c:118-145 | the in-place update refines the page-map specification and gives the frame back |
| AddressSpaces.Vmm.GetPhysicalAddress | kernel/vmm.c:148-167 | 0 if the page is not mapped; otherwise the plain map's frame plus the offset |
| AddressSpaces.Vmm.CreatePageDirectory | kernel/vmm.c:49-67 | fails iff no frame is free; otherwise the new directory is the kernel part of the kernel directory's map |
| AddressSpaces.Perform | kernel/vmm.c:49-145 | every call on the tables in memory is a step of the plain maps |
| AddressSpaces.Vmm.Init | kernel/vmm.c:24-46 | after vmm_init the kernel directory maps exactly the first 4 MB to themselves and once more in the kernel part, each as far as there was a frame for its table; every mapped page is writable and not for users |
| AddressSpaces.KernelRightsKept | kernel/vmm.c:33-40 | mapping with the flags of boot keeps every mapped page of the directory writable and not for users |
| AddressSpaces.BootTranslates | kernel/vmm.c:32-41 | v and 0xC0000000 + v translate to v for every v below 4 MB, and nothing else translates |
| AddressSpaces.UnmappingATableFreesIt | kernel/vmm.c:139-141 | a concrete failure: unmapping the identity page of the first table right after boot gives a table in use back to the allocator |
| Scheduling.StepInv | kernel/scheduler.c:34-188 | every event of a disciplined run keeps the scheduler invariant |
| Scheduling.RunSafety | kernel/scheduler.c:34-188 | in every state of every such run the queue has no duplicates, only ready processes are queued, and the one running process is current and not queued |
| Scheduling.ScheduleEffect | kernel/scheduler.c:112-163 | a switch runs the head of the queue from a fresh slice; a process that was running is ready at the end; all other records are as before |
| Scheduling.TickEffect | kernel/scheduler.c:166-179 | a tick counts modulo 2^32 and switches iff the count has reached the slice |
| Scheduling.ExitEffect | kernel/process.c:177-195 | a process that exits is terminated and not queued, and the head of the queue runs; the rest of the queue and all other records are as before; the kernel process does not exit |
| Scheduling.ExitedStaysOut | kernel/process.c:177-195 | over whole runs, an exited process neither runs nor is queued before it is added again, nor becomes the current one if there was another to hand over to |
| Scheduling.AddEffect | kernel/scheduler.c:34-55 | an added process is ready and the last of the queue |
| Scheduling.RemoveEffect | kernel/scheduler.c:58-87 | a removed process leaves the queue at its place and nothing else changes |
| Scheduling.CreateEffect | kernel/process.c:52-76 | a new process takes the lowest unused slot from 1 on, the next number of 1 to 31, and 50, 100 or 200 ticks by its priority; it is ready and not queued |
| Scheduling.DestroyEffect | kernel/process.c:135-159 | a destroyed process leaves an empty unused slot, unless it is the kernel process; nothing else changes |
| Scheduling.SwitchRotates | kernel/scheduler.c:112-163 | a switch from a running process rotates the ring of current and queued processes and loses nobody |
| Scheduling.YieldsRotate | kernel/scheduler.c:182-188 | n switches rotate the ring n times |
| Scheduling.FullRound | kernel/scheduler.c:112-188 | with n processes queued, n + 1 switches restore the original order |
| Scheduling.TickWait | kernel/scheduler.c:166-179 | one tick brings every queued process exactly one tick nearer |
| Scheduling.ExactWait | kernel/scheduler.c:166-188 | with ticks only, a process becomes current after exactly the rest of the current slice plus the slices ahead, and not before |
| Scheduling.RestOfSlice | kernel/scheduler.c:172-178 | the rest of the current slice is max(1, slice - used) iff the 32-bit counter is not about to wrap or the slice is 0 |
| Scheduling.CounterWraps | kernel/scheduler.c:172-178 | a process that runs alone for 2^32 - 1 ticks makes one that is added wait a whole slice longer |
| Scheduling.BootedCounterWraps | kernel/process.c:24-34 | a concrete input: the kernel alone after boot; a process added then waits 101 ticks instead of 1 |
| Scheduling.WaitBound | kernel/process.c:75-76 | the wait is at most 200 ticks per process ahead and 200 more, exceeded, by one tick, iff the counter is about to wrap and the current slice and all slices ahead are 200 |
| Scheduling.BoundExceeded | kernel/process.c:75-76 | a concrete input: a process of low priority alone for 2^32 - 1 ticks; the kernel, added again, waits 201 |
| Scheduling.EventNearer | kernel/scheduler.c:34-188 | no event but its own removal delays a waiting process, except that a new process in the slot of a destroyed current one adds its slice |
| Scheduling.CreateNearer | kernel/process.c:67-76 | creating a process changes a wait only if it reuses the slot of a destroyed current process, and then by exactly the new slice, less the one tick that was due |
| Scheduling.BoundedWaiting | kernel/scheduler.c:34-188 | over whole runs of any events but its own removal, a waiting process has been switched to once its wait in ticks has passed, with the slices of reused current slots added |
| ReadyQueue.UnlinkedProcess | kernel/scheduler.c:67-86 | cutting a process out of the links leaves one list of the others in order |
| ReadyQueue.Kernel.constructor | kernel/process.c:8-11 | the static tables: no process, empty queue, scheduler disabled |
| ReadyQueue.Kernel.InitProcesses | kernel/process.c:17-37 | the kernel process runs in slot 0 with a slice of 100 and all other slots are free |
| ReadyQueue.Kernel.InitScheduler | kernel/scheduler.c:17-31 | an empty queue and an enabled scheduler |
| ReadyQueue.Kernel.AddProcess | kernel/scheduler.c:34-55 | the linked queue gains the process at its end; disabled or NULL changes nothing |
| ReadyQueue.Kernel.RemoveProcess | kernel/scheduler.c:58-87 | the walk unlinks the process wherever it is and keeps head, tail and count right |
| ReadyQueue.Kernel.GetNextProcess | kernel/scheduler.c:90-109 | the head of the queue is taken off, or NULL from an empty one |
| ReadyQueue.Kernel.ScheduleNext | kernel/scheduler.c:112-163 | the linked form refines the abstract switch |
| ReadyQueue.Kernel.Yield | kernel/scheduler.c:182-188 | a yield is a switch, when the scheduler is enabled |
| ReadyQueue.Kernel.TimerTick | kernel/scheduler.c:166-179 | the 32-bit tick count and the preemption refine the abstract tick |
| ReadyQueue.Kernel.ExitProcess | kernel/process.c:177-195 | the current process is terminated and not queued and, with the scheduler enabled, switched away from; the kernel process cannot exit |
| ReadyQueue.Kernel.GetNextPid | kernel/process.c:40-49 | process numbers run from 1 to 31 and start again |
| ReadyQueue.Kernel.CreateProcess | kernel/process.c:52-132 | the first unused slot from 1 on is filled and stays READY even when NULL is returned for want of memory |
| ReadyQueue.Kernel.DestroyProcess | kernel/process.c:135-159 | the slot is cleared; the kernel process cannot be destroyed |
| ReadyQueue.Kernel.Perform | kernel/scheduler.c:34-188 | every event of a run is one call on the linked structure, which keeps describing the abstract queue |
| DiskGeometry.ChsToLbaExact | drivers/disk.c:450-452 | the address computation stays within 32 bits iff the address is not 0/0/0, where it comes to -1 |
| DiskGeometry.LbaParts | drivers/disk.c:454-458 | the truncating assignments lose nothing but the high part of the cylinder |
| DiskGeometry.LbaRoundTrip | drivers/disk.c:450-458 | converting a block number and back gives it back iff its cylinder fits 16 bits |
| DiskGeometry.ChsRoundTrip | drivers/disk.c:450-458 | converting an address and back gives it back iff head and sector are within the geometry |
| Graphics.OnLineUnique | drivers/graphics.c:309-342 | at each step there is only one point within half a pixel of the ideal line, a tie going one way |
| Graphics.OnLineMeaning | drivers/graphics.c:309-342 | pixel k is k steps along the longer extent and at most half a pixel off the line through both ends; exactly half a pixel off, it is on the side of the start |
| Graphics.NextStep | drivers/graphics.c:328-340 | one turn of the loop moves the dominant coordinate and keeps the error term exact |
| Graphics.DrawLine | drivers/graphics.c:309-342 | max(abs dx,abs dy) + 1 points from end to end; in each the dominant coordinate has moved once more and the other is within half a pixel |
| Graphics.NearestHeightMeaning | drivers/graphics.c:369-393 | the integer condition on a height says that the true height is less than half a pixel away |
| Graphics.OctantUnique | drivers/graphics.c:369-393 | the octant of nearest heights is determined by the radius |
| Graphics.BlockAt | drivers/graphics.c:376-383 | pixels 8k to 8k + 7 are the eight sign and swap variants of column k and its height, in the order of the calls |
| Graphics.CirclePixels | drivers/graphics.c:369-393 | a pixel is plotted iff, with u the longer and v the shorter of its offsets from the center, u^2 - u < r^2 - v^2 <= u^2 + u; so the picture is symmetric about both axes and both diagonals |
| Graphics.CircleStep | drivers/graphics.c:385-391 | the incremental decision value always equals (x+1)^2 + y^2 - y - r^2 |
| Graphics.DrawCircle | drivers/graphics.c:369-393 | the plotted pixels are, in blocks of eight, those of the octant of nearest heights, and as a set exactly the pixels nearest to the circle; radius 0 plots the center eight times, a negative one nothing |
| Numerals.ReverseInPlace | kernel/pmm.c:160-164 | swapping from both ends reverses the stretch and nothing else |
| Numerals.ItoaInRange | kernel/pmm.c:146-156 | every digit index of the whole loop is within the table iff the value is not negative, or the base is ten and it is not INT_MIN |
| Numerals.UnprintableValues | kernel/pmm.c:146-156 | two concrete failures: -16 in base 16, whose first digit is still right, and INT_MIN in base ten |
| Numerals.NumeralDenotes | kernel/pmm.c:152-156 | in every base the numeral denotes the number, with digits 0 to 9 and a to f below the base and no leading zero |
| Numerals.NumeralOfValue | kernel/pmm.c:152-156 | and it is the only such string |
| Numerals.TextDenotes | kernel/pmm.c:145-156 | the text is the numeral of the magnitude, behind a minus sign for a negative value |
| Numerals.EmitDigits | kernel/pmm.c:152-156 | the digit loop writes the numeral backwards and nothing else |
| Numerals.Itoa | kernel/pmm.c:140-165 | the buffer holds the numeral with its sign and terminator; the rest is untouched |
| Machine.LowWord | src/libc/stdlib.c:185-191 | the two 32-bit conversions keep the number modulo 2^32 and bring it into their range, which determines them |
| Numerals.Atoi | src/libc/stdlib.c:168-192 | the denoted integer modulo 2^32, hence exactly when it fits an int |
| Numerals.ParseMeaning | src/libc/stdlib.c:168-192 | after blanks, tabs and newlines an optional sign and any number of digits denote the signed decimal value, 0 without digits; what follows is ignored |
| Numerals.ParseText | src/libc/stdlib.c:168-192 | reading a printed number gives it back, whatever blanks precede it and non-digits follow |
| Numerals.PrintThenParse | kernel/pmm.c:140-165 | printing and parsing an int other than INT_MIN is the identity |

## Left out

- `heap_calloc` and `calloc`, `fs_list_dir`, `fs_stat`, `fs_tree`, `fs_find_by_name` and `fs_change_dir`: they only add easy members.
- `free_size`, `total_size`, the scheduler's statistics, `total_time`, timestamps and file attributes: no guarantee rests on them.
- Register contents, `save_context`, `load_context`, CR3 and the TLB: they have no meaning in the files modelled. `vmm_switch_page_directory` only records the current directory besides. `vmm_enable_paging` is left out for the same reason.
- Disk, serial, keyboard and display I/O, and the shell: device polling and user interface.
- Nested timer interrupts: each scheduler call is one step.
- The stacks, address space and parent of a new process: only the slot, the number and the slice are modelled, and whether memory was had is a parameter.
- The cached, dirty and accessed bits of page table entries: the code never sets them.
- NULL paths, which `fs_find` takes for the root: a path is always a string here.
- The error path of an uninitialized filesystem in `fs_find` itself, which does not test for it: `Find` is specified for an initialized one.
- FileSystem.FileSystem.MkDir: requires a free entry and a path with a name; the original tests neither and writes behind its table or creates an entry without a name.
- FileSystem.FileSystem.Create: requires a path with a name and a size of at most 2^32 - 8, above which the allocator hands out a tiny block.
- FileSystem.FileSystem.Find: requires paths of less than 256 characters; longer ones are copied without a terminator and read past the buffer.
- FileSystem.FileSystem.Write: requires at most 2^32 - 8 bytes, for the same reason.
- FileSystem.FileSystem.Copy: requires a destination with a name.
- FileSystem.FileSystem.Move: requires a destination with a name.
- FileSystemRuns.Perform: requires of each call what the operation itself requires.
- PathTokens.ParsePath: requires paths of less than 256 characters, and returns copies of the components; the original returns pointers into its own buffer, which is dead by then (drivers/fs.c:77-84).
- FileSystem.FileSystem.Init: requires that it has not run before; a second run would forget the blocks of all files.
- LibcHeap.Heap.Realloc: requires a size of at most 2^32 - 8; above, rounding wraps and the old payload is copied past the end of a tiny block.
- LibcHeap.Heap.Free: requires NULL or a live pointer, as the C standard does.
- KernelHeap.Heap.Realloc: requires a size of at most 2^32 - 8 and that the allocation it may make does not wrap a split.
- KernelHeap.Heap.Init: requires a range with room for the first header; a smaller one makes the size of the first block wrap.
- KernelHeap.Heap.Validate: requires a well-formed heap; what it reports of one that a wrapped split has corrupted is not modelled.
- KernelHeap.Heap.Free: requires that a pointer that carries the magic number of a used block is a live one.
- Numerals.Itoa: is specified for exactly the values whose digit indices are all in range (ItoaInRange); what the others print is whatever lies in front of the digit table.
- Numerals.EmitDigits: is the digit loop for these values, which it receives non-negative.
- Numerals.Atoi: reads the overflow of the accumulator, which C leaves undefined, as two's complement wrap-around.
- Graphics.DrawLine: coordinates are unbounded integers; overflow of `int` far outside the screen is not modelled, and clipping by the pixel routine is not either.
- ReadyQueue.Kernel.AddProcess: requires that the process is not queued already; the original does not test that and would cut its list short.
- ReadyQueue.Kernel.DestroyProcess: requires that the process is not queued; the original would leave its cleared slot in the list.
- ReadyQueue.Kernel.CreateProcess: whether the page directory and the two stacks could be had is a parameter; their allocation is not tied to the frame allocator.
- ReadyQueue.Kernel.InitProcesses: requires an empty queue, as at boot.
- The tokenizer's static position outlives a call in the original; since every parse starts with a buffer of its own, `ParsePath` uses a new tokenizer.
- Stored paths of the current directory, and relative paths: only the operations on absolute components are modelled.
