# Proofs about the kernel's memory managers, terminal and installer

This project models the parts of the operating system that keep a fast or indirect
structure in agreement with a simple one, and proves that they do, for every input and
every run.

* **The kernel heap** (`mm/heapalloc/tlsf.c`): segregated free lists found through two
  levels of bitmaps, over blocks whose headers overlap the tails of their neighbours.
  The memory is an array of words. `SizeClasses`, `Alignment`, `FreeLists`, `Bitmaps`,
  `Layout`, `HeapFrames` and `HeapSteps` hold the facts about values; `Tlsf` holds the
  allocator, method by method; `HeapTheorems` and `Session` say what follows for whole
  runs.
* **Physical frames and page tables** (`mm/pmm.c`, `mm/vmm.c`): a free list kept inside
  the free frames, and a four-level tree grown out of them, on one memory of words
  (`PageTables`, `VirtualMemory`); `FrameZero` is about running out of frames. The tables
  are those of section 4.5 of the Intel 64 and IA-32 Architectures Software Developer's
  Manual, Volume 3A.
* **The boot loader installer** (`boot/limine.c`): a one-block write-back cache over a
  disk, a log of replaced bytes, and the file that keeps it (`UndoLog`, `BlockDevice`,
  `LogFile`, `Installer`).
* **The text screen** (`kernel/terminal/src/flanterm_backends/fb.c`): a queue of changed
  cells over a grid, plotted pixel by pixel under four rotations (`Rows`, `Pixels`,
  `Framebuffer`, `TextView`, `DrawQueue`, `Screen`).
* **The terminal** (`kernel/terminal/src/flanterm.c`): the escape-sequence state machine
  that drives the screen. `RowEdits` and `Erasing` say where the printed spaces of the
  editing commands land, `ScreenEdits` carries those commands out, `Rendering`, `Commands`
  and `Parsing` say what colours, commands and bytes mean, and `Terminal` is the parser.
  `Sequences` and `Effects` say what whole strings of bytes do, in the terms of the screen.
  Insert and delete character are those of sections 8.3.64 and 8.3.26 of ECMA-48.
* **Number printing and parsing** (`klibc/stdlib.c`): `itoa` and `strtol` (`Numbers`).

`Common` holds what several of them share.

`dafny verify dfyconfig.toml` checks the whole project.

## Where the code differs from what one would expect

The model follows the code. These are proved as lemmas or appear in the contracts:

* The seven largest request sizes wrap around when they are aligned and are granted 24
  bytes (`AdjustCovers`).
* The pool size check admits 2^32 bytes, whose size class has no row (`PoolCheck`,
  `ClassInTable`).
* At alignment 2^63 the padded size wraps around to the smallest block (`PaddingCovers`).
  On every pool away from the middle of the address space a request larger than the pool
  is then granted, with a block that is too small and not aligned (`LargestAlignment`);
  `AlignedAtLargest` says exactly when the block is aligned.
* `realloc` with a non-zero request that adjusts to zero, such as one above 2^32 bytes,
  returns the block it was given and, unless that has just 24 bytes, leaves it a zero size
  word (`Realloc`), which no layout of the heap accounts for (`ReallocRefused`).
* `map_page` uses frame 0 as a table when it runs out of free frames. `MapPage` says when
  it still maps exactly one page: if one frame is missing and frame 0 is no table yet. The
  next time frame 0 is cleared, and the pages of its old region lose their entries or read
  the new one (`AliasReads`, `SharedOnly`); with two or three frames missing another page
  is mapped as well (`StarvedTwo`, `StarvedThree`).
* The user bit of tables that are already there is not updated, so a user page below them
  may stay closed to user code (`OldRights`).
* A log with an empty entry can be neither stored nor loaded (`ParseOfFile`, `Store`).
* The cursor row is limited by the number of columns, so it can leave the screen
  (`CursorKeptOnScreen`, `CursorLeavesScreen`); `OffScreen` does it byte by byte on
  every screen of at least three rows that is wider than high.
* On a screen higher than wide erasing the display misses rows for the same reason, and
  it stops at the end of the scroll region (`BelowIsRest`, `AboveIsStart`). From past the
  last column it leaves the cursor's line alone (`DisplayErasedMeans`).
* Erasing to the end of the line from past its last column blanks the next line's first
  cell instead, or nothing from the last row of the scroll region on (`LineErasedMeans`).
* Deleting more characters than a line has blanks it, but with more than 2^31 too many it
  keeps all but the last cell and blanks most of the next line, if the scroll region goes
  on to it (`DeletedMore`).
* Inserting zero characters blanks the rest of the line (`InsertZero`), and deleting more
  characters than follow the cursor blanks some before it (`DeleteKeepsLeft`).
* Inserting lines from below the scroll region blanks the cursor's row (`LinesEdited`).
* A control sequence with an unknown command swallows one more command byte and leaves
  scrolling switched off (`UnknownCommand`).
* A column or row of zero alone means the last one (`MovesTo`).
* Moving the cursor down from the row just below the scroll region moves it up
  (`DownMovesDown`).
* In reverse video, bold and normal intensity take the default colour of the wrong side
  (`ReverseIndependent`).
* Negative numbers printed in a base other than ten come back increased by 2^32
  (`RoundTrip`).

## Model

| member | source | states |
|---|---|---|
| `SizeClasses.AdjustCovers` | mm/heapalloc/tlsf.c:492-510 | a request is rounded to a multiple of 8 that covers it, with less than 8 bytes more above the smallest size, exactly when it is at most 2^32 - 8 and not zero; it is refused for zero and for sizes up to 2^64 - 8, and the seven largest sizes wrap to 24 bytes |
| `SizeClasses.AdjustRequestSize` | mm/heapalloc/tlsf.c:492-510 | an adjusted size is zero or a legal block size |
| `SizeClasses.CopyIsWholeBlock` | mm/heapalloc/tlsf.c:1243-1244 | a moving `realloc` copies the whole old block, in whole words |
| `SizeClasses.FlsRange` | mm/heapalloc/tlsf.c:150-176 | the highest set bit brackets the number between two powers of two |
| `SizeClasses.MappingInsertRange` | mm/heapalloc/tlsf.c:513-531 | every size lies in the half-open range of its class |
| `SizeClasses.MappingInsertExact` | mm/heapalloc/tlsf.c:513-531 | a size maps to a class if and only if it lies in that range |
| `SizeClasses.FloorOrdered` | mm/heapalloc/tlsf.c:513-531 | ranges of different classes do not overlap and follow the class order |
| `SizeClasses.SearchFloor` | mm/heapalloc/tlsf.c:533-541 | the class `mapping_search` gives starts no lower than the request and no higher than the rounded-up request |
| `SizeClasses.GoodFit` | mm/heapalloc/tlsf.c:533-573 | a block is at least the request if its class is not below the search class, and smaller than the rounded-up request if it is; the two cases split exactly at the floor of the class |
| `SizeClasses.SearchExact` | mm/heapalloc/tlsf.c:533-573 | the search class is the lowest that always fits: a class is below it if and only if its smallest block is smaller than the request |
| `SizeClasses.CloseFit` | mm/heapalloc/tlsf.c:513-541 | a block of a class whose smallest block is too small is less than a 32nd larger than the request |
| `SizeClasses.ClassInTable` | mm/heapalloc/tlsf.c:513-531 | every block size below 2^32 has a class inside the 25 by 32 table; 2^32 itself has row 25 |
| `Alignment.PaddingCovers` | mm/heapalloc/tlsf.c:1123-1143 | the padded request of an aligned allocation is refused or holds request, alignment and a leading block, and hardly more, for every power of two but 2^63 |
| `Alignment.GapFits` | mm/heapalloc/tlsf.c:1150-1170 | the address after the gap is aligned, a non-zero gap can hold a block, and the padded size always leaves room to split it off and hold the request |
| `Alignment.GapLeast` | mm/heapalloc/tlsf.c:1150-1170 | the address after the gap is the first that is aligned and leaves no gap or one that can hold a block |
| `Alignment.GapTight` | mm/heapalloc/tlsf.c:1123-1170 | from alignment 64 on the bound is reached with equality |
| `Alignment.GapAtLargest` | mm/heapalloc/tlsf.c:1150-1170 | at alignment 2^63 the gap is still a legal block size wherever the block lies, so the heap stays intact |
| `Alignment.AlignedAtLargest` | mm/heapalloc/tlsf.c:1123-1178 | at alignment 2^63 the pointer is aligned if and only if the block found starts at 2^63, or reaches over it with room for a block before and after |
| `Alignment.UnalignedAtLargest` | mm/heapalloc/tlsf.c:1123-1178 | a block away from 2^63 is handed out whole and unaligned, whatever was asked for |
| `Alignment.AlignPlan` | mm/heapalloc/tlsf.c:1146-1175 | the three facts above for every alignment, gap and block that `memalign` can meet |
| `FreeLists.InsertLinked` | mm/heapalloc/tlsf.c:605-623 | pushing a block keeps all links, heads and the index of listed blocks in agreement |
| `FreeLists.RemoveLinked` | mm/heapalloc/tlsf.c:576-602 | so does unlinking one from any position |
| `FreeLists.ListedIsReached` | mm/heapalloc/tlsf.c:576-623 | every listed block is reached from the head of its class |
| `FreeLists.OnExactlyOneList` | mm/heapalloc/tlsf.c:576-640 | a block is on the list of a class if and only if it is listed under that class |
| `FreeLists.NoRepeats` | mm/heapalloc/tlsf.c:605-623 | no list meets a block twice |
| `Bitmaps.SetBits` | mm/heapalloc/tlsf.c:605-623 | after an insertion a bit is set exactly when its list or row is non-empty |
| `Bitmaps.ClearBits` | mm/heapalloc/tlsf.c:576-602 | also after the last block of a list has gone |
| `Bitmaps.KeepBits` | mm/heapalloc/tlsf.c:576-623 | and while a list stays non-empty |
| `Bitmaps.FirstInRow` | mm/heapalloc/tlsf.c:543-573 | the masked lookup in the row finds the first non-empty list at or above the class |
| `Bitmaps.FirstInLaterRow` | mm/heapalloc/tlsf.c:543-573 | otherwise the lookup in the rows above does |
| `Bitmaps.NoneFrom` | mm/heapalloc/tlsf.c:543-573 | if both masks are empty, so is every list at or above the class |
| `Bitmaps.EmptyTable` | mm/heapalloc/tlsf.c:797-815 | a fresh control structure is consistent |
| `HeapLayout.MarkFreePhys` | mm/heapalloc/tlsf.c:453-459 | marking the block in hand free puts both boundary tags and the back link right |
| `HeapLayout.MarkUsedPhys` | mm/heapalloc/tlsf.c:461-466 | marking it used does so too |
| `HeapLayout.AbsorbPhys` | mm/heapalloc/tlsf.c:669-676 | merging keeps the pool tiled and every header in agreement |
| `HeapLayout.SplitPhys` | mm/heapalloc/tlsf.c:647-666 | splitting keeps the pool tiled, and no two neighbours become free unless one is in hand |
| `HeapSteps.AbsorbStep` | mm/heapalloc/tlsf.c:669-707 | a merge keeps lists, classes and every live word |
| `HeapSteps.MarkFreeStep` | mm/heapalloc/tlsf.c:453-459 | so does marking free |
| `HeapSteps.MarkUsedStep` | mm/heapalloc/tlsf.c:461-466 | so does marking used |
| `HeapSteps.SplitStep` | mm/heapalloc/tlsf.c:647-735 | so does a split, whichever part stays in hand |
| `HeapSteps.NothingFits` | mm/heapalloc/tlsf.c:753-781 | with no list at or above the search class every free block is of a class that starts below the request |
| `HeapSteps.LowestFits` | mm/heapalloc/tlsf.c:543-573 | the class found is the lowest one with a free block that always fits |
| `HeapSteps.NoneFitsMeans` | mm/heapalloc/tlsf.c:753-781 | in numbers: no free block is as much as a 32nd larger than the request |
| `HeapSteps.UserWrite` | mm/heapalloc/tlsf.c:325-332 | a live block may be written throughout, its last word included, although that word is part of the next header |
| `HeapSteps.ClientView` | mm/heapalloc/tlsf.c:437-466 | what keeping words and sizes means for clients: every other allocation keeps its place, size and contents |
| `HeapSteps.MoveStep` | mm/heapalloc/tlsf.c:1240-1244 | copying into a new block changes no live word |
| `HeapSteps.ReleaseAfterMove` | mm/heapalloc/tlsf.c:1240-1246 | the copy survives the release of the old block |
| `Tlsf.Heap.RemoveFreeBlock` | mm/heapalloc/tlsf.c:576-602 | unlinks a block and updates heads and bitmaps together |
| `Tlsf.Heap.InsertFreeBlock` | mm/heapalloc/tlsf.c:605-623 | links a block at the head of its list and sets both bits |
| `Tlsf.Heap.BlockRemove` | mm/heapalloc/tlsf.c:626-631 | finds the list from the size |
| `Tlsf.Heap.BlockInsert` | mm/heapalloc/tlsf.c:634-639 | puts a block on the list of its size |
| `Tlsf.Heap.BlockMarkAsFree` | mm/heapalloc/tlsf.c:453-459 | writes the two tags and the back link, and nothing else |
| `Tlsf.Heap.BlockMarkAsUsed` | mm/heapalloc/tlsf.c:461-466 | clears the two tags, and nothing else |
| `Tlsf.Heap.BlockAbsorb` | mm/heapalloc/tlsf.c:669-676 | writes the merged size and the next back link |
| `Tlsf.Heap.BlockSplit` | mm/heapalloc/tlsf.c:647-666 | writes the two headers of a split |
| `Tlsf.Heap.BlockMergePrev` | mm/heapalloc/tlsf.c:679-691 | merges with a free predecessor, which leaves its list |
| `Tlsf.Heap.BlockMergeNext` | mm/heapalloc/tlsf.c:694-707 | merges with a free successor, which leaves its list |
| `Tlsf.Heap.BlockTrimFree` | mm/heapalloc/tlsf.c:710-720 | cuts a block to between the size asked for and 32 bytes more |
| `Tlsf.Heap.BlockTrimUsed` | mm/heapalloc/tlsf.c:723-734 | does so for a used block, merging the rest with what follows |
| `Tlsf.Heap.BlockTrimFreeLeading` | mm/heapalloc/tlsf.c:737-751 | splits off the gap before an aligned address and lists it |
| `Tlsf.Heap.SearchSuitableBlock` | mm/heapalloc/tlsf.c:543-573 | finds the head of the first non-empty list at or above the class, or reports that there is none |
| `Tlsf.Heap.BlockLocateFree` | mm/heapalloc/tlsf.c:753-781 | takes a free block off its list that holds the request and is of the lowest class that does, or finds that every free block is of a class that starts below the request |
| `Tlsf.Heap.BlockPrepareUsed` | mm/heapalloc/tlsf.c:783-794 | trims and marks it, keeping every other allocation |
| `Tlsf.Heap.Malloc` | mm/heapalloc/tlsf.c:1115-1121 | returns a live block of at least the adjusted request and less than 32 bytes more, and null if and only if the request is refused or every free block is of a class that starts below it, so that none is as much as a 32nd larger; on null nothing changes; no other allocation changes |
| `Tlsf.Heap.Memalign` | mm/heapalloc/tlsf.c:1123-1178 | returns null, with nothing changed, if and only if the padded request is refused or every free block is of a class that starts below it, so that none is as much as a 32nd larger; otherwise the block is carved from a free one as `Carved` says, at every alignment, and is aligned and holds the request at every alignment but 2^63; no other allocation changes |
| `Tlsf.Heap.Free` | mm/heapalloc/tlsf.c:1180-1193 | only the freed block stops being live; the others keep place, size and contents |
| `Tlsf.Heap.ReleaseBlock` | mm/heapalloc/tlsf.c:1186-1191 | the freed block is merged both ways and listed |
| `Tlsf.Heap.GrowIntoNext` | mm/heapalloc/tlsf.c:1250-1255 | takes over the following free block without touching live words |
| `Tlsf.Heap.ResizeInPlace` | mm/heapalloc/tlsf.c:1248-1260 | grows or trims in place |
| `Tlsf.Heap.CopyBlock` | mm/heapalloc/tlsf.c:1243-1244 | copies the whole old block |
| `Tlsf.Heap.ResizeByMoving` | mm/heapalloc/tlsf.c:1238-1247 | allocates, copies and frees, or changes nothing |
| `Tlsf.Heap.Realloc` | mm/heapalloc/tlsf.c:1208-1264 | keeps the first min(old, new) bytes; fails, with block and heap unchanged, if and only if the block and what follows it are too small and every free block is of a class that starts below the request; null and zero cases as in C; a non-zero request that adjusts to zero gives the block back, unchanged if it has 24 bytes and with a zero size word otherwise, and leaves the words of all other allocations |
| `Tlsf.Heap.TrimToNothing` | mm/heapalloc/tlsf.c:723-734 | trimming a used block to zero bytes: after the split, the merge with what follows and the insertion the block has a zero size word, and every other allocation its words |
| `Tlsf.Heap.AddPool` | mm/heapalloc/tlsf.c:980-1027 | makes the pool one free block in front of a sentinel |
| `Tlsf.Heap.constructor` | mm/heapalloc/tlsf.c:1076-1102 | the initial heap satisfies the invariant |
| `Tlsf.Heap.BlockSizeOf` | mm/heapalloc/tlsf.c:921-930 | is the size of a live block, and zero for null |
| `Tlsf.Heap.CheckPool` | mm/heapalloc/tlsf.c:932-939 | returns 0 in every valid state |
| `Tlsf.Heap.CheckBlock` | mm/heapalloc/tlsf.c:844-894 | finds no fault in any listed block |
| `Tlsf.Heap.CheckList` | mm/heapalloc/tlsf.c:844-894 | nor in any list |
| `Tlsf.Heap.Check` | mm/heapalloc/tlsf.c:844-894 | returns 0 in every valid state |
| `HeapTheorems.WalkMeets` | mm/heapalloc/tlsf.c:904-919 | walking the pool meets exactly its blocks |
| `HeapTheorems.Conservation` | mm/heapalloc/tlsf.c:980-1027 | in every state block sizes and headers add up to the pool |
| `HeapTheorems.FullyCoalesced` | mm/heapalloc/tlsf.c:1180-1193 | with nothing allocated the pool is one free block of its original size |
| `HeapTheorems.LayoutUnique` | mm/heapalloc/tlsf.c:679-707 | whatever happened before, heaps with the same live blocks have the same blocks, free ones included |
| `HeapTheorems.FreeBlocksListed` | mm/heapalloc/tlsf.c:576-640 | a block is on the list of a class if and only if it is free and of that class |
| `HeapTheorems.PoolCheck` | mm/heapalloc/tlsf.c:985-1007 | exactly which pool sizes the range check accepts, and that it accepts one too many |
| `HeapTheorems.ReallocRefused` | mm/heapalloc/tlsf.c:1230-1259 | that block is smaller than the request, and no layout with it in, whatever its sizes and tags, accounts for a memory in which it has that word |
| `Session.MirrorAlloc` | mm/heapalloc/tlsf.c:1115-1178 | a client that remembers what it stored stays in step with the heap over an allocation |
| `Session.MirrorFree` | mm/heapalloc/tlsf.c:1180-1193 | over a release |
| `Session.MirrorMove` | mm/heapalloc/tlsf.c:1208-1264 | over a move |
| `Session.MirrorRealloc` | mm/heapalloc/tlsf.c:1208-1264 | over any reallocation |
| `Session.Client.Step` | mm/heapalloc/tlsf.c:1115-1264 | one call or store: refused exactly when `RefusedIn` says, and then nothing changes; otherwise one area is added, dropped, resized or stored to and all others keep place, size and words |
| `Session.Client.Run` | mm/heapalloc/tlsf.c:1115-1264 | any run of allocations, aligned allocations, reallocations, releases and stores: the heap stays valid; at every moment its used blocks are the areas held, and the next operation is carried out unless it is refused; memory holds what the client should find, and the blocks account for every byte of the pool |
| `Session.PictureUnique` | mm/heapalloc/tlsf.c:1115-1264 | what a client holds determines the blocks of the heap, and so alone decides what is refused |
| `Session.StepKeeps` | mm/heapalloc/tlsf.c:1115-1264 | an operation leaves every word it does not touch |
| `Session.ResizeKeeps` | mm/heapalloc/tlsf.c:1208-1264 | a resize keeps every word that fits |
| `Session.RunKeeps` | mm/heapalloc/tlsf.c:1115-1264 | over any run a word keeps its value from one operation that touches it to the next |
| `Session.LastStoredIsFound` | mm/heapalloc/tlsf.c:1115-1264 | so what a store put into an area is found there until that word is stored to or its area resized or freed |
| `Session.Client.FreeEverything` | mm/heapalloc/tlsf.c:1180-1193 | freeing everything, whatever happened before, leaves the initial single block |
| `Session.LargestAlignment` | mm/heapalloc/tlsf.c:1123-1178 | on every fresh pool away from address 2^63 a request at alignment 2^63 that is larger than the pool is granted, with a block too small and not aligned |
| `PageTables.Index` | mm/includes/vmm.h:63-66 | the four index macros stay below 512 |
| `PageTables.SamePage` | mm/includes/vmm.h:63-66 | two addresses agree on all four indices if and only if they are on the same page |
| `PageTables.Digits` | mm/includes/vmm.h:63-66 | a page number is its four indices read as digits, nine bits each, the lowest table last |
| `PageTables.PageIndices` | mm/includes/vmm.h:63-66 | and every four indices are those of the page so numbered |
| `PageTables.AddTable` | mm/vmm.c:90-112 | linking a zeroed frame keeps the tables an unshared tree and changes no walk |
| `PageTables.LeafWrite` | mm/vmm.c:114-114 | writing one leaf changes the walk of that page and of no other |
| `PageTables.LeafRemaps` | mm/vmm.c:114-131 | the same with tables added before |
| `PageTables.ChainPop` | mm/pmm.c:97-105 | popping keeps the chain inside the free frames |
| `PageTables.ChainPush` | mm/pmm.c:107-116 | pushing does too |
| `PageTables.ChainFrame` | mm/vmm.c:78-82 | clearing a frame outside the chain leaves it alone |
| `PageTables.MissingAtMost` | mm/vmm.c:84-112 | at most three tables are ever missing |
| `PageTables.MapThenUnmap` | mm/vmm.c:84-134 | mapping an unmapped page and unmapping it again changes no walk |
| `PageTables.OverrideMore` | mm/vmm.c:84-134 | runs of maps and unmaps compose page by page |
| `VirtualMemory.WholeFrames` | mm/pmm.c:78-81 | the aligned bounds hold exactly the frames that lie wholly inside a region |
| `VirtualMemory.Memory.constructor` | mm/vmm.c:63-76 | taking over an unshared tree of tables establishes the invariant, with no frame free yet |
| `VirtualMemory.Memory.AddRegion` | mm/pmm.c:72-91 | adds exactly the whole frames of a usable region |
| `VirtualMemory.Memory.PmmInit` | mm/pmm.c:63-95 | the free list holds every whole frame of the usable regions once, and both counters say how many |
| `VirtualMemory.Memory.Palloc` | mm/pmm.c:97-105 | hands out a free frame and counts it, or zero when there is none |
| `VirtualMemory.Memory.Pfree` | mm/pmm.c:107-116 | takes a client frame back |
| `VirtualMemory.Memory.AllocTable` | mm/vmm.c:78-82 | takes the first free frame, or frame 0 if there is none, and clears it; no walk changes unless that frame was a table |
| `VirtualMemory.Memory.NextTable` | mm/vmm.c:90-112 | follows or creates one level, whatever frames there are; if the frame is no table yet no walk changes and one level fewer is missing |
| `VirtualMemory.Memory.ReachLeaf` | mm/vmm.c:85-112 | all three levels step by step, taking one free frame per missing level; with enough frames, or one too few, the tables stay a tree and no walk changes |
| `VirtualMemory.Memory.MapPage` | mm/vmm.c:84-117 | with enough frames, or frame 0 for the last, the page maps to the frame with the flags and the present bit, and allows exactly what both the flags and the tables that were already there allow; every other page maps as before through the same four entries; the frames stay partitioned into free, table and client frames, and exactly the missing levels are taken from the free list; in general it maps exactly one page if and only if `MapsOne` holds before the call |
| `VirtualMemory.LeafBits` | mm/vmm.c:114-114 | the leaf bit by bit: the frame, the present bit, and every other flag as given |
| `FrameZero.MapRights` | mm/vmm.c:88-114 | the conjunction of the write, user and execute rights over the four entries is that of the flags and of the tables that were there: a table made by the call takes nothing away |
| `VirtualMemory.FreshRights` | mm/vmm.c:88-114 | with no table there before, the page allows what its flags say |
| `VirtualMemory.OldRights` | mm/vmm.c:90-112 | with all three there before, a right is granted only if each of them carries it: the user bit of old tables is not updated |
| `VirtualMemory.OtherRights` | mm/vmm.c:84-131 | mapping or unmapping a page changes no right of another |
| `FrameZero.StarvedTwo` | mm/vmm.c:78-114 | with two frames too few, frame 0 becomes two tables at once and another page, unmapped before, is mapped onto it |
| `FrameZero.StarvedThree` | mm/vmm.c:78-114 | with three too few it becomes three tables, with the same result for yet another page |
| `FrameZero.AliasReads` | mm/vmm.c:78-114 | frame 0 as leaf table of a second region: the pages of the first lose their entries, and the one at the same index reads the new one |
| `FrameZero.SharedOnly` | mm/vmm.c:78-114 | with one frame too few and frame 0 a leaf table already, one page is mapped only if frame 0 held that very entry and no other |
| `FrameZero.SharedMaps` | mm/vmm.c:78-114 | and it is if it did |
| `FrameZero.StarvedMap` | mm/vmm.c:84-114 | the cases together: a call short of frames maps exactly one page if and only if `MapsOne` says so |
| `VirtualMemory.Memory.UnmapPage` | mm/vmm.c:119-134 | the page is then unmapped and every other page maps as before |
| `VirtualMemory.Memory.CountMissing` | mm/vmm.c:84-112 | the number of tables `map_page` would have to make |
| `VirtualMemory.Memory.Step` | mm/vmm.c:84-134 | a map, unmap, allocation or release by a client: whether it is made, where every frame goes, and what each page then maps to |
| `VirtualMemory.Memory.RunPages` | mm/vmm.c:84-134 | any run of maps, unmaps, allocations and releases, moment by moment: which calls are made, where every frame goes, what every page reads; on the walks it acts like an update of a plain page map |
| `VirtualMemory.RunEffect` | mm/vmm.c:84-134 | every prefix of a run acts on the walks like that update |
| `VirtualMemory.AllMade` | mm/vmm.c:84-134 | with three free frames for every call of a run each map, unmap and allocation is made |
| `UndoLog.RecordedAgrees` | boot/limine.c:439-488 | outside the logged ranges the current image is the original |
| `UndoLog.UndoLast` | boot/limine.c:490-520 | undoing the last write turns an image that is right outside the log into one that is right outside the shorter log |
| `UndoLog.Rollback` | boot/limine.c:318-324 | replaying the log backwards restores the original from any image that differs from it only in logged bytes |
| `UndoLog.RecordWrite` | boot/limine.c:447-486 | one more write is one more entry |
| `BlockDevice.LoggedSame` | boot/limine.c:417-437 | reading, with whatever it evicts, keeps the device within what the log can undo |
| `BlockDevice.LoggedMore` | boot/limine.c:439-488 | so does a write whose replaced bytes were saved first |
| `BlockDevice.Device.constructor` | boot/limine.c:223-252 | the device starts equal to its image, with an empty log |
| `BlockDevice.Device.FlushCache` | boot/limine.c:256-275 | afterwards the device equals the image |
| `BlockDevice.Device.CacheBlock` | boot/limine.c:277-302 | caching a block never changes the image, and leaves the device as it was or equal to it |
| `BlockDevice.Device.ReadChunk` | boot/limine.c:421-433 | one chunk of a read |
| `BlockDevice.Device.Read` | boot/limine.c:417-437 | reads like a flat array across blocks |
| `BlockDevice.Device.WriteChunk` | boot/limine.c:465-481 | one chunk of a write |
| `BlockDevice.Device.WriteThrough` | boot/limine.c:462-482 | writes like a flat array; bytes outside the range reach the device only as image bytes |
| `BlockDevice.Device.Write` | boot/limine.c:439-488 | saves the replaced bytes and writes like a flat array; refused, with nothing changed, once 256 entries are used |
| `BlockDevice.Device.ReverseLog` | boot/limine.c:318-324 | reverses the log |
| `BlockDevice.Device.ReplayAll` | boot/limine.c:501-519 | writes the entries in order |
| `BlockDevice.Device.Uninstall` | boot/limine.c:490-540 | drops the cache and leaves the device equal to the replayed log |
| `BlockDevice.Device.UndoInstall` | boot/limine.c:1126-1131 | leaves the device byte for byte as it was, after any completed writes, any evictions and with a dirty cache |
| `LogFile.WordValue` | boot/limine.c:343-352 | a 64-bit number survives being written as eight bytes |
| `LogFile.EntryLayout` | boot/limine.c:347-357 | an entry holds its place in bytes 0 to 7, least significant first, its length in bytes 8 to 15 and its data from byte 16 on |
| `LogFile.FileLayout` | boot/limine.c:343-357 | the file holds the number of entries in its first eight bytes, and then each entry right after the one before it |
| `LogFile.ParseOfFile` | boot/limine.c:335-415 | a stored log loads back in order if and only if none of its entries is empty |
| `LogFile.FileOfParse` | boot/limine.c:376-415 | whatever loads is what the file holds: storing it again gives the bytes that were read |
| `LogFile.Store` | boot/limine.c:335-374 | succeeds if and only if no entry is empty, and then writes the whole log |
| `LogFile.Load` | boot/limine.c:376-415 | reads what the file holds, or fails |
| `Installer.Step` | boot/limine.c:417-488 | a read, a write or a flush answers and acts like a flat array with a log |
| `Installer.Run` | boot/limine.c:417-488 | so does any run of them |
| `Installer.UninstallFrom` | boot/limine.c:708-724 | uninstalling from a file replays the loaded log, or changes nothing if loading fails |
| `Installer.StoredLogRestores` | boot/limine.c:1126-1134 | a stored, reversed log restores the original without a second reversal |
| `Installer.Finish` | boot/limine.c:1126-1134 | the stored file restores the original from what has reached the device |
| `Installer.FailedInstall` | boot/limine.c:1126-1131 | an install that fails after any run leaves no trace |
| `Installer.InstallThenUninstall` | boot/limine.c:708-724 | install, store, load later and uninstall restores the original; storing fails exactly when a write was empty |
| `Pixels.GeometryFits` | kernel/terminal/src/flanterm_backends/fb.c:1275-1282 | the computed columns, rows and offsets keep every cell inside the margins, with as many cells as fit and the text in the middle |
| `Pixels.PixelInRange` | kernel/terminal/src/flanterm_backends/fb.c:998-1023 | the coordinate map stays inside the frame buffer |
| `Pixels.PixelInjective` | kernel/terminal/src/flanterm_backends/fb.c:998-1023 | no two screen positions share a pixel, in any rotation |
| `Pixels.PixelSurjective` | kernel/terminal/src/flanterm_backends/fb.c:998-1023 | and every visible pixel is some position's |
| `Pixels.Upright` | kernel/terminal/src/flanterm_backends/fb.c:492-496 | unrotated, line and column of the screen are line and column of the frame buffer |
| `Pixels.QuarterTurn` | kernel/terminal/src/flanterm_backends/fb.c:490-512 | each rotation is the one before it followed by a quarter turn clockwise |
| `Pixels.FirstCorner` | kernel/terminal/src/flanterm_backends/fb.c:490-512 | the first position is in the corner of the frame buffer that belongs to the rotation |
| `Pixels.NeverMirrored` | kernel/terminal/src/flanterm_backends/fb.c:490-512 | one step right and one step down turn the same way in all four rotations |
| `Pixels.Strides` | kernel/terminal/src/flanterm_backends/fb.c:490-512 | the moving pointers of `plot_char` follow the coordinate map |
| `Pixels.RectOnScreen` | kernel/terminal/src/flanterm_backends/fb.c:478-483 | the rectangle of a cell lies on the screen |
| `Pixels.CellOfRect` | kernel/terminal/src/flanterm_backends/fb.c:478-483 | a position is in a cell's rectangle if and only if dividing by the glyph size says so |
| `Pixels.RectsDisjoint` | kernel/terminal/src/flanterm_backends/fb.c:475-702 | rectangles of different cells share no pixel of the frame buffer |
| `Framebuffers.InkHere` | kernel/terminal/src/flanterm_backends/fb.c:514-531 | the colour the plotting loops compute is the one the picture calls for |
| `Framebuffers.DotPlace` | kernel/terminal/src/flanterm_backends/fb.c:514-531 | the font keeps a dot at character times height plus row, times width, plus column |
| `Framebuffers.DotsInOrder` | kernel/terminal/src/flanterm_backends/fb.c:514-531 | different characters, rows and columns read different dots, in the order of the font |
| `Framebuffers.PaperPlace` | kernel/terminal/src/flanterm_backends/fb.c:998-1023 | the canvas is read line by line |
| `Framebuffers.CellPixels` | kernel/terminal/src/flanterm_backends/fb.c:475-702 | every pixel of a cell, by cell, dot and place in the scaled dot: foreground where the font has a dot, background elsewhere, and what lies behind where that is transparent |
| `Framebuffers.PlotPaints` | kernel/terminal/src/flanterm_backends/fb.c:475-702 | drawing a cell's rectangle changes what that cell shows and nothing else |
| `Framebuffers.Framebuffer.PutDot` | kernel/terminal/src/flanterm_backends/fb.c:523-525 | a transparent colour shows the canvas or the default background |
| `Framebuffers.Framebuffer.PlotLine` | kernel/terminal/src/flanterm_backends/fb.c:515-531 | draws one line of a scaled glyph and nothing else |
| `Framebuffers.Framebuffer.PlotLineUnscaled` | kernel/terminal/src/flanterm_backends/fb.c:634-645 | draws one line of an unscaled glyph and nothing else |
| `Framebuffers.Framebuffer.PlotGlyph` | kernel/terminal/src/flanterm_backends/fb.c:475-702 | draws exactly the rectangle of the cell; padding and all other pixels stay |
| `Framebuffers.Framebuffer.PlotChar` | kernel/terminal/src/flanterm_backends/fb.c:475-702 | the cell then shows the character, all others what they did; positions off the screen are ignored |
| `Framebuffers.Framebuffer.PaintBackground` | kernel/terminal/src/flanterm_backends/fb.c:996-1023 | every visible pixel shows the canvas or the default background |
| `TextView.ScrolledRow` | kernel/terminal/src/flanterm_backends/fb.c:760-783 | scrolling moves exactly the rows of the region up by one and blanks the last |
| `TextView.ScrolledDownRow` | kernel/terminal/src/flanterm_backends/fb.c:732-758 | reverse scrolling moves them down and blanks the first |
| `TextView.UpThenDown` | kernel/terminal/src/flanterm_backends/fb.c:732-783 | one after the other restores everything but the first row |
| `TextView.ScrolledRows` | kernel/terminal/src/flanterm.c:656-662 | scrolling `n` times shifts by `n` rows and blanks `n` |
| `TextView.ScrolledDownRows` | kernel/terminal/src/flanterm.c:663-672 | the same downwards |
| `TextView.ScrolledBelow` | kernel/terminal/src/flanterm_backends/fb.c:732-758 | from below the scroll region reverse scrolling only blanks the row it starts from |
| `TextView.PrintsHere` | kernel/terminal/src/flanterm_backends/fb.c:971-991 | on a line with room a character is put at the cursor in the current colours, the cursor moves on by one, and no other cell changes |
| `TextView.PrintsOnNextLine` | kernel/terminal/src/flanterm_backends/fb.c:974-990 | on a full line it starts the next one, after scrolling at the bottom margin |
| `TextView.ClearBlanks` | kernel/terminal/src/flanterm_backends/fb.c:785-800 | clearing leaves spaces in the current colours everywhere |
| `TextView.CursorKeptOnScreen` | kernel/terminal/src/flanterm_backends/fb.c:974-984 | printing keeps the cursor row on the screen except in exactly one situation, caused by limiting it by the number of columns |
| `TextView.CursorLeavesScreen` | kernel/terminal/src/flanterm_backends/fb.c:981-983 | such a situation exists, with a scroll region of two rows |
| `DrawQueue.ItemsDistinct` | kernel/terminal/src/flanterm_backends/fb.c:708-730 | no two queue items name the same cell |
| `DrawQueue.QueueRoom` | kernel/terminal/src/flanterm_backends/fb.c:719-727 | so the queue never overflows: there is always room for a cell that is not queued |
| `DrawQueue.PushSame` | kernel/terminal/src/flanterm_backends/fb.c:719-722 | skipping an unchanged cell leaves the text as if it had been written |
| `DrawQueue.PushNew` | kernel/terminal/src/flanterm_backends/fb.c:723-729 | queueing a new cell keeps queue, map and grid in agreement |
| `DrawQueue.PushOld` | kernel/terminal/src/flanterm_backends/fb.c:729-729 | so does overwriting a queued one |
| `DrawQueue.FlushCursor` | kernel/terminal/src/flanterm_backends/fb.c:911-935 | drawing the cursor settles its cell ahead of its queue item |
| `DrawQueue.FlushOne` | kernel/terminal/src/flanterm_backends/fb.c:944-953 | flushing an item settles its cell |
| `DrawQueue.FlushEnd` | kernel/terminal/src/flanterm_backends/fb.c:944-953 | afterwards the grid is the text |
| `Screens.OldCursorRestored` | kernel/terminal/src/flanterm_backends/fb.c:955-959 | redrawing the cell the cursor has left completes the display |
| `Screens.Screen.constructor` | kernel/terminal/src/flanterm_backends/fb.c:1284-1360 | a new screen is blank and on display |
| `Screens.Screen.PushToQueue` | kernel/terminal/src/flanterm_backends/fb.c:708-730 | replaces one cell of the logical text |
| `Screens.Screen.CellAt` | kernel/terminal/src/flanterm_backends/fb.c:740-746 | reads the logical text |
| `Screens.Screen.MoveRowsUp` | kernel/terminal/src/flanterm_backends/fb.c:763-773 | moves rows in place over the mixed queue and grid |
| `Screens.Screen.MoveRowsDown` | kernel/terminal/src/flanterm_backends/fb.c:735-748 | moves rows down from the end, with the index wrapping below zero at the top of the screen |
| `Screens.Screen.Scroll` | kernel/terminal/src/flanterm_backends/fb.c:760-783 | acts as `ScrollUp` on the plain text |
| `Screens.Screen.RevScroll` | kernel/terminal/src/flanterm_backends/fb.c:732-758 | acts as `ScrollDown` on the plain text |
| `Screens.Screen.ClearScreen` | kernel/terminal/src/flanterm_backends/fb.c:785-800 | blanks every cell |
| `Screens.Screen.SetCursorPos` | kernel/terminal/src/flanterm_backends/fb.c:802-821 | puts the cursor on the screen, with coordinates below zero taken as zero |
| `Screens.Screen.GetCursorPos` | kernel/terminal/src/flanterm_backends/fb.c:823-828 | a position on the screen, and the cursor's own if that is |
| `Screens.Screen.MoveCharacter` | kernel/terminal/src/flanterm_backends/fb.c:830-849 | copies one cell, ignoring positions off the screen |
| `Screens.Screen.RawPutchar` | kernel/terminal/src/flanterm_backends/fb.c:971-991 | prints one character, wrapping and scrolling as the plain text screen does |
| `Screens.Screen.InsertLines` | kernel/terminal/src/flanterm.c:663-672 | scrolls down the region from a row on, also when that row is below the region |
| `Screens.Screen.DrawCursor` | kernel/terminal/src/flanterm_backends/fb.c:911-935 | shows the cursor's cell with foreground and background exchanged and settles it |
| `Screens.Screen.FlushQueue` | kernel/terminal/src/flanterm_backends/fb.c:944-953 | plots every queued cell that is not yet settled |
| `Screens.Screen.DoubleBufferFlush` | kernel/terminal/src/flanterm_backends/fb.c:937-969 | afterwards every cell on display is the text, except that the cursor's cell shows the character in its background colour on its foreground colour exactly when the cursor is enabled and on the screen |
| `Screens.DisplayPixels` | kernel/terminal/src/flanterm_backends/fb.c:911-969 | pixel by pixel: where the font has a dot the foreground of the text and elsewhere its background, and the other way round in the cursor's cell |
| `Screens.Screen.FullRefresh` | kernel/terminal/src/flanterm_backends/fb.c:993-1039 | redraws the same display, right after a flush or at the start |
| `RowEdits.InsertStep` | kernel/terminal/src/flanterm.c:728-735 | one step of the insert loop |
| `RowEdits.MoveLeftStep` | kernel/terminal/src/flanterm.c:739-740 | one step of the delete loop |
| `RowEdits.InsertThenDelete` | kernel/terminal/src/flanterm.c:727-749 | deleting what was inserted restores every cell but the last `n`, which are blank |
| `RowEdits.InsertZero` | kernel/terminal/src/flanterm.c:727-737 | inserting no characters wipes out the rest of the line: it is kept if and only if it was blank |
| `RowEdits.DeleteKeepsLeft` | kernel/terminal/src/flanterm.c:738-749 | deletion leaves the characters before the cursor alone if and only if it asks for no more than follow it, or those it reaches are blank |
| `ScreenEdits.InsertBlanks` | kernel/terminal/src/flanterm.c:727-737 | shifts the rest of the line right by `n` and blanks `n` cells, for every `n` from 1; nothing else changes |
| `ScreenEdits.DeleteChars` | kernel/terminal/src/flanterm.c:738-749 | shifts the rest of the line left by `n` and blanks the last `n` cells; for more than a line the start position wraps around |
| `ScreenEdits.DeletedMore` | kernel/terminal/src/flanterm.c:738-749 | then the whole line is blanked up to 2^31 characters more than a line, and beyond that its last cell and most of the next line |
| `ScreenEdits.EraseChars` | kernel/terminal/src/flanterm.c:743-749 | prints at most a line of spaces from the cursor on and puts the cursor back |
| `ScreenEdits.MakeRoom` | kernel/terminal/src/flanterm.c:1368-1375 | moves the rest of the line right by one |
| `ScreenEdits.DeleteLines` | kernel/terminal/src/flanterm.c:656-662 | scrolls up `n` times |
| `ScreenEdits.EraseInLine` | kernel/terminal/src/flanterm.c:759-781 | the effect of each mode on the plain screen |
| `ScreenEdits.EraseInDisplay` | kernel/terminal/src/flanterm.c:692-726 | the effect of each mode on the plain screen, the loops of mode 1 included |
| `Erasing.SpacesSpill` | kernel/terminal/src/flanterm_backends/fb.c:974-990 | spaces that do not fit on the line blank its rest and go on at the start of the next row, or are lost below the scroll region |
| `Erasing.CharsErasedMeans` | kernel/terminal/src/flanterm.c:743-749 | erasing characters blanks `n` cells from the cursor if they fit on the line, and the rest of it and the start of the next otherwise |
| `Erasing.LineErasedMeans` | kernel/terminal/src/flanterm.c:759-781 | each mode blanks the part of the line it names, except mode 0 from past the last column |
| `Erasing.DisplayErasedMeans` | kernel/terminal/src/flanterm.c:692-721 | modes 0 and 1 blank the cells below and above the cursor that printing can reach, for every scroll region and also from past the last column |
| `Erasing.WholeErased` | kernel/terminal/src/flanterm.c:721-725 | modes 2 and 3 blank every cell and leave the cursor, and a mode beyond does nothing |
| `Erasing.SpacesBelow` | kernel/terminal/src/flanterm.c:694-703 | enough spaces from the cursor on blank the rest of the line and the rows after it in the scroll region, where the row is limited by the number of columns; any more change nothing |
| `Erasing.SpacesAbove` | kernel/terminal/src/flanterm.c:704-721 | rows of spaces up to the cursor |
| `Erasing.BelowIsRest` | kernel/terminal/src/flanterm.c:694-703 | mode 0 reaches every row after the cursor's if and only if the cursor is on the last row, or the scroll region ends with the screen and the screen is not higher than wide |
| `Erasing.AboveIsStart` | kernel/terminal/src/flanterm.c:704-721 | mode 1 reaches exactly the cells up to the cursor if and only if its row is above the end of the scroll region and less than the number of columns |
| `Rendering.ReverseIndependent` | kernel/terminal/src/flanterm.c:154-342 | ink and paper come out the same in reverse video, except exactly when a code makes a default colour bold or plain |
| `Rendering.ResetForgets` | kernel/terminal/src/flanterm.c:139-152 | what precedes a reset code has no effect on the colours |
| `Rendering.ReverseOnOff` | kernel/terminal/src/flanterm.c:328-342 | switching reverse video on and off restores the rendition if and only if it was off |
| `Rendering.RgbBytes` | kernel/terminal/src/flanterm.c:352-368 | components below 256 make a colour of three bytes, red first |
| `Rendering.CodesInOrder` | kernel/terminal/src/flanterm.c:136-397 | codes act one after the other |
| `Commands.DownMovesDown` | kernel/terminal/src/flanterm.c:593-612 | moving down never moves up, except from the row just below the scroll region |
| `Commands.CursorStaysOn` | kernel/terminal/src/flanterm.c:574-655 | every cursor command leaves the text alone and the cursor on the screen |
| `Commands.MovesBy` | kernel/terminal/src/flanterm.c:574-623 | up, down, right and left: which coordinate changes, which way and how far; a movement falls short only at the edge of the screen or a margin of the scroll region |
| `Commands.MovesAlike` | kernel/terminal/src/flanterm.c:574-646 | the commands that do the same under another name, and those that also return to the first column |
| `Commands.RightThenLeft` | kernel/terminal/src/flanterm.c:613-623 | right and left by the same distance, in either order, return if and only if there is room, or from the column the cursor is stopped at |
| `Commands.DownThenUp` | kernel/terminal/src/flanterm.c:574-612 | down and up by the same distance, in either order, return inside the scroll region |
| `Commands.MovesTo` | kernel/terminal/src/flanterm.c:629-654 | absolute positions count from one; a column or row of zero alone means the last |
| `Commands.RegionAdopted` | kernel/terminal/src/flanterm.c:782-804 | a region of given rows is adopted if and only if it is at least two rows inside the screen, and otherwise the whole screen is |
| `Commands.LinesEdited` | kernel/terminal/src/flanterm.c:656-672 | deleting lines moves the whole scroll region up, and inserting them moves its rows from the cursor's down; below the region inserting blanks the cursor's row |
| `Parsing.RuneStepOk` | kernel/terminal/src/flanterm.c:1258-1268 | a character part-way through keeps room for its remaining bytes |
| `Commands.InsertDeleteRestores` | kernel/terminal/src/flanterm.c:727-749 | insert and delete commands at one cursor restore the screen |
| `Parsing.TextOnLine` | kernel/terminal/src/flanterm_backends/fb.c:971-991 | text that fits on the line moves the cursor along it and changes no margin |
| `Terminals.Terminal.constructor` | kernel/terminal/src/flanterm.c:85-116 | a new terminal is in order and at rest |
| `Terminals.Terminal.Sgr` | kernel/terminal/src/flanterm.c:130-397 | ink and paper change as the codes say, one after the other; no parameter, palette or table index is out of range; nothing but the rendition changes |
| `Terminals.Terminal.SgrPlain` | kernel/terminal/src/flanterm.c:139-342 | each code acts on ink and paper, whichever of the two is displayed in front |
| `Terminals.Terminal.SgrExtended` | kernel/terminal/src/flanterm.c:344-393 | an extended colour goes to the displayed foreground or background; never reads past the parameters that were given |
| `Terminals.Terminal.Reinit` | kernel/terminal/src/flanterm.c:85-116 | puts parser, pen, margins and modes back to their start and leaves text, cursor and colours |
| `Terminals.Terminal.OscParse` | kernel/terminal/src/flanterm.c:469-500 | a string ends at BEL or ESC backslash, goes on at any other byte, and hands any other byte after ESC back |
| `Terminals.Terminal.DecPrivateParse` | kernel/terminal/src/flanterm.c:399-431 | ends private mode; only mode 25 shows or hides the cursor |
| `Terminals.Terminal.ModeToggle` | kernel/terminal/src/flanterm.c:443-467 | only mode 4 switches insert mode |
| `Terminals.Terminal.MoveUp` | kernel/terminal/src/flanterm.c:574-592 | moves up, stopping at the top margin from inside the region |
| `Terminals.Terminal.MoveDown` | kernel/terminal/src/flanterm.c:593-612 | moves down, stopping above the bottom margin |
| `Terminals.Terminal.MoveCommand` | kernel/terminal/src/flanterm.c:574-623 | relative cursor movement, limited to the screen and the margins |
| `Terminals.Terminal.SetMargins` | kernel/terminal/src/flanterm.c:782-804 | adopts the region asked for if it is at least two rows inside the screen, or else the whole screen, and homes the cursor |
| `Terminals.Terminal.PlaceCommand` | kernel/terminal/src/flanterm.c:629-758 | absolute positions, with zero meaning the first row and column for one command and the last for the others, and the remembered cursor |
| `Terminals.Terminal.EditCommand` | kernel/terminal/src/flanterm.c:656-781 | what each of the seven editing commands does to the plain screen, for every parameter |
| `Terminals.Terminal.Digit` | kernel/terminal/src/flanterm.c:514-522 | appends a digit modulo 2^32, and ignores it once sixteen parameters are full |
| `Terminals.Terminal.EndParameter` | kernel/terminal/src/flanterm.c:524-536 | completes the parameter under way; a separator without one counts as zero, unless there are sixteen already |
| `Terminals.Terminal.FillDefaults` | kernel/terminal/src/flanterm.c:538-548 | gives missing parameters their default |
| `Terminals.Terminal.RunCommand` | kernel/terminal/src/flanterm.c:555-822 | each of the thirty commands acts on screen, pen, modes and remembered cursor as `CommandStep` says, with scrolling off, which is put back, and ends the sequence; any other byte leaves everything but scrolling alone |
| `Terminals.Terminal.ControlSequenceParse` | kernel/terminal/src/flanterm.c:502-822 | the whole state after a byte of a control sequence is as `SequenceStep` says: digits, separators, private and unknown sequences and commands |
| `Terminals.Terminal.LineFeed` | kernel/terminal/src/flanterm.c:890-905 | moves to the next line or scrolls |
| `Terminals.Terminal.ReverseLineFeed` | kernel/terminal/src/flanterm.c:906-914 | moves to the previous line or scrolls back |
| `Terminals.Terminal.LineEscape` | kernel/terminal/src/flanterm.c:890-914 | index, next line and reverse index |
| `Terminals.Terminal.ResetTerminal` | kernel/terminal/src/flanterm.c:886-889 | a reset clears the screen and puts margins, parser, pen and modes back to their start, but not the colours or the saved state |
| `Terminals.Terminal.EscapeParse` | kernel/terminal/src/flanterm.c:846-927 | the whole state after a byte of any escape sequence is as `EscapeStep` says: opening and continuing, saving, restoring, resetting, line movement, designations and strings |
| `Terminals.Terminal.PrintByte` | kernel/terminal/src/flanterm.c:1368-1392 | prints the glyph of the selected character set, in insert mode after moving the rest of the line right |
| `Terminals.Terminal.Tab` | kernel/terminal/src/flanterm.c:1329-1335 | moves to the next multiple of the tab size, or to the end of the line |
| `Terminals.Terminal.ControlByte` | kernel/terminal/src/flanterm.c:1329-1351 | tab, line feed, backspace and carriage return |
| `Terminals.Terminal.GroundByte` | kernel/terminal/src/flanterm.c:1318-1392 | the whole state after a byte outside any sequence is as `GroundStep` says |
| `Terminals.Terminal.SelectCharset` | kernel/terminal/src/flanterm.c:1306-1316 | designates one of the two character sets and leaves the other and everything else |
| `Terminals.Terminal.StartRune` | kernel/terminal/src/flanterm.c:1286-1299 | at most three bytes are ever awaited |
| `Terminals.Terminal.ContinueRune` | kernel/terminal/src/flanterm.c:1258-1284 | the last byte prints the character or as many replacement cells as it is wide, and nothing else changes |
| `Terminals.Terminal.Putchar` | kernel/terminal/src/flanterm.c:1246-1393 | every byte terminates, leads to exactly the state `PutStep` allows, and keeps margins, parameter counts, pending bytes, character sets and colour indices in range, and the screen consistent; cancelling leaves the screen alone |
| `Terminals.Terminal.Feed` | kernel/terminal/src/flanterm.c:120-123 | so does every byte string, state by state as `PutStep` says; printable text between sequences appears in order, and the saved state is kept unless a byte saves |
| `Terminals.Terminal.Write` | kernel/terminal/src/flanterm.c:120-128 | the bytes act as `PutStep` says, and with automatic flushing the display then shows the text and the cursor |
| `Sequences.NumberRead` | kernel/terminal/src/flanterm.c:514-522 | the decimal digits of a number make it the parameter under way, and change nothing else |
| `Sequences.ParametersRead` | kernel/terminal/src/flanterm.c:514-536 | any number of parameters with separators between them: the first sixteen are kept, in order |
| `Sequences.SequenceRuns` | kernel/terminal/src/flanterm.c:502-822 | the bytes of a control sequence with any number of parameters carry out its command, whichever it is, with the first sixteen, and nothing else |
| `Effects.PrintedText` | kernel/terminal/src/flanterm.c:1386-1392 | printable bytes appear in order |
| `Effects.InsertedByte` | kernel/terminal/src/flanterm.c:1368-1392 | in insert mode a character goes to the cursor and the rest of the line moves right by one |
| `Effects.ControlBytes` | kernel/terminal/src/flanterm.c:1318-1360 | carriage return, backspace, the two shifts and the bytes that do nothing: the whole state after each |
| `Effects.TabByte` | kernel/terminal/src/flanterm.c:1329-1335 | a tab moves to the next multiple of the tab size or to the last column, and changes nothing else |
| `Effects.LineFeedByte` | kernel/terminal/src/flanterm.c:1336-1347 | a line feed moves down by one, or scrolls on the last row of the region, cell by cell |
| `Effects.ResetEscape` | kernel/terminal/src/flanterm.c:886-889 | ESC c leaves a blank screen in the current colours, the cursor at its start, the whole screen as scroll region and every mode as in the beginning |
| `Effects.LineEscapes` | kernel/terminal/src/flanterm.c:890-914 | ESC D, ESC E and ESC M, cell by cell |
| `Effects.Designation` | kernel/terminal/src/flanterm.c:1301-1316 | ESC ( or ) and a letter designate the line drawing or the usual characters, and nothing else |
| `Effects.LineDrawing` | kernel/terminal/src/flanterm.c:1301-1392 | a character after ESC ( 0 is drawn from the line drawing table, and after ESC ( B printed as it is |
| `Effects.InsertMode` | kernel/terminal/src/flanterm.c:443-467 | ESC [ 4 h and ESC [ 4 l switch insert mode and nothing else |
| `Effects.CursorMode` | kernel/terminal/src/flanterm.c:399-431 | ESC [ ? 2 5 h and ESC [ ? 2 5 l show and hide the cursor and do nothing else |
| `Effects.UnknownCommand` | kernel/terminal/src/flanterm.c:555-822 | a control sequence with an unknown command goes on to the next byte that could be one, and leaves scrolling off; nothing else changes |
| `Effects.InkCodes` | kernel/terminal/src/flanterm.c:154-326 | every code for the ink, bold on and off included, by the colour then displayed in front, or behind in reverse video |
| `Effects.PaperCodes` | kernel/terminal/src/flanterm.c:162-342 | every code for the paper likewise |
| `Effects.ReverseCodes` | kernel/terminal/src/flanterm.c:328-342 | reverse video exchanges the two colours exactly when it changes |
| `Effects.ResetCodes` | kernel/terminal/src/flanterm.c:139-152 | a reset, with its code or without any, gives the default colours whatever the pen was |
| `Effects.OtherCodes` | kernel/terminal/src/flanterm.c:136-397 | every other code alone does nothing |
| `Effects.CodesApart` | kernel/terminal/src/flanterm.c:136-397 | codes in one sequence are the same as the sequences of its parts |
| `Effects.TrueColour` | kernel/terminal/src/flanterm.c:352-368 | a colour of three components goes to the displayed foreground or background |
| `Effects.IndexedColour` | kernel/terminal/src/flanterm.c:370-390 | a colour of the table of 256 likewise: the eight colours, their bright forms and the others |
| `Effects.ColouredText` | kernel/terminal/src/flanterm.c:130-397 | ESC [ 3 k m and a character: it has colour k and the old background; with 4 for 3 colour k is behind it |
| `Effects.BrightText` | kernel/terminal/src/flanterm.c:130-397 | ESC [ 1 ; 3 k m and a character: it has the bright colour k |
| `Effects.DefaultText` | kernel/terminal/src/flanterm.c:130-152 | ESC [ 0 m, or ESC [ m, and a character: it has the default colours |
| `Effects.SaveRestore` | kernel/terminal/src/flanterm.c:824-844 | ESC 7, any bytes, CAN and ESC 8 bring back the pen, the colours and the cursor unless one of the bytes saves: a 7 that is awaited after ESC |
| `Effects.RememberedCursor` | kernel/terminal/src/flanterm.c:753-758 | ESC [ s remembers the cursor and ESC [ u returns to it |
| `Effects.StringIgnored` | kernel/terminal/src/flanterm.c:469-500 | an operating system command, ended by BEL, changes nothing |
| `Effects.InsertDelete` | kernel/terminal/src/flanterm.c:727-749 | the sequences for inserting and then deleting `n` characters restore everything but the last `n` cells of the line |
| `Effects.OffScreen` | kernel/terminal/src/flanterm_backends/fb.c:974-984 | on any screen of at least three rows and wider than high, two sequences and a line of text and one character more put the cursor below the last row |
| `Effects.RuneRead` | kernel/terminal/src/flanterm.c:1258-1299 | every UTF-8 character of two to four bytes is decoded to its code point |
| `Effects.RuneShown` | kernel/terminal/src/flanterm.c:1258-1284 | it is shown by its glyph, or by a replacement mark and spaces up to its width |
| `Numbers.NumeralValue` | klibc/stdlib.c:106-110 | a numeral consists of digits of its base, has no needless zero and has the number as its value |
| `Numbers.NumeralDigit` | klibc/stdlib.c:106-110 | digit i from the right is the value divided by the base to the i, modulo the base, written 0 to 9 and then a to z |
| `Numbers.EndsRun` | klibc/stdlib.c:233-249 | parsing stops at the first character that is no digit of the base |
| `Numbers.WriteDigits` | klibc/stdlib.c:106-110 | produces the digits of the value as an unsigned number, least significant first |
| `Numbers.ReverseInPlace` | klibc/stdlib.c:118-126 | reverses the buffer in place |
| `Numbers.Itoa` | klibc/stdlib.c:91-129 | the buffer holds the numeral, with a minus sign only in base ten, and a terminator, for every 32-bit integer but the smallest in base ten |
| `Numbers.Strtol` | klibc/stdlib.c:202-256 | the value and the end of the number a string starts with, blanks, sign and prefixes included |
| `Numbers.BlankSkipped` | klibc/stdlib.c:206-208 | a blank, tab or newline in front counts for nothing |
| `Numbers.SignMeans` | klibc/stdlib.c:210-215 | a minus sign negates the number after it and a plus sign does nothing |
| `Numbers.HexPrefix` | klibc/stdlib.c:217-231 | 0x or 0X in front means base 16, asked for or left open |
| `Numbers.OpenBase` | klibc/stdlib.c:217-228 | with the base left open a zero in front means base 8 and anything else base 10 |
| `Numbers.CaseIgnored` | klibc/stdlib.c:217-249 | upper-case letters count like lower-case ones |
| `Numbers.RoundTrip` | klibc/stdlib.c:91-129 | parsing a printed number gives it back with the end at the terminator, for every base; a negative one comes back plus 2^32 in bases other than ten |
| `Numbers.PrintAndParse` | klibc/stdlib.c:91-129 | the same for the two routines on a buffer |

## Left out

- The PCI, USB, disk, interrupt controller, timer, serial and keyboard drivers, descriptor tables, inline assembly and cache or TLB invalidation: hardware on the other side.
- Option parsing, partition table probing and conversion, and the boot image in `boot/limine.c`: straight-line input and output.
- `drivers/emul/rv_vm.h/rv_vm.h`, `klibc` sorting and string helpers, `tools/math.c`: not among the structures modelled.
- Fonts, colour tables, the code page and character width tables, logging and shell commands: constants. The terminal takes its tables as parameters.
- Tlsf: block addresses and sizes are word indices and word counts, since every size is a multiple of 8; bitmaps are sequences of 32 bits; the link fields of the null block are scratch; one pool of less than 2^32 bytes anywhere in the address space; `tlsf_remove_pool` is not modelled.
- Tlsf.Heap.Memalign: alignments are powers of two, as its caller promises; at 2^63 it promises only what `AlignedAtLargest` and `UnalignedAtLargest` make of `Carved`.
- Tlsf.Heap.Realloc: after a request that adjusts to zero it says what became of the block given and of the other allocations' words, not of the free lists.
- Session.Client.Step: a client does not make the reallocation that adjusts to zero.
- VirtualMemory.Memory.MapPage: assumes a page-aligned physical address, flags outside the address bits and no large pages. The exact condition is for a frame 0 that is no directory and, when two or more frames are missing, for pages whose index in the leaf table differs from that of the leaf table in its directory; otherwise the mapped frame itself is read as a table. The processor's own checks are modelled for the write, user and execute bits only.
- VirtualMemory.Memory.Step: a client does not make a map for which there are too few free frames.
- VirtualMemory.Memory.Pfree: only for frames the client owns.
- BlockDevice.Device.Read: block reads and writes inside the device succeed, and the device is a whole number of blocks; a failed `fread` leaves the cache unspecified, and the retry loop of the uninstaller is not modelled. A write interrupted by an error is not in the log.
- LogFile.Load: a count above 256 overruns the array in the original and is read to its end here; running out of memory is not modelled.
- Screens.Screen.FullRefresh: only for a screen that has just been set up or flushed, because drawing the cursor settles a cell without taking its item off the queue.
- Screens.Screen.RawPutchar: cursor coordinates are unbounded, where the original would wrap around after 2^64 characters on one line.
- Framebuffers.Framebuffer.PlotChar: fonts of at most 256 rows, since the row is held in eight bits; the four variants are one method for scaled and one for unscaled fonts, each with or without a canvas.
- Terminals.Terminal.RunCommand: some commands limit their parameters in place in the original; the model does so in local variables, since the next sequence clears them.
- Terminals.Terminal.Putchar: callbacks to the client are not modelled; conversion of colours and the character tables are parameters.
- Numbers.Strtol: overflow of the 64-bit result, which is undefined in C, is not modelled.
- Numbers.Itoa: not for the smallest 32-bit integer in base ten, whose negation is undefined in C, nor for bases above 36.
