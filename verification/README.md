# Verification of the ParadiseOS kernel

ParadiseOS is a small kernel for 32-bit x86. This project models the parts of it on which everything else rests and
proves what they promise: the red-black tree that finds processes, the memory stack (page allocator, page tables, free
frames), the system calls that move pages between address spaces, process creation and scheduling, the mailbox ring
and the formatter. Everything that updates memory in place in the kernel does so here: tree nodes, process structures
and queue links are objects that are relinked, the usage map and the mailbox are byte arrays, and physical memory is
one array of frames that is read and written only through page-table walks, as the processor does it.

A failed `KERNEL_ASSERT` halts the machine. It is the outcome `Panic` where a caller can provoke it, with a contract
that says exactly when, and a proof obligation where it cannot happen.

## Structure

| files | content |
|---|---|
| `Words.dfy` | 16- and 32-bit words, `Outcome`, wrapping counters |
| `RbShape.dfy`, `RbRemoval.dfy`, `RbOrder.dfy`, `RbStore.dfy` | trees and paths as values: balance, the faults that insertion and deletion pass up the tree, order and bindings, and how linked nodes in memory spell out a tree |
| `RbTree.dfy` | the tree with its shared sentinel, node by node |
| `HeapRuns.dfy`, `Heap.dfy` | page colours and the allocations they stand for; the packed usage map |
| `Entries.dfy`, `PageTables.dfy`, `Paging.dfy` | entries, the layout of directories, tables and free frames, and the frame and mapping functions |
| `PageRanges.dfy`, `BackedHeap.dfy`, `FrameFlow.dfy`, `CopyPages.dfy`, `NewSpaces.dfy`, `KernelMemory.dfy` | ranges of pages; the agreement of heap and page tables; where frames go; allocation, reallocation, freeing and new page directories |
| `MapLoops.dfy`, `Transfers.dfy`, `AddressSpaces.dfy` | the system calls on address spaces |
| `Separation.dfy`, `Kernel.dfy` | what an operation on one heap leaves of the other and a system call of both; the kernel's memory as a whole, with one invariant |
| `StartUp.dfy` | the first state: free frames, the placement of the two heaps, the first kernel |
| `Queue.dfy`, `ProcessPool.dfy`, `Processes.dfy` | run queue, process structures, process table and scheduling |
| `MailboxRing.dfy`, `Mailbox.dfy` | the ring page mapped twice, and the mailbox in it |
| `Digits.dfy`, `Format.dfy` | numerals and the truncating formatter |

## Main results

* **Tree.** `Insert`, `Remove` and `Find` terminate, keep key order, a black root, no red node with a red child, equal
  black heights and agreeing links, and refine insertion, deletion and lookup in a finite map from keys to node
  objects. Nodes are relinked, never copied. The search, and for a deletion the search and the walk to the successor
  together, take at most twice the logarithm of the size plus one steps. The sentinel's parent link is used as scratch
  memory during deletion; no assertion of the kernel can fail.
* **Heap.** Colours of two bits a page stand for a map from start pages to lengths. Allocation is first fit and
  complete; freeing returns exactly the old length and touches no other block. A resize request gives a block of the
  wanted length, and touches no other block, if and only if its end does not wrap around 32 bits. A request that wraps
  frees all pages from the wrapped end to the end of the block, other blocks included: `WrappedResize` says which,
  `WrappedExample` is one. In the memory stack such a request panics, because no range of pages is that long.
* **Paging.** The free list threaded through the frames is free of duplicates and disjoint from directories and
  tables, its length is the difference of the counters, and the window maps its head. No free frame is behind a mapped
  page of any address space, so a frame that is handed out is in use by nobody. Every directory entry of every space
  is writable, so that the entries of pages decide what may be written. Mapping, unmapping and swapping change exactly
  the entries they are asked to change, in this space and in those that share the table.
* **Kernel memory.** In every run of `MemAlloc`, `MemRealloc`, `MemFree` and `NewPageDir` a used heap page is present
  and its frame is its own: no other page of any space has it, unless it shares the table. The pages that are present
  and not used stay the same, so where there are none, a page is used if and only if it is present. Reallocation keeps
  the contents of the pages that both blocks have and leaves every other block alone. Each operation panics exactly
  when it cannot be served. What one heap does, the making of a new space included, leaves the blocks of another one
  alone.
* **The kernel's memory as a whole.** The class `Kernel` joins two heaps, the free list, the page tables and the
  user's memory under one invariant: both heaps are backed by frames of their own, no page is used by both, no free
  frame is mapped, and no frame of the user's memory is a directory, a table, free, or behind a page of a heap.
  `MemInit` establishes it. Allocating, resizing and freeing blocks of either heap, new address spaces, pages for
  programs, switches between spaces and the three system calls keep it, in every order, for ranges outside the heaps.
  Each of them leaves the used pages of the heaps that it is not about as they were, with their contents. Frames are
  conserved: the directories, tables, free frames and frames behind the heaps are together the same frames as before,
  but for those that become pages of programs.
* **Start-up.** `FirstSystem` builds memory, two heaps and address spaces in a state that meets all invariants. Three
  things that start-up code is expected to do are false of it, and it is said exactly when. `init_heap` does not leave
  out the pages of the usage maps: the map of the second heap lies where the first one has its last pages, and the
  second heap ends in the self-map, so "used if and only if present" (src/memory/mem.c:525-538) is false of the first
  heap from the start. `heap_init` does not clear the pair of bits behind the last page when the number of pages is a
  multiple of four. The kernel's share of a memory range and the user's share have a frame in common, exactly if the
  boundary is inside a frame that starts in the kernel's share.
* **Address spaces.** Mapping, unmapping and transferring ranges are all or nothing: after an error memory is bit for
  bit as before and the directory is restored, also when a transfer was undone half-way, when source and target
  overlap in one space, and when they lie in tables that spaces share. It is said exactly when a call panics, for
  entries with and without user access, and what it answers and writes, in numbers. Unmapping undoes mapping.
* **Processes.** No two live processes share a structure or an identifier; the search for an identifier panics exactly
  when all 65,536 are taken. A process with `k` others before it runs after `k` ticks, whatever is started meanwhile,
  and the control block it finds is its own.
* **Mailbox.** The ring holds a bounded queue of messages; a read takes out the oldest message that matches, as long
  as the clean-up behind it takes whole read messages and looks at mapped bytes only. The clean-up advances by all
  that it took so far, so this is not always so. `CleanupExact` says when it is for at most two read messages at the
  head, and for more that it takes exactly two if and only if its loop stops there. `UniformExact` says when it is for
  messages of one size, however many are read. `Overtaken` is a run into a state where it is not.
* **Formatter.** The result is the length of the whole output, the buffer holds the longest prefix that fits and a
  NUL, and what each directive prints is said apart from how: `TextsPrint`, `NumbersPrint`, `PlainText` and `Joined`
  determine the output of every format that is modelled. That the output is the same for every buffer is false: a
  character that does not fit leaves its argument to the directives behind it. `OutputFixed` says for which formats it
  is true, and `CharThenNumber` is a call for which it is not.

## Model

| member | source | states |
|---|---|---|
| RbTrees.RbTree.constructor | src/process/rb_tree.c:113-119 | a new tree is valid and stands for the empty map |
| RbTrees.RbTree.RotateSubtree | src/process/rb_tree.c:23-38 | exactly the links of the nodes around the rotated edge change, the sentinel's parent link among those that do not, and the root only if it was rotated |
| RbTrees.RbTree.Rotate | src/process/rb_tree.c:23-38 | the links in memory spell out the rotated tree at the same place, and nothing else changes |
| RbTrees.RbTree.InsertFixStep | src/process/rb_tree.c:41-61 | one turn moves a red-red fault up or ends it, keeps the key order and leaves no other fault; the assertion on the parent cannot fail |
| RbTrees.RbTree.InsertFix | src/process/rb_tree.c:40-64 | from a tree whose only fault is a red node under a red one: terminates with a red-black tree, black root and the same keys in order |
| RbTrees.RbTree.RemoveRotateUp | src/process/rb_tree.c:70-75 | a red sibling: after the rotation the sibling is black, is not the sentinel and the shortage is one level deeper |
| RbTrees.RbTree.RemoveFixStep | src/process/rb_tree.c:67-93 | one turn ends the shortage of black or moves it to the parent; the direction is right even when the short place is the shared sentinel, and the sibling is never the sentinel |
| RbTrees.RbTree.RemoveFix | src/process/rb_tree.c:66-97 | from a tree that is short of one black node in one place: terminates with a red-black tree and the same keys in order, and the sentinel stays black |
| RbTrees.RbTree.Transplant | src/process/rb_tree.c:99-105 | the link from above and the parent link of the new node, possibly the sentinel, are the only ones that change |
| RbTrees.RbTree.Minimum | src/process/rb_tree.c:107-111 | the first node in key order of the subtree, with nothing before it; the steps to it and its height are at most the height of the subtree |
| RbTrees.RbTree.SpliceOutChild | src/process/rb_tree.c:157-160 | a node with at most one child leaves the tree and its child takes its place |
| RbTrees.RbTree.SpliceOutSuccessor | src/process/rb_tree.c:161-181 | a node with two children leaves the tree, its successor takes its place and colour, and the sentinel's parent link leads to where a black node is missing |
| RbTrees.RbTree.Insert | src/process/rb_tree.c:121-148 | true exactly if the key was absent; then the map has one binding more, to the caller's node, and otherwise nothing changed; all tree invariants hold; the search takes at most 2 log2(n + 1) steps |
| RbTrees.RbTree.Remove | src/process/rb_tree.c:150-190 | returns the very node bound to the key or null; the map loses exactly this binding, every other node keeps identity and key; all tree invariants hold; the search and the walk to the successor together take at most 2 log2(n + 1) steps |
| RbTrees.RbTree.Find | src/process/rb_tree.c:192-202 | the node that the map binds to the key, or null, in at most 2 log2(n + 1) steps |
| RbTrees.RbTree.MapNodes | src/process/rb_tree.c:121-202 | a node in the map is a node of the tree, not the sentinel, and carries its key |
| RbTrees.RbTree.CountIsSize | src/process/rb_tree.c:145-188 | `count` is the size of the map as long as 32 bits can hold it |
| RbShape.HeightBound | src/process/rb_tree.c:126-132 | a red-black tree with n nodes has height at most 2 log2(n + 1) |
| RbShape.BlackHeightBoundsSize | src/process/rb_tree.c:40-97 | black height b means at least 2^b - 1 nodes |
| RbShape.RecolorMovesFault | src/process/rb_tree.c:44-49 | recolouring with a red uncle moves the only fault two levels up |
| RbShape.StraightenKeepsFault | src/process/rb_tree.c:51-55 | the inner grandchild case becomes the outer one, with the same fault |
| RbShape.LiftEndsFault | src/process/rb_tree.c:57-59 | recolouring and rotating at the grandparent leaves no fault |
| RbShape.FitsPlug | src/process/rb_tree.c:40-97 | a subtree of the right black height and colour in a sound context makes a red-black tree |
| RbShape.PlugFits | src/process/rb_tree.c:40-97 | every context in a red-black tree is sound, the converse |
| RbRemoval.ShortHasSibling | src/process/rb_tree.c:68-69 | where a black node is missing, the sibling is a proper node |
| RbRemoval.RedSiblingKeepsShort | src/process/rb_tree.c:70-75 | the red sibling case keeps exactly one shortage and the key order |
| RbRemoval.BlackSiblingMovesShort | src/process/rb_tree.c:76-79 | reddening the sibling moves the shortage to the parent |
| RbRemoval.StraightenKeepsShort | src/process/rb_tree.c:81-86 | the near-child case becomes the far-child case |
| RbRemoval.LiftEndsShort | src/process/rb_tree.c:88-92 | the last rotation ends the shortage |
| RbOrder.InsertBinding | src/process/rb_tree.c:126-143 | a leaf planted where the search ended adds exactly one binding and keeps the order |
| RbOrder.DropBinding | src/process/rb_tree.c:150-190 | a listing without one entry has exactly the other bindings |
| RbOrder.NotFound | src/process/rb_tree.c:192-202 | a search that ends at the sentinel proves the key absent |
| RbStore.RotationRepresents | src/process/rb_tree.c:23-38 | the writes of a rotation turn memory that spells out a tree into memory that spells out the rotated tree |
| RbStore.TakeOverRepresents | src/process/rb_tree.c:177-180 | the writes that put the successor in place spell out the tree with the node replaced |
| Heaps.PairsIndependent | src/memory/heap.c:20-35 | setting one of the four pairs of bits of a byte changes this pair and no other |
| Heaps.ByteNumber | src/memory/heap.c:20-35 | a byte is the number that its four pairs spell, the first one counting 64 |
| Heaps.UnpackUpdate | src/memory/heap.c:28-35 | setting a pair in the packed map sets one colour |
| Heaps.Heap.IsSpaceFree | src/memory/heap.c:40-47 | true exactly if the whole range is free |
| Heaps.Heap.GetNewColor | src/memory/heap.c:52-62 | a used colour that neither neighbour has; the assertion at the end is never reached |
| Heaps.Heap.MarkUsed | src/memory/heap.c:68-83 | exactly the range gets one colour, which both neighbours do not have |
| Heaps.Heap.Alloc | src/memory/heap.c:102-129 | first fit: the lowest free run that is long enough becomes one new block and no other block changes; panics exactly if there is no such run; a request for no page gets one |
| Heaps.Heap.Free | src/memory/heap.c:174-190 | frees exactly the block that starts there and returns its length; panics exactly on a free page |
| Heaps.Heap.Realloc | src/memory/heap.c:132-172 | shrinks, grows, recolours or moves to the first fit; panics exactly if there is no block or no place; the new place is taken before the old one is freed |
| Heaps.ResizedUnlessWrapped | src/memory/heap.c:139-151 | a resized block has the wanted length if and only if start plus length does not wrap around 32 bits; otherwise it is lost |
| Heaps.WrappedResize | src/memory/heap.c:139-151 | what a request whose end wraps around frees: blocks that start between the wrapped end and the end of the block are lost, one that reaches into this range is cut off, all others stay |
| Heaps.WrappedExample | src/memory/heap.c:139-151 | a block of one page asked to grow beyond 32 bits takes the block before it along |
| HeapRuns.FillAllocations | src/memory/heap.c:20-83 | recolouring whole runs with a colour that differs from both neighbours makes one allocation, or none, and changes no other |
| HeapRuns.AllocBlocks | src/memory/heap.c:102-129 | marking a first fit adds exactly one allocation |
| HeapRuns.FreeBlocks | src/memory/heap.c:174-190 | freeing a run removes exactly one allocation, of the length of the run |
| HeapRuns.ResizedBlocks | src/memory/heap.c:132-172 | a resize replaces exactly one allocation by one of the new length, disjoint from the old one if it moved |
| HeapRuns.MovedBlocks | src/memory/heap.c:167-170 | placing the new block before the old one is freed is correct |
| Entries.CreatedEntry | src/memory/mem.c:116-118 | the entry is present and has the frame, the flags and the user bit asked for |
| Entries.EntryNumber | src/memory/mem.c:116-118 | the entry as a number: the frame's address, the flags, and the lowest bit set |
| Entries.TableEntry | src/memory/mem.c:186-191 | the directory entry of a new table is its frame plus 3, or plus 7 if user pages are asked for |
| Entries.EntryRoundTrip | src/memory/mem.c:84-118 | a present entry is the entry made from its frame and its flags |
| Entries.SetPaddrParts | src/memory/mem.c:92-94 | another frame, the same flags; setting the old frame again restores the entry |
| Entries.AlignedStart | src/memory/mem.c:298-300 | the first frame that starts at or behind an address |
| PageTables.WriteEntry | src/memory/mem.c:30-34 | writing a word of a table changes the entry of one page in exactly the spaces that share the table, no other entry in any space, and keeps the layout |
| PageTables.AddTable | src/memory/mem.c:184-193 | a zeroed table in an empty directory slot maps no page in any space and keeps the layout |
| PageTables.EntriesDetermine | src/memory/mem.c:714-782 | memory is determined by the entries of a space if only words of its tables may differ |
| PageTables.OwnUnmapped | src/memory/mem.c:285-292 | a frame that one page has for its own is mapped nowhere once this page is unmapped |
| PageTables.FreeChainPush | src/memory/mem.c:154-160 | a frame written with the old head is the new head of the list |
| PageTables.FreeChainPop | src/memory/mem.c:164-172 | the first word of the head leads to the rest of the list |
| Paging.Memory.constructor | src/memory/mem.c:785-787 | memory with any sound layout of directories and tables, no frame free, meets the invariant |
| Paging.Memory.ReadPde | src/memory/mem.c:27-34 | the walk through the self-map finds the directory entry |
| Paging.Memory.WritePte | src/memory/mem.c:27-34 | the walk through the self-map writes the word of the table and nothing else |
| Paging.Memory.GetEntry | src/memory/mem.c:109-114 | the entry of a page, zero without a table |
| Paging.Memory.SetPageDir | src/memory/mem.c:136-141 | all invariants hold in the other space too |
| Paging.Memory.FreeFrame | src/memory/mem.c:154-160 | a frame that is mapped nowhere becomes the new head of the free list, the window maps it, and still no free frame is mapped anywhere; no other entry and no frame but this one and tables changes |
| Paging.Memory.AllocFrame | src/memory/mem.c:164-172 | panics exactly if no frame is free; otherwise hands out the head, which is no directory, no table, no longer free, and behind no mapped page of any space |
| Paging.Memory.InitFrameRegion | src/memory/mem.c:380-390 | the frames that start in the region join the list, a last partial one included; total rises by their number, used stays; panics exactly on an empty region |
| Paging.Memory.InitPageTable | src/memory/mem.c:147-151 | the table is all zeros, every other frame unchanged |
| Paging.Memory.EnsureTable | src/memory/mem.c:184-193 | a missing table takes the first free frame, and its directory entry is this frame, present and writable, and the user's exactly if asked for; every directory entry of every space stays writable; no page gets mapped |
| Paging.Memory.MapPage | src/memory/mem.c:180-205 | reports a mapped page and changes nothing, or adds exactly one entry, the number that frame and flags spell, in this space and in those that share the table; the entry of a new table is as above; panics exactly if a table is needed and no frame free, or a user page is asked for under a kernel table |
| Paging.Memory.UnmapPage | src/memory/mem.c:210-224 | removes exactly one entry, where the table is shared in all spaces that share it, and returns it; reports a page that is not mapped and changes nothing; the assertions inside hold |
| Paging.Memory.SwapPageFrames | src/memory/mem.c:228-243 | the two entries exchange frames and keep flags; no other entry changes |
| Paging.SwapUndoesSwap | src/memory/mem.c:226-243 | swapping twice gives memory back bit for bit |
| PageRanges.AllocPage | src/memory/mem.c:263-265 | the page gets the first free frame; panics exactly if it is mapped, refused, or the frames do not suffice |
| PageRanges.AllocPages | src/memory/mem.c:269-274 | every page of the range gets a frame of its own from the free list, which loses exactly one frame a page and one a missing table; panics exactly if a page is mapped, a kernel table refuses user pages, the frames do not suffice, or the range reaches the self-map |
| PageRanges.FreePages | src/memory/mem.c:285-292 | the range is unmapped and its frames go to the free list, none of them mapped anywhere; panics exactly if a page is not mapped |
| PageRanges.CanMapStep | src/memory/mem.c:269-274 | mapping one page uses up a frame for a table exactly if its table was missing |
| BackedHeap.AllocKeepsBacked | src/memory/mem.c:467-472 | after an allocation used pages are present with frames of their own, and no other present page or its contents was touched |
| BackedHeap.FreeKeepsBacked | src/memory/mem.c:506-509 | after a release used pages are present with frames of their own, and no other present page or its contents was touched, although freed frames are written to |
| BackedHeap.AgreementKept | src/memory/mem.c:525-538 | what each operation keeps suffices: a page is used if and only if it is present after it, exactly if this was so before |
| CopyPages.CopyPage | src/memory/mem.c:488-488 | the frame of the one page gets the contents of the other; memory is otherwise the same, word for word |
| CopyPages.CopyRange | src/memory/mem.c:488-488 | the pages have the contents of the others; no entry and no other frame changes |
| KernelMemory.MovedKept | src/memory/mem.c:486-490 | mapping, copying and unmapping keep the contents and flags of a moved block and every other block |
| KernelMemory.MovedElsewhere | src/memory/mem.c:486-490 | a move changes no entry outside the heap and no frame but free ones, tables, directories and those behind the heap |
| KernelMemory.OtherHeapKept | src/memory/mem.c:460-462 | an operation on one heap keeps the invariant of another one in the same space, its entries and contents, and no page gets used by both, although their ranges may overlap |
| KernelMemory.OtherHeapJoined | src/memory/mem.c:541-561 | the same for a new page directory, which shares the tables of both heaps: the other heap's frames are its own in view of all spaces, the new one included |
| FrameFlow.AllocFlow | src/memory/mem.c:269-274 | free frames that an allocation takes are behind its pages or are new tables; nothing else leaves the list or comes behind the heap |
| FrameFlow.FreeFlow | src/memory/mem.c:285-292 | the frames behind freed pages, and no others, join the list |
| FrameFlow.MoveFlow | src/memory/mem.c:486-490 | mapping, copying and unmapping a block together lose no frame and take none from elsewhere |
| KernelMemory.KernelHeap.MemAlloc | src/memory/mem.c:467-472 | a first-fit block, mapped with the flags to frames that were free; no frame is lost or comes from elsewhere; the heap invariant holds; panics exactly if no page is asked for, there is no fit, or the first fit cannot be mapped |
| KernelMemory.KernelHeap.MemRealloc | src/memory/mem.c:477-503 | the block has the new length, the contents of the first min(old, new) pages and the same flags; all other blocks keep extent, mapping and contents, and nothing outside the heap changes; every frame now free was free or behind the heap, and none is lost; the heap invariant holds; panics exactly if it cannot be resized, as when its end wraps around 32 bits |
| KernelMemory.KernelHeap.MemFree | src/memory/mem.c:506-509 | exactly this block goes, its frames are free and no others become so, other blocks are untouched; the heap invariant holds |
| KernelMemory.KernelHeap.BackResized | src/memory/mem.c:483-502 | the page tables follow the colours in all three cases; it panics exactly if the new pages cannot be mapped, and always if the end of the block wrapped around |
| KernelMemory.KernelHeap.NewPageDir | src/memory/mem.c:541-561 | a free frame becomes a directory with the pages of the current space below number 1024 and from 0xC0000 up to the self-map, no entry from 1024 up to 0xC0000, and itself in the last slot, sharing the kernel's tables; no other frame is lost or becomes free; the heap has the same blocks and contents as before |
| NewSpaces.FillDirectory | src/memory/mem.c:544-554 | the page holds slot 0 and the slots from 768 to 1022 of the current directory, zeros between them, and the self-map |
| NewSpaces.JoinDirectories | src/memory/mem.c:544-560 | a frame with these contents is an address space with the pages named under `NewPageDir`, and directories, tables and free frames stay apart |
| MapLoops.MapFrames | src/memory/mem.c:661-664 | the whole range is mapped to the frames; panics exactly if the frames for tables run out or a kernel table is in the way |
| MapLoops.UnmapRange | src/memory/mem.c:697-702 | the whole range is unmapped and its entries, or the addresses of its frames, are handed out |
| MapLoops.MapEntries | src/memory/mem.c:772-778 | the saved entries are mapped; panics exactly if frames for tables are missing or a user entry meets a slot that lets no user pages in, whether its table was there or an earlier entry made it; without missing tables nothing else in memory changes |
| MapLoops.CanMapEntriesStep | src/memory/mem.c:184-205 | the first entry can be mapped and then the rest, in the directory with the table that it made, exactly if all can |
| MapLoops.UserEntries | src/memory/mem.c:197-200 | for entries with user access this is the condition on kernel tables and frames |
| Transfers.UndoRestores | src/memory/mem.c:765-778 | unmapping a range and mapping its entries again gives memory back bit for bit |
| Transfers.UndoSucceeds | src/memory/mem.c:765-778 | the entries can be mapped at the source again exactly if user pages were under user tables |
| Transfers.OwnSlots | src/memory/mem.c:19-20 | what is written outside the shared directory slots is written in one space only |
| Transfers.TransferCompletes | src/memory/mem.c:747-778 | the entries are at the target and gone from the rest of the source, in these spaces and where tables are shared, and no other entry changed, also for overlapping ranges of one space |
| Transfers.RoomIsUnmapped | src/memory/mem.c:747-763 | the check of the target after the source is unmapped succeeds exactly if each target page was free or is the same entry as a source page |
| AddressSpaces.Spaces.UserFrameValid | src/memory/mem.c:589-599 | true exactly if the address lies in one of the user's ranges, whose ends may wrap around 32 bits |
| AddressSpaces.Spaces.VirtMap | src/memory/mem.c:634-668 | the answer is 1 for an unknown process, 3 if the caller's pointer is not the user's to read, 2 if the first page in the way is mapped, 4 if the first thing in the way is a frame that is not the user's, with no change at all; otherwise each page has the frame given for it plus 5, or plus 7 if it may be written, and nothing else; panics exactly if tables cannot be made; the directory is restored |
| AddressSpaces.Spaces.VirtUnmap | src/memory/mem.c:677-708 | all pages unmapped and the addresses of their frames handed out, or the answer 1, 2 or 3 for an unknown process, a page that is not mapped, a pointer that is not the user's to write, and no change at all, the array included; the directory is restored and the free frames are the same |
| AddressSpaces.Spaces.TransferBetween | src/memory/mem.c:736-781 | atomic: on success exactly the entries moved, on any error memory is bit for bit as before; the directory is restored; panics exactly if the entries cannot be mapped, at the target or back at the source |
| AddressSpaces.Spaces.VirtTransfer | src/memory/mem.c:714-782 | the answer is 3 for more than 2,048 pages and 1 for an unknown process; otherwise as above, with the answer 2 if a source page is not mapped or a target page is taken, and each target page with the entry of its source page if it is 0 |
| AddressSpaces.Spaces.AddProcess | src/process/processes.c:192-197 | the process has this directory, the others theirs, and the invariant holds |
| AddressSpaces.NoMapError | src/memory/mem.c:649-659 | the checks pass exactly if no page is mapped and all frames are the user's |
| AddressSpaces.FirstErrorIs | src/memory/mem.c:649-659 | the checks answer 2 if and only if a page is mapped and everything before it is in order, and 4 if and only if a page is not mapped, its frame is not the user's, and everything before it is in order |
| AddressSpaces.MapMeans | src/memory/mem.c:613-668 | what a mapping call answers, and the entry of each page as a number |
| AddressSpaces.UnmapMeans | src/memory/mem.c:677-708 | what an unmapping call answers and hands out |
| AddressSpaces.TransferMeans | src/memory/mem.c:714-782 | what a transfer answers, and where the entries are |
| AddressSpaces.UnmapAfterMap | src/memory/mem.c:634-708 | unmapping a range just mapped with aligned frames succeeds, returns exactly these frames and restores the mappings of all spaces |
| Separation.HeapStepKeeps | src/memory/mem.c:460-522 | after an operation on one heap the other one is backed by frames of its own with the same entries and contents, no page is used by both, and the same frames are reserved for the kernel |
| Separation.NewSpaceKeeps | src/memory/mem.c:541-561 | the same for a new page directory |
| Separation.HeapLeftAlone | src/memory/mem.c:634-782 | a heap whose pages a call leaves out, and from which no page gets a frame, is backed as before and keeps its contents |
| Separation.MapStep | src/memory/mem.c:634-668 | mapping user frames at pages outside a heap is such a call, in every space |
| Separation.UnmapStep | src/memory/mem.c:677-708 | so is unmapping pages outside a heap |
| Separation.TransferStep | src/memory/mem.c:714-782 | so is moving pages from outside a heap to outside it, because no frame behind the heap is behind another page |
| Separation.UnmapBreaks | src/memory/mem.c:677-708 | unmapping a used page of a heap, in the current space or through a shared table, breaks the invariant of the heap |
| Separation.SwitchKeeps | src/memory/mem.c:136-141 | in a space that has the same tables for its pages a heap is backed as well, by the same frames |
| Separation.SwitchFails | src/memory/mem.c:547-548 | in a space that misses the table of a used page it is not, as in one made before the kernel added the table |
| Kernels.Kernel.MemAlloc | src/memory/mem.c:467-472 | on either heap: the block as above, the invariant of all memory, the used pages of both heaps as they were, and the same frames reserved; panics exactly as above |
| Kernels.Kernel.MemRealloc | src/memory/mem.c:477-503 | the same for resizing a block |
| Kernels.Kernel.MemFree | src/memory/mem.c:506-509 | the same for freeing a block |
| Kernels.Kernel.AddSpace | src/process/processes.c:192-197 | a new space for a process: the invariant of all memory, both heaps as they were, the new directory shares the kernel's tables, and the frame it takes was free |
| Kernels.Kernel.AllocPagesFor | src/process/processes.c:102-110 | pages for a program in the current space: exactly the frames behind them are no longer the kernel's, the heaps are as they were, and the invariant holds |
| Kernels.Kernel.SetPageDir | src/memory/mem.c:136-141 | the invariant holds in every space that has the same tables for the heaps, and the same frames are reserved |
| Kernels.Kernel.VirtMap | src/memory/mem.c:634-668 | for pages outside the heaps: the result as above, the invariant of all memory, both heaps as they were with their contents, and the same frames reserved |
| Kernels.Kernel.VirtUnmap | src/memory/mem.c:677-708 | the same for unmapping |
| Kernels.Kernel.VirtTransfer | src/memory/mem.c:714-782 | the same for moving pages between spaces, also when the transfer is undone |
| StartUp.InitHeap | src/memory/heap.c:85-98 | the pages of the usage map are mapped and all pages are free; panics exactly if they cannot be; the heap is valid if and only if the pair behind its last page is free and present pages in its range have frames of their own |
| StartUp.MapHoldsPages | src/memory/heap.c:88-97 | the pages for a usage map are the fewest that hold two bits for each page |
| StartUp.InitHeaps | src/memory/mem.c:447-463 | both heaps are valid, each exactly if the pair behind its last page is free; the first one has a page that is present and not used, and the second one ends one page behind the start of the self-map; the frames behind both and the new tables were free; the pages of the first map are writable and global, those of the second one also the user's, which has 1,024 pages |
| StartUp.ShareApart | src/memory/mem.c:410-440 | user memory and the free frames of the kernel have no frame in common if and only if the boundary is page-aligned or in a frame that starts before the kernel's share |
| StartUp.SharedFrame | src/memory/mem.c:410-440 | a memory size for which the shares have a frame in common |
| StartUp.MemInit | src/memory/mem.c:785-808 | from the layout that the boot code leaves: a kernel in which the invariant of all memory holds, for user memory of which nothing is in use yet; does not panic if the frames suffice for the usage maps |
| StartUp.FirstSystem | src/memory/mem.c:785-808 | one run from memory with one directory and two tables: a kernel in which the invariant of all memory holds |
| Queues.Queue.Add | src/process/queue.c:10-19 | the node is last in the queue |
| Queues.Queue.Poll | src/process/queue.c:21-33 | the first node leaves the queue; null exactly if it is empty |
| ProcessPools.ProcessPool.Create | src/process/pool.c:9-21 | a structure that nobody uses: the head of the list, or part of a new page when the list is empty; all others stay as they were; panics exactly if there is neither a structure nor a page |
| ProcessPools.ProcessPool.Destroy | src/process/pool.c:23-26 | the structure is the head of the free list, linked through its own first word |
| Processes.ProcessTable.NextFreeAid | src/process/processes.c:61-79 | a free identifier; if it is at or above the counter all from the counter up to it are taken, and else all from the counter to the end and from zero up to it; the new counter is the next number, or zero after 0xFFFF; terminates; panics exactly if all 65,536 are |
| Processes.ProcessTable.GetProcess | src/process/processes.c:45-51 | the process whose structure contains the tree node, or null |
| Processes.ProcessTable.Exec | src/process/processes.c:131-136 | a new structure under a new identifier, last in the order of execution; the insertion always succeeds; panics exactly if identifiers, or structures and pages, have run out |
| Processes.ProcessTable.Register | src/process/processes.c:192-243 | a new structure under a new identifier, not queued; panics as above |
| Processes.ProcessTable.Delete | src/process/processes.c:247-257 | the structure of the process is the next to be reused and the node with the whole identifier leaves the tree; tree, pool, queue and running process fit together afterwards if and only if there is no such process, or it was named without a thread part and was neither running nor queued; the error code is always the same |
| Processes.ProcessTable.Schedule | src/process/processes.c:139-147 | dispatches the head of the queue with its directory, whose control block names it; panics exactly if the queue is empty |
| Processes.ProcessTable.Preempt | src/process/processes.c:179-190 | in user mode the current process goes to the end and the next one runs, never panicking, the assertions on the control block included; in kernel mode nothing changes |
| Processes.RoundRobin | src/process/processes.c:131-190 | a process with k others before it runs after k ticks, whatever is started meanwhile |
| Processes.EachOnce | src/process/processes.c:131-190 | the order of execution holds each started process exactly once |
| MailboxRing.KeptWindow | src/ipc/mailbox.c:102-112 | bytes written behind a part of the ring leave it alone as long as both fit, across the wrap-around |
| MailboxRing.HeaderRoundTrip | src/ipc/mailbox.c:20-32 | a packed header decodes to itself |
| MailboxRing.HeaderLayout | src/ipc/mailbox.h:36-40 | sender, reader and length of a header, byte by byte |
| MailboxRing.BytesAround | src/ipc/mailbox.c:130-143 | where a message is in the ring |
| Mailboxes.Mailbox.SendMessage | src/ipc/mailbox.c:85-115 | the message is last in the queue, or refused exactly if the page has no room, with no change; without sender and reader it counts as read; all accesses stay in the two mapped pages |
| Mailboxes.Mailbox.FindMessage | src/ipc/mailbox.c:130-147 | finds the first message that matches, or the end; `FirstWanted` says which one that is |
| Mailboxes.Mailbox.MessageCleanup | src/ipc/mailbox.c:35-49 | the number of bytes that the loop takes, for any contents of the ring, as long as the headers it looks at are in the two mapped pages |
| Mailboxes.Mailbox.ReadMessage | src/ipc/mailbox.c:127-167 | returns the oldest message that is wanted: its sender and reader are not zero, and each is the number asked for, or this number is zero, or it is of the same address space and the message names no thread; asked with two zeros, the oldest one with both ends; with its payload, and takes exactly this one out; no match, no change; the ring loses the read messages at its head that the clean-up takes, as many as there may be |
| Mailboxes.FirstWanted | src/ipc/mailbox.c:117-147 | the slot where the search stops is the oldest unread message that is wanted in this sense |
| Mailboxes.MatchPid | src/ipc/mailbox.c:117-125 | identifiers match if and only if the one in the message is not zero and the target is zero, or the same, or in the 65,536 numbers from a message's number that is a multiple of these |
| Mailboxes.CleanupExact | src/ipc/mailbox.c:35-49 | with fewer than two read messages at the head the clean-up takes exactly these; with more it takes exactly two if and only if what it finds behind two, as far on as the first one is long, is the end or a header, and otherwise more bytes; with two read messages this is the only way to take whole ones |
| Mailboxes.UniformExact | src/ipc/mailbox.c:35-49 | for messages of one size: the bytes that the clean-up takes, and that these are whole read messages if and only if at least as many are read at the head as the loop has turns, looking at the first, second, fourth, seventh message and so on |
| Mailboxes.Overtaken | src/ipc/mailbox.c:85-167 | a run of three messages from different senders, the second one read first, after which reading the first one makes the clean-up take bytes of the third, which is unread |
| Digits.NumeralDecodes | src/lib/strings.c:22-124 | a printed number decodes to itself in every base |
| Digits.NumeralCanonical | src/lib/strings.c:7-45 | its characters are digits 0 to 9 and A to F of the base, and the first is no zero, but for zero itself: there is one such text for each number |
| Digits.WordLength | src/lib/strings.c:22-124 | 32-bit numbers fit the temporary buffers |
| Formatting.FieldsDecode | src/lib/strings.c:22-124 | decimal, signed, hexadecimal, binary and pointer fields decode to their arguments |
| Formatting.TextsPrint | src/lib/strings.c:9-20 | %s prints the text as it is, or (null), %c the character of the low byte, %% a percent sign |
| Formatting.NumbersPrint | src/lib/strings.c:22-124 | %u, %x and %b print the one numeral of the number, %p this behind 0x, %i this behind a minus sign if the number is negative |
| Formatting.UnknownDirective | src/lib/strings.c:252-254 | other directives print nothing and take no argument |
| Formatting.PrecisionPrints | src/lib/strings.c:238-251 | a precision prints nothing and ends with its digits; what is behind it is printed as if it stood alone |
| Formatting.PlainText | src/lib/strings.c:256-260 | text without percent signs stands for itself |
| Formatting.Joined | src/lib/strings.c:178-273 | the output of two formats one after the other, each with its arguments, is the two outputs one after the other, unless the first one ends in a precision that the second one goes on with |
| Formatting.OutputFixed | src/lib/strings.c:178-273 | the output is the same for every buffer, as far as it fits, and so is its length, if and only if no directive behind one for a character takes an argument, but for characters |
| Formatting.Misread | src/lib/strings.c:228-231 | for every other format, arguments of the right types with which the length without a buffer is not that of the output, or an argument is taken for one of another type |
| Formatting.CharThenNumber | src/lib/strings.c:228-231 | a character and a number, and no buffer: the code of the character is taken for the number, and the length is wrong |
| Formatting.SnprintString | src/lib/strings.c:9-20 | the length of the text; the buffer gets as much of it as fits; a null pointer prints as (null) |
| Formatting.SnprintHex | src/lib/strings.c:22-45 | the length of the numeral; the buffer gets as much of it as fits |
| Formatting.SnprintPtr | src/lib/strings.c:47-66 | as above, with the prefix 0x, whatever of it fits |
| Formatting.SnprintBin | src/lib/strings.c:68-90 | as above, in binary |
| Formatting.SnprintInt | src/lib/strings.c:92-124 | as above, in decimal, with a sign for negative numbers |
| Formatting.Vsnprintf | src/lib/strings.c:178-273 | the result is the length of the whole output; the buffer holds the first min(length, n - 1) characters and a NUL, and nothing behind them changes; a directive for a character takes its argument only if there is room; where no other directive that takes one comes behind it, the text is the output that `TextsPrint`, `NumbersPrint`, `PlainText` and `Joined` say |

## Left out

- Heaps.Heap.Realloc: the scans for the end of a block and for free pages behind it have no bound in the kernel; the pair behind the last page must exist and be free, and the scan must end before it. Pointers are page numbers counted from the start of the heap.
- Heaps.Heap.Alloc: where the usage map lies is left out: it is an array of its own, although the kernel keeps it in mapped pages in front of the heap.
- KernelMemory.KernelHeap.MemRealloc: for a block given by its first page, and as long as the scan for free pages behind it ends before the end of the usage map. Contents are copied word by word, not byte by byte.
- KernelMemory.KernelHeap.NewPageDir: the kernel's directory entries are copied once, so heap and page tables are shown to agree in the current space, not in a space that was created before a kernel table was added.
- Paging.Memory.InitFrameRegion: for frames that nobody uses and a region between the first and the last page of the address space; address zero is the mark for the end of the list, and a region that ends in the last page is never left by the loop.
- Paging.Memory.MapPage: a page that is not mapped yet lies below the self-map and is not the window, and the frame is not free. The same holds for pages that are unmapped or swapped.
- AddressSpaces.Spaces.VirtMap: for ranges that end before the self-map and leave out the window. The array of frame addresses is the same memory in both spaces and lies outside the range; the kernel checks it in the space of the caller and reads it in the other one. The same holds for `VirtUnmap`.
- AddressSpaces.Spaces.VirtTransfer: for ranges that end before the self-map and leave out the window. `ShareApart` says when start-up gives the user no frame that is free for the kernel.
- Kernels.Kernel.VirtMap: for pages outside the heaps, which the kernel does not check; `UnmapBreaks` says what is lost otherwise. The same holds for `VirtUnmap` and `VirtTransfer`.
- Kernels.Kernel.SetPageDir: for spaces that have the current one's tables for the heaps, as every new space does until the kernel adds a table; `SwitchFails` says what happens otherwise.
- Kernels.Kernel.AddSpace: the directory is made and entered in one step; in the kernel the process structure holds it, and the process table here keeps it apart from the memory model.
- Mailboxes.Mailbox.ReadMessage: the clean-up must take whole read messages and look at mapped bytes only. `CleanupExact` and `UniformExact` say when it takes whole ones for at most two read messages at the head and for messages of one size; for three or more of different sizes there is no shorter condition here than the loop itself, and that it stops after two is sufficient only. What a read behind both mappings finds is not modelled. The count of unread bytes, which is never increased, and the log output are left out.
- Mailboxes.Mailbox.SendMessage: growing and deleting a mailbox are stubs in the kernel.
- Formatting.Vsnprintf: without floating-point directives and without a percent sign at the end of the format, behind which the kernel reads on; formats and texts contain no NUL, which ends them; the length of the output is not wrapped to 32 bits; arguments have the types that the directives read them with.
- ProcessPools.ProcessPool.Create: whether a page for structures can be allocated is a parameter; when it can is said by `MemAlloc`.
- Processes.ProcessTable.Exec: the address space is given; loading of programs, the region for the process's own heap, saved registers and the control block but for its directory are left out. The structure around a tree or queue node is looked up among all structures, where the kernel subtracts an offset.
- Processes.ProcessTable.Delete: the page directory is freed as a frame in the kernel, while the process may be running or be switched to; this is left out. So is `syscall_jump_process`.
- Processes.ProcessTable.Schedule: the directory in force is a field of the process table, apart from that of the memory model.
- RbTrees.RbTree.Insert: the two child links of a node outside a tree point to some node instead of being arbitrary words.
- `free_page` passes the entry with its flag bits on as an address; `free_pages`, which does not, is modelled instead.
- StartUp.MemInit: for one range of memory; the memory map of the boot loader, the rebuilding of the boot page tables and the copy of the user's memory map are left out.
- Hardware: translation caches, accessed and dirty bits, floating-point state, context switches, interrupts.
- Drivers, terminal, keyboard, serial port, timer, logging, dispatch of system calls, descriptor tables, signals, random numbers: they would only add easy members.
