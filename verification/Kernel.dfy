/** The kernel's memory as a whole (src/memory/mem.c): two heaps, the free frames, the page tables and
    the memory of the user programs. Allocations and system calls keep them apart, in any order. */
module Kernels {
  import opened Words
  import opened Entries
  import opened PageTables
  import opened Paging
  import opened HeapRuns
  import opened Heaps
  import opened PageRanges
  import opened BackedHeap
  import opened FrameFlow
  import opened NewSpaces
  import opened KernelMemory
  import opened MapLoops
  import opened Transfers
  import opened AddressSpaces
  import opened Separation

  class Kernel {
    const memory: Memory
    const kernelHeap: KernelHeap
    const readOnly: KernelHeap
    const spaces: Spaces

    /** Both heaps are backed by frames of their own, no page is used by both, the address spaces are
        in order, and no frame of the user's memory is reserved for the kernel. */
    ghost predicate Valid()
      reads memory, memory.phys, kernelHeap, kernelHeap.heap, kernelHeap.heap.usageMap, readOnly, readOnly.heap,
        readOnly.heap.usageMap, spaces
    {
      && kernelHeap.memory == memory && readOnly.memory == memory && spaces.memory == memory
      && kernelHeap.heap.usageMap != readOnly.heap.usageMap
      && kernelHeap.Valid() && readOnly.Valid() && spaces.Valid() && HeapsApart(kernelHeap, readOnly) && UserOutside()
    }

    ghost predicate HeapsApart(a: KernelHeap, b: KernelHeap)
      reads a.heap, a.heap.usageMap, b.heap, b.heap.usageMap
    {
      && a.Extent() <= |a.heap.Colors()| && b.Extent() <= |b.heap.Colors()|
      && UsedApart(a.heap.Colors(), a.Extent(), a.base, b.heap.Colors(), b.Extent(), b.base)
    }

    /** The frame is a directory or a table, is free, or is behind a page of one of the heaps. */
    ghost predicate Reserved(f: int)
      reads memory, memory.phys
    {
      && |memory.Ram()| == FRAMES && 0 < memory.Dir()
      && ReservedIn(memory.Ram(), memory.dirs, memory.Dir(), memory.tables, memory.free, kernelHeap.base,
           kernelHeap.Extent(), readOnly.base, readOnly.Extent(), f)
    }

    ghost predicate UserOutside()
      reads memory, memory.phys, spaces
    {
      forall paddr: u32 :: UserFrame(spaces.userMap, paddr) ==> !Reserved(FrameOf(paddr))
    }

    /** The used pages of the heap have the entries and the contents that they had in `p`. */
    ghost predicate Untouched(h: KernelHeap, p: Phys)
      reads memory, memory.phys, h.heap, h.heap.usageMap
    {
      && |p| == |memory.Ram()| == FRAMES && 0 < memory.Dir() && h.Extent() <= |h.heap.Colors()|
      && forall q: Page :: UsedAt(h.heap.Colors(), h.Extent(), h.base, q) ==> SamePage(p, memory.Ram(), memory.Dir(), q)
    }

    ghost predicate IsHeap(h: KernelHeap) {
      h == kernelHeap || h == readOnly
    }

    ghost function Other(h: KernelHeap): KernelHeap {
      if h == kernelHeap then readOnly else kernelHeap
    }

    constructor (kernelHeap: KernelHeap, readOnly: KernelHeap, spaces: Spaces)
      ensures this.kernelHeap == kernelHeap && this.readOnly == readOnly && this.spaces == spaces
      ensures memory == spaces.memory
    {
      this.memory := spaces.memory;
      this.kernelHeap := kernelHeap;
      this.readOnly := readOnly;
      this.spaces := spaces;
    }

    // ---------- the invariant in parts ----------

    /** What the invariant says of a heap, its memory and the other heap. */
    lemma Parts(h: KernelHeap)
      requires Valid() && IsHeap(h)
      ensures h.memory == memory && Other(h).memory == memory && h.heap.usageMap != Other(h).heap.usageMap
      ensures memory.Valid() && h.Valid() && Other(h).Valid()
      ensures HeapsApart(h, Other(h)) && spaces.memory == memory && spaces.Valid() && UserOutside()
    {
      hide UsedAt, KernelHeap.Valid, Memory.Valid, Reserved, UserFrame, FrameOf;
    }

    lemma Whole(h: KernelHeap)
      requires IsHeap(h) && h.memory == memory && Other(h).memory == memory && spaces.memory == memory
      requires h.heap.usageMap != Other(h).heap.usageMap && h.Valid() && Other(h).Valid()
      requires HeapsApart(h, Other(h)) && spaces.Valid() && UserOutside()
      ensures Valid()
    {
      hide UsedAt, KernelHeap.Valid, Spaces.Valid, Reserved, UserFrame, FrameOf;
    }

    /** The same frames are reserved as in an earlier state. */
    ghost predicate SameReserved(p: Phys, dirs: set<int>, tables: set<int>, free: seq<int>)
      reads memory, memory.phys
    {
      && |p| == |memory.Ram()| == FRAMES && 0 < memory.Dir()
      && Conserved(p, memory.Ram(), dirs, memory.dirs, memory.Dir(), tables, free, memory.tables, memory.free,
           kernelHeap.base, kernelHeap.Extent(), readOnly.base, readOnly.Extent())
    }

    /** The same frames are reserved, but for `frames`, which are no longer. */
    ghost predicate FewerReserved(p: Phys, dirs: set<int>, tables: set<int>, free: seq<int>, frames: seq<int>)
      reads memory, memory.phys
    {
      && |p| == |memory.Ram()| == FRAMES && 0 < memory.Dir()
      && forall f :: Reserved(f) || f in frames <==>
           ReservedIn(p, dirs, memory.Dir(), tables, free, kernelHeap.base, kernelHeap.Extent(), readOnly.base,
             readOnly.Extent(), f)
    }

    /** No page in the self-map is marked used. */
    ghost predicate Marked(h: KernelHeap)
      reads h.heap.usageMap
    {
      && h.heap.Valid() && h.heap.pageCount < |h.heap.Colors()|
      && forall i :: h.Extent() <= i < h.heap.pageCount ==> h.heap.Colors()[i] == FREE
    }

    /** What the invariant says of a state with memory `p` in which the heap `h` has the colours `cs`,
        apart from the fields that operations change. */
    ghost predicate Before(h: KernelHeap, cs: Colors, p: Phys, dirs: set<int>, d: int, tables: set<int>, free: seq<int>)
      reads h.heap, Other(h).heap, Other(h).heap.usageMap, spaces
    {
      var other := Other(h);
      && h.memory == memory && other.memory == memory && spaces.memory == memory
      && h.heap.usageMap != other.heap.usageMap && memory.window < h.base && memory.window < other.base
      && h.Extent() <= |cs| && other.Extent() <= |other.heap.Colors()|
      && Marked(other)
      && |p| == FRAMES && (forall d :: d in dirs ==> 0 < d < FRAMES) && d in dirs
      && FreeUnmapped(p, dirs, memory.window, free)
      && Backed(cs, h.Extent(), p, dirs, d, tables, free, h.base, memory.window)
      && Backed(other.heap.Colors(), other.Extent(), p, dirs, d, tables, free, other.base, memory.window)
      && UsedApart(cs, h.Extent(), h.base, other.heap.Colors(), other.Extent(), other.base)
      && UserClear(p, dirs, d, tables, free)
      && forall aid :: aid in spaces.pageDirs ==>
           spaces.pageDirs[aid] == Address(FrameOf(spaces.pageDirs[aid])) && FrameOf(spaces.pageDirs[aid]) in dirs
    }

    ghost predicate UserClear(p: Phys, dirs: set<int>, d: int, tables: set<int>, free: seq<int>)
      requires |p| == FRAMES && 0 < d < FRAMES
      reads spaces
    {
      forall paddr: u32 :: UserFrame(spaces.userMap, paddr) ==>
        !ReservedIn(p, dirs, d, tables, free, kernelHeap.base, kernelHeap.Extent(), readOnly.base, readOnly.Extent(),
          FrameOf(paddr))
    }

    lemma Start(h: KernelHeap)
      requires Valid() && IsHeap(h)
      ensures Before(h, h.heap.Colors(), memory.Ram(), memory.dirs, memory.Dir(), memory.tables, memory.free)
      ensures h.Valid() && Marked(h)
    {
      hide UsedAt, UserFrame, FrameOf, Address, Layout, FreeChain, FreeUnmapped, Backed, UsedApart, ReservedIn, EntryAt,
        Shared, Pdi, UserApart, Unpack, CreateEntry, Wrap32, Kernel.Valid;
      Parts(h);
      memory.Inside();
    }

    /** After an operation on the heap `h` the invariant holds, the other heap is as it was, and no
        frame is lost or comes from elsewhere. */
    lemma AfterHeapStep(h: KernelHeap, cs: Colors, p: Phys, d: int, tables: set<int>, free: seq<int>, s: nat, e: nat)
      requires IsHeap(h) && Before(h, cs, p, memory.dirs, d, tables, free) && h.Valid() && d == memory.Dir()
      requires HeapStep(cs, h.heap.Colors(), h.Extent(), p, memory.Ram(), memory.dirs, d, h.base, tables, free,
                 memory.tables, memory.free, memory.window, s, e, {})
      ensures Valid() && Untouched(Other(h), p) && SameReserved(p, memory.dirs, tables, free)
    {
      hide UsedAt, UserFrame, FrameOf, Address, Layout, FreeChain, FreeUnmapped, Backed, UsedApart, EntryAt,
        Shared, Pdi, UserApart, Unpack, CreateEntry, Wrap32, HeapStep, SamePage, Conserved, ReservedIn, Kernel.Valid,
        UserOutside, Spaces.Valid;
      var other := Other(h);
      memory.Inside();
      HeapStepKeeps(cs, h.heap.Colors(), h.Extent(), h.base, other.heap.Colors(), other.Extent(), other.base, p,
        memory.Ram(), memory.dirs, d, tables, free, memory.tables, memory.free, memory.window, s, e);
      NoneHandedOut(p, memory.dirs, tables, free);
      UserKept(p, memory.dirs, d, tables, free, []);
      Whole(h);
    }

    lemma NoneHandedOut(p: Phys, dirs: set<int>, tables: set<int>, free: seq<int>)
      requires SameReserved(p, dirs, tables, free)
      ensures FewerReserved(p, dirs, tables, free, [])
    {
      hide ReservedIn;
    }

    /** As no more frames are reserved, the user's memory is still apart from them. */
    lemma UserKept(p: Phys, dirs: set<int>, d: int, tables: set<int>, free: seq<int>, frames: seq<int>)
      requires memory.Valid() && spaces.memory == memory && d == memory.Dir() && |p| == FRAMES && 0 < d < FRAMES
      requires dirs <= memory.dirs && UserClear(p, dirs, d, tables, free)
      requires FewerReserved(p, dirs, tables, free, frames)
      requires forall aid :: aid in spaces.pageDirs ==>
                 spaces.pageDirs[aid] == Address(FrameOf(spaces.pageDirs[aid])) && FrameOf(spaces.pageDirs[aid]) in dirs
      ensures spaces.Valid() && UserOutside()
    {
      hide UserFrame, FrameOf, Address, Layout, FreeChain, FreeUnmapped, EntryAt, Shared, Pdi, CreateEntry, Wrap32,
        BehindRange, Memory.Valid;
    }

    // ---------- operations on a heap ----------

    /** The pages have these frames since memory was `p`, and no other page changed. */
    ghost predicate PagesMapped(p: Phys, page: nat, frames: seq<int>, flags: FlagBits)
      reads memory, memory.phys
    {
      && |p| == |memory.Ram()| == FRAMES && (forall d :: d in memory.dirs ==> 0 < d < FRAMES)
      && memory.Dir() in memory.dirs && AllInRange(frames) && page + |frames| <= TABLES_PAGE
      && RangeMapped(p, memory.Ram(), memory.dirs, memory.Dir(), page, EntriesFor(frames, flags), memory.window)
    }

    /** The pages have lost their frames, which head the list of free frames, since memory was `p`. */
    ghost predicate PagesFreed(p: Phys, free: seq<int>, page: nat, len: nat)
      reads memory, memory.phys
    {
      && |p| == |memory.Ram()| == FRAMES && (forall d :: d in memory.dirs ==> 0 < d < FRAMES)
      && memory.Dir() in memory.dirs && page + len <= TABLES_PAGE
      && RangeFreed(p, memory.Ram(), memory.dirs, memory.Dir(), memory.tables, free, memory.free, page, len,
           memory.window)
    }

    /** `mem_alloc` on one of the heaps. */
    method MemAlloc(h: KernelHeap, pages: u32, flags: FlagBits) returns (r: Outcome<nat>, ghost frames: seq<int>)
      requires Valid() && IsHeap(h)
      modifies memory`freeFramePaddr, memory`usedFrames, memory`free, memory`tables, memory.phys, h.heap.usageMap
      ensures r.Return? <==>
        && pages > 0
        && Servable(old(h.heap.Colors()), h.heap.pageCount, old(memory.Ram()), memory.Dir(), h.base, pages, flags,
             |old(memory.free)|)
      ensures r.Return? ==>
        && Valid() && r.value !in old(h.heap.Blocks()) && h.heap.Blocks() == old(h.heap.Blocks())[r.value := pages]
        && |frames| == pages && PagesMapped(old(memory.Ram()), h.base + r.value, frames, flags)
        && OthersSame(h.Extent(), old(memory.Ram()), memory.Ram(), memory.Dir(), h.base, r.value, r.value)
        && Untouched(Other(h), old(memory.Ram()))
        && SameReserved(old(memory.Ram()), memory.dirs, old(memory.tables), old(memory.free))
    {
      hide FrameOf, Pdi, Present, EntryAt, Layout, FreeChain, Shared, FreeUnmapped, RangeMapped, Backed, OthersSame,
        StraySame, ElsewhereSame, FramesFlow, FramesTaken, FirstFit, Servable, Unmapped, Allocations, Unpack, Before,
        Kernel.Valid, UsedAt, KernelHeap.Valid, Memory.Valid, SameReserved, Untouched;
      ghost var cs, p, tables, free := h.heap.Colors(), memory.Ram(), memory.tables, memory.free;
      Start(h);
      Parts(h);
      r, frames := h.MemAlloc(pages, flags);
      if r.Panic? {
        return;
      }
      AfterHeapStep(h, cs, p, memory.Dir(), tables, free, r.value, r.value);
      Parts(h);
      memory.Inside();
    }

    /** `mem_realloc` on one of the heaps. */
    method MemRealloc(h: KernelHeap, start: nat, pages: u32) returns (r: Outcome<nat>)
      requires Valid() && IsHeap(h) && start < h.heap.pageCount && h.heap.Scannable(start, pages)
      requires Head(h.heap.Colors(), start) || h.heap.Colors()[start] == FREE
      modifies memory`freeFramePaddr, memory`usedFrames, memory`free, memory`tables, memory.phys, h.heap.usageMap
      ensures r.Return? <==>
        && pages > 0 && old(h.heap.Colors())[start] != FREE
        && Resizable(old(h.heap.Colors()), h.heap.pageCount, old(memory.Ram()), memory.Dir(), h.base, start, pages,
             |old(memory.free)|)
      ensures r.Return? ==>
        var cs := old(h.heap.Colors());
        && Valid() && start in old(h.heap.Blocks()) && old(h.heap.Blocks())[start] == RunLength(cs, start)
        && h.heap.Blocks() == (old(h.heap.Blocks()) - {start})[r.value := pages]
        && h.Resettled(cs, h.heap.Colors(), old(memory.Ram()), old(memory.tables), old(memory.free), start,
             RunLength(cs, start), r.value, pages)
        && Untouched(Other(h), old(memory.Ram()))
        && SameReserved(old(memory.Ram()), memory.dirs, old(memory.tables), old(memory.free))
    {
      hide FrameOf, Pdi, Present, EntryAt, Layout, FreeChain, Shared, FreeUnmapped, Backed, OthersSame, StraySame,
        ElsewhereSame, FramesFlow, Resizable, Allocations, Unpack, Before, Kernel.Valid, UsedAt, KernelHeap.Valid,
        Memory.Valid, SameReserved, Untouched, RunLength, Head, SameContents, SameFlags;
      ghost var cs, p, tables, free := h.heap.Colors(), memory.Ram(), memory.tables, memory.free;
      Start(h);
      Parts(h);
      r := h.MemRealloc(start, pages);
      if r.Panic? {
        return;
      }
      RunIsUsed(cs, start);
      AfterHeapStep(h, cs, p, memory.Dir(), tables, free, start, start + RunLength(cs, start));
    }

    /** `mem_free` on one of the heaps. */
    method MemFree(h: KernelHeap, start: nat) returns (r: Outcome<()>)
      requires Valid() && IsHeap(h) && start < h.heap.pageCount
      modifies memory`freeFramePaddr, memory`usedFrames, memory`free, memory.phys, h.heap.usageMap
      ensures r.Panic? <==> old(h.heap.Colors())[start] == FREE
      ensures r.Return? ==>
        var len := RunLength(old(h.heap.Colors()), start);
        && Valid() && start + len <= h.Extent()
        && PagesFreed(old(memory.Ram()), old(memory.free), h.base + start, len)
        && OthersSame(h.Extent(), old(memory.Ram()), memory.Ram(), memory.Dir(), h.base, start, start + len)
        && Untouched(Other(h), old(memory.Ram()))
        && SameReserved(old(memory.Ram()), memory.dirs, memory.tables, old(memory.free))
      ensures Head(old(h.heap.Colors()), start) ==>
        start in old(h.heap.Blocks()) && h.heap.Blocks() == old(h.heap.Blocks()) - {start}
    {
      hide FrameOf, Pdi, Present, EntryAt, Layout, FreeChain, Shared, FreeUnmapped, RangeFreed, Backed, OthersSame,
        StraySame, ElsewhereSame, FramesFlow, Allocations, Unpack, Before, Kernel.Valid, UsedAt, KernelHeap.Valid,
        Memory.Valid, SameReserved, Untouched, RunLength, Head;
      ghost var cs, p, free := h.heap.Colors(), memory.Ram(), memory.free;
      Start(h);
      Parts(h);
      r := h.MemFree(start);
      if r.Panic? {
        return;
      }
      RunIsUsed(cs, start);
      AfterHeapStep(h, cs, p, memory.Dir(), memory.tables, free, start, start + RunLength(cs, start));
      Parts(h);
      memory.Inside();
    }

    // ---------- new address spaces ----------

    /** The space `f` has the kernel's part of the current one, and its making, since memory was `p`,
        changed no page of the kernel's heap. */
    ghost predicate MadeSpace(f: int, p: Phys)
      reads memory, memory.phys
    {
      && 0 < f < FRAMES && |memory.Ram()| == |p| == FRAMES && 0 < memory.Dir()
      && NewSpace(memory.Ram(), memory.Dir(), f) && SameShared(memory.Ram(), memory.Dir(), f)
      && OthersSame(kernelHeap.Extent(), p, memory.Ram(), memory.Dir(), kernelHeap.base, 0, 0)
    }

    lemma AfterNewSpace(cs: Colors, p: Phys, dirs: set<int>, d: int, tables: set<int>, free: seq<int>, f: int)
      requires Before(kernelHeap, cs, p, dirs, d, tables, free) && kernelHeap.Valid() && d == memory.Dir()
      requires 0 < f < FRAMES && f in free && memory.dirs == dirs + {f}
      requires NewSpace(memory.Ram(), d, f) && SameShared(memory.Ram(), d, f)
      requires HeapStep(cs, kernelHeap.heap.Colors(), kernelHeap.Extent(), p, memory.Ram(), dirs, d, kernelHeap.base,
                 tables, free, memory.tables, memory.free, memory.window, 0, 0, {f})
      ensures Valid() && Untouched(readOnly, p) && SameReserved(p, dirs, tables, free)
    {
      hide UsedAt, UserFrame, FrameOf, Address, Layout, FreeChain, FreeUnmapped, Backed, UsedApart, EntryAt,
        Shared, Pdi, UserApart, Unpack, CreateEntry, Wrap32, HeapStep, SamePage, Conserved, ReservedIn, Kernel.Valid,
        UserOutside, Spaces.Valid, NewSpace, SameShared;
      memory.Inside();
      NewSpaceKeeps(cs, kernelHeap.heap.Colors(), kernelHeap.Extent(), kernelHeap.base, readOnly.heap.Colors(),
        readOnly.Extent(), readOnly.base, p, memory.Ram(), dirs, d, tables, free, memory.tables, memory.free,
        memory.window, f);
      NoneHandedOut(p, dirs, tables, free);
      UserKept(p, dirs, d, tables, free, []);
      Whole(kernelHeap);
    }

    /** A new page directory for a process, as `process_init` makes it. */
    method AddSpace(aid: u16) returns (r: Outcome<u32>)
      requires Valid()
      modifies memory`freeFramePaddr, memory`usedFrames, memory`free, memory`tables, memory`dirs, memory.phys,
        kernelHeap.heap.usageMap, spaces`pageDirs
      ensures r.Return? <==>
        Servable(old(kernelHeap.heap.Colors()), kernelHeap.heap.pageCount, old(memory.Ram()), memory.Dir(),
          kernelHeap.base, 1, WRITABLE, |old(memory.free)|)
      ensures r.Return? ==>
        var f := FrameOf(r.value);
        && Valid() && kernelHeap.heap.Blocks() == old(kernelHeap.heap.Blocks())
        && spaces.pageDirs == old(spaces.pageDirs)[aid := r.value]
        && r.value == Address(f) && f in old(memory.free) && memory.dirs == old(memory.dirs) + {f}
        && MadeSpace(f, old(memory.Ram())) && Untouched(readOnly, old(memory.Ram()))
        && SameReserved(old(memory.Ram()), old(memory.dirs), old(memory.tables), old(memory.free))
    {
      hide FrameOf, Pdi, Present, EntryAt, Layout, FreeChain, Shared, FreeUnmapped, Backed, OthersSame, StraySame,
        ElsewhereSame, FramesFlow, Servable, Allocations, Unpack, Before, Kernel.Valid, UsedAt, KernelHeap.Valid,
        Memory.Valid, SameReserved, Untouched, NewSpace, SameShared, Address, Spaces.Valid, UserFrame, Reserved;
      ghost var cs, p, tables, free := kernelHeap.heap.Colors(), memory.Ram(), memory.tables, memory.free;
      ghost var dirs := memory.dirs;
      Start(kernelHeap);
      Parts(kernelHeap);
      r := kernelHeap.NewPageDir();
      if r.Panic? {
        return;
      }
      AfterNewSpace(cs, p, dirs, memory.Dir(), tables, free, FrameOf(r.value));
      Parts(kernelHeap);
      spaces.AddProcess(aid, r.value);
      Whole(kernelHeap);
    }

    // ---------- system calls on address spaces ----------

    /** The pages of a range are in no heap. */
    ghost predicate OutsideHeaps(vaddr: u32, n: nat) {
      && RangesApart(PageOf(vaddr), n, kernelHeap.base, kernelHeap.Extent())
      && RangesApart(PageOf(vaddr), n, readOnly.base, readOnly.Extent())
    }

    /** The two steps of a call, as the two heaps see them. */
    ghost predicate BothStep(p: Phys, p': Phys, dirs: set<int>, d: int, tables: set<int>, free: seq<int>,
                             tables': set<int>, free': seq<int>, frames: seq<int>)
    {
      && |p| == |p'| == FRAMES && (forall d :: d in dirs ==> 0 < d < FRAMES) && d in dirs
      && CallStep(p, p', dirs, d, tables, free, tables', free', frames, kernelHeap.base, kernelHeap.Extent(),
           memory.window)
      && CallStep(p, p', dirs, d, tables, free, tables', free', frames, readOnly.base, readOnly.Extent(),
           memory.window)
    }

    lemma AfterCall(cs: Colors, p: Phys, d: int, tables: set<int>, free: seq<int>, frames: seq<int>)
      requires Before(kernelHeap, cs, p, memory.dirs, d, tables, free) && d == memory.Dir() && memory.Valid()
      requires cs == kernelHeap.heap.Colors() && Marked(kernelHeap)
      requires BothStep(p, memory.Ram(), memory.dirs, d, tables, free, memory.tables, memory.free, frames)
      ensures Valid() && Untouched(kernelHeap, p) && Untouched(readOnly, p)
      ensures FewerReserved(p, memory.dirs, tables, free, frames)
      ensures frames == [] ==> SameReserved(p, memory.dirs, tables, free)
    {
      hide UsedAt, UserFrame, FrameOf, Address, Layout, FreeChain, FreeUnmapped, Backed, UsedApart, EntryAt,
        Shared, Pdi, UserApart, Unpack, CreateEntry, Wrap32, SamePage, ReservedIn, Kernel.Valid, CallStep,
        UserOutside, Spaces.Valid, Memory.Valid;
      memory.Inside();
      HeapLeftAlone(cs, kernelHeap.Extent(), p, memory.Ram(), memory.dirs, d, tables, free, memory.tables, memory.free,
        frames, kernelHeap.base, memory.window);
      HeapLeftAlone(readOnly.heap.Colors(), readOnly.Extent(), p, memory.Ram(), memory.dirs, d, tables, free,
        memory.tables, memory.free, frames, readOnly.base, memory.window);
      forall f | true
        ensures Reserved(f) || f in frames <==>
          ReservedIn(p, memory.dirs, d, tables, free, kernelHeap.base, kernelHeap.Extent(), readOnly.base,
            readOnly.Extent(), f)
      {
        CallConserves(p, memory.Ram(), memory.dirs, d, tables, free, memory.tables, memory.free, frames,
          kernelHeap.base, kernelHeap.Extent(), readOnly.base, readOnly.Extent(), memory.window, f);
      }
      UserKept(p, memory.dirs, d, tables, free, frames);
      Whole(kernelHeap);
    }

    /** Frames of the user's memory are not behind the heaps. */
    lemma UserNotBehind(p: Phys, dirs: set<int>, d: int, tables: set<int>, free: seq<int>, paddrs: seq<u32>)
      requires |p| == FRAMES && 0 < d < FRAMES && UserClear(p, dirs, d, tables, free)
      requires forall k :: 0 <= k < |paddrs| ==> UserFrame(spaces.userMap, paddrs[k])
      ensures forall k :: 0 <= k < |paddrs| ==>
                && !BehindRange(p, d, kernelHeap.base, kernelHeap.Extent(), FrameOf(paddrs[k]))
                && !BehindRange(p, d, readOnly.base, readOnly.Extent(), FrameOf(paddrs[k]))
    {
      hide UserFrame, FrameOf, BehindRange;
    }

    lemma MapBoth(cs: Colors, p: Phys, p': Phys, dirs: set<int>, d: int, tables: set<int>, free: seq<int>,
                  tables': set<int>, free': seq<int>, dd: int, vaddr: u32, paddrs: seq<u32>, flags: FlagBits)
      requires Before(kernelHeap, cs, p, dirs, d, tables, free) && OutsideHeaps(vaddr, |paddrs|)
      requires MapResult(Return(NO_ERROR), p, p', dirs, dd, PageOf(vaddr), paddrs, spaces.userMap, flags, memory.window,
                 free, tables, free', tables')
      ensures BothStep(p, p', dirs, d, tables, free, tables', free', [])
    {
      hide UsedAt, UserFrame, FrameOf, Address, FreeUnmapped, Backed, UsedApart, EntryAt, Pdi, Unpack, ReservedIn,
        CallStep, MappedSoFar, CanMap, Unmapped, BehindRange, PageOf, Marked;
      NoMapError(p, dd, PageOf(vaddr), paddrs, spaces.userMap, 0);
      UserNotBehind(p, dirs, d, tables, free, paddrs);
      MapStep(p, p', dirs, d, tables, free, tables', free', kernelHeap.base, kernelHeap.Extent(), memory.window, dd,
        PageOf(vaddr), paddrs, flags);
      MapStep(p, p', dirs, d, tables, free, tables', free', readOnly.base, readOnly.Extent(), memory.window, dd,
        PageOf(vaddr), paddrs, flags);
    }

    /** `syscall_virt_map` for pages outside the heaps. */
    method VirtMap(aid: u32, vaddr: u32, paddrPtr: u32, paddr: array<u32>, n: u32, flags: u32) returns (r: Outcome<u32>)
      requires Valid()
      requires spaces.Known(aid) ==> spaces.Reachable(vaddr, n) && OutsideHeaps(vaddr, n) && n <= paddr.Length
      modifies memory, memory.phys
      ensures r.Return? ==>
        && Valid() && memory.currentPageDir == old(memory.currentPageDir) && memory.dirs == old(memory.dirs)
        && Untouched(kernelHeap, old(memory.Ram())) && Untouched(readOnly, old(memory.Ram()))
        && SameReserved(old(memory.Ram()), memory.dirs, old(memory.tables), old(memory.free))
      ensures var e := old(spaces.CallerEntry(paddrPtr));
        if !spaces.Known(aid) then r == Return(1)
        else if !(e % 2 == 1 && e / 4 % 2 == 1) then r == Return(3)
        else MapOutcome(r, old(memory.Ram()), memory.Ram(), FrameOf(spaces.pageDirs[aid]), vaddr / 4096,
          old(paddr[..n]), spaces.userMap, flags % 2 == 1)
      ensures spaces.Known(aid) && UserReadable(old(spaces.CallerEntry(paddrPtr))) ==>
        MapResult(r, old(memory.Ram()), memory.Ram(), old(memory.dirs), FrameOf(spaces.pageDirs[aid]),
          PageOf(vaddr), old(paddr[..n]), spaces.userMap, PteFlags(flags), memory.window, old(memory.free),
          old(memory.tables), memory.free, memory.tables)
    {
      hide FrameOf, Pdi, Present, EntryAt, Layout, FreeChain, Shared, FreeUnmapped, Backed, Unpack, Before,
        Kernel.Valid, UsedAt, KernelHeap.Valid, Memory.Valid, SameReserved, Untouched, MapResult, UserReadable, PageOf,
        UserApart, PteFlags, Spaces.CallerEntry, Spaces.Reachable, BothStep, OutsideHeaps, Marked, UserFrame,
        MapOutcome;
      AccessBits(spaces.CallerEntry(paddrPtr));
      ghost var cs, p, tables, free := kernelHeap.heap.Colors(), memory.Ram(), memory.tables, memory.free;
      Start(kernelHeap);
      Parts(kernelHeap);
      r := spaces.VirtMap(aid, vaddr, paddrPtr, paddr, n, flags);
      if r.Panic? {
        return;
      }
      if r.value != NO_ERROR {
        NothingBoth(cs, p, memory.dirs, memory.Dir(), tables, free);
      } else {
        MapBoth(cs, p, memory.Ram(), memory.dirs, memory.Dir(), tables, free, memory.tables, memory.free,
          FrameOf(spaces.pageDirs[aid]), vaddr, old(paddr[..n]), PteFlags(flags));
      }
      AfterCall(cs, p, memory.Dir(), tables, free, []);
    }

    lemma NothingBoth(cs: Colors, p: Phys, dirs: set<int>, d: int, tables: set<int>, free: seq<int>)
      requires Before(kernelHeap, cs, p, dirs, d, tables, free)
      ensures BothStep(p, p, dirs, d, tables, free, tables, free, [])
    {
      hide UsedAt, UserFrame, FrameOf, Address, FreeUnmapped, Backed, UsedApart, EntryAt, Pdi, Unpack, ReservedIn,
        CallStep, Marked;
      NothingStep(p, dirs, d, tables, free, kernelHeap.base, kernelHeap.Extent(), memory.window);
      NothingStep(p, dirs, d, tables, free, readOnly.base, readOnly.Extent(), memory.window);
    }

    lemma UnmapBoth(cs: Colors, p: Phys, p': Phys, dirs: set<int>, d: int, tables: set<int>, free: seq<int>, dd: int,
                    vaddr: u32, n: u32, paddrs: seq<u32>)
      requires Before(kernelHeap, cs, p, dirs, d, tables, free) && OutsideHeaps(vaddr, n)
      requires Layout(p, dirs, tables, free, Pdi(memory.window))
      requires UnmapResult(NO_ERROR, p, p', dirs, dd, PageOf(vaddr), n, paddrs)
      ensures BothStep(p, p', dirs, d, tables, free, tables, free, [])
    {
      hide UsedAt, UserFrame, FrameOf, Address, FreeUnmapped, Backed, UsedApart, EntryAt, Pdi, Unpack, ReservedIn,
        CallStep, Mapped, BehindRange, PageOf, Marked, UserClear, Layout, RangeWritten, Zeroed, Paddrs, EntriesAt;
      TablesKnownOf(p, dirs, tables, free, Pdi(memory.window), dd);
      UnmapStep(p, p', dirs, d, tables, free, kernelHeap.base, kernelHeap.Extent(), memory.window, dd, PageOf(vaddr),
        n);
      UnmapStep(p, p', dirs, d, tables, free, readOnly.base, readOnly.Extent(), memory.window, dd, PageOf(vaddr), n);
    }

    /** `syscall_virt_unmap` for pages outside the heaps. */
    method VirtUnmap(aid: u32, vaddr: u32, paddrPtr: u32, paddr: array<u32>, n: u32) returns (error: u32)
      requires Valid()
      requires spaces.Known(aid) ==> spaces.Reachable(vaddr, n) && OutsideHeaps(vaddr, n) && n <= paddr.Length
      modifies memory, memory.phys, paddr
      ensures Valid() && memory.currentPageDir == old(memory.currentPageDir) && memory.dirs == old(memory.dirs)
      ensures Untouched(kernelHeap, old(memory.Ram())) && Untouched(readOnly, old(memory.Ram()))
      ensures SameReserved(old(memory.Ram()), memory.dirs, old(memory.tables), old(memory.free))
      ensures var e := old(spaces.CallerEntry(paddrPtr));
        if !spaces.Known(aid) then error == 1 && memory.Ram() == old(memory.Ram())
        else if !(e % 2 == 1 && e / 2 % 2 == 1 && e / 4 % 2 == 1) then error == 3 && memory.Ram() == old(memory.Ram())
        else UnmapOutcome(error, old(memory.Ram()), memory.Ram(), FrameOf(spaces.pageDirs[aid]), vaddr / 4096, n,
          paddr[..n])
      ensures spaces.Known(aid) && UserWritable(old(spaces.CallerEntry(paddrPtr))) ==>
        UnmapResult(error, old(memory.Ram()), memory.Ram(), memory.dirs, FrameOf(spaces.pageDirs[aid]),
          PageOf(vaddr), n, paddr[..n])
    {
      hide FrameOf, Pdi, Present, EntryAt, Layout, FreeChain, Shared, FreeUnmapped, Backed, Unpack, Before,
        Kernel.Valid, UsedAt, KernelHeap.Valid, Memory.Valid, SameReserved, Untouched, UnmapResult, UserWritable,
        PageOf, UserApart, Spaces.CallerEntry, Spaces.Reachable, BothStep, OutsideHeaps, Marked, UserFrame,
        UnmapOutcome;
      AccessBits(spaces.CallerEntry(paddrPtr));
      ghost var cs, p, tables, free := kernelHeap.heap.Colors(), memory.Ram(), memory.tables, memory.free;
      Start(kernelHeap);
      Parts(kernelHeap);
      memory.Inside();
      error := spaces.VirtUnmap(aid, vaddr, paddrPtr, paddr, n);
      if error != NO_ERROR {
        NothingBoth(cs, p, memory.dirs, memory.Dir(), tables, free);
      } else {
        UnmapBoth(cs, p, memory.Ram(), memory.dirs, memory.Dir(), tables, free, FrameOf(spaces.pageDirs[aid]), vaddr, n,
          paddr[..n]);
      }
      AfterCall(cs, p, memory.Dir(), tables, free, []);
    }

    lemma TransferBoth(cs: Colors, p: Phys, p': Phys, dirs: set<int>, d: int, tables: set<int>, free: seq<int>,
                       tables': set<int>, free': seq<int>, ds: int, dd: int, vsrc: u32, vdst: u32, n: u32)
      requires Before(kernelHeap, cs, p, dirs, d, tables, free) && spaces.Reachable(vsrc, n)
      requires OutsideHeaps(vsrc, n) && OutsideHeaps(vdst, n)
      requires TransferResult(Return(NO_ERROR), p, p', dirs, ds, dd, PageOf(vsrc), PageOf(vdst), n, memory.window, free,
                 tables, free', tables')
      ensures BothStep(p, p', dirs, d, tables, free, tables', free', [])
    {
      hide UsedAt, UserFrame, FrameOf, Address, FreeUnmapped, UsedApart, EntryAt, Pdi, Unpack, ReservedIn, CallStep,
        Mapped, BehindRange, PageOf, Marked, UserClear, Transferred, Room, UserTables, CanMapEntries, SlotsStay,
        Freeable, UsedPresent, FramesTaken, SameFrames, Pages;
      TransferStep(p, p', dirs, d, tables, free, tables', free', kernelHeap.base, kernelHeap.Extent(), memory.window,
        ds, dd, PageOf(vsrc), PageOf(vdst), n);
      TransferStep(p, p', dirs, d, tables, free, tables', free', readOnly.base, readOnly.Extent(), memory.window, ds,
        dd, PageOf(vsrc), PageOf(vdst), n);
    }

    /** `syscall_virt_transfer` for pages outside the heaps. */
    method VirtTransfer(vsrc: u32, vdst: u32, aidPair: u32, n: u32, temp: array<u32>) returns (r: Outcome<u32>)
      requires Valid() && temp.Length == TEMP_ENTRIES
      requires n <= TEMP_ENTRIES && spaces.BothKnown(aidPair) ==>
        && spaces.Reachable(vsrc, n) && spaces.Reachable(vdst, n) && OutsideHeaps(vsrc, n) && OutsideHeaps(vdst, n)
      modifies memory, memory.phys, temp
      ensures r.Return? ==>
        && Valid() && memory.currentPageDir == old(memory.currentPageDir) && memory.dirs == old(memory.dirs)
        && Untouched(kernelHeap, old(memory.Ram())) && Untouched(readOnly, old(memory.Ram()))
        && SameReserved(old(memory.Ram()), memory.dirs, old(memory.tables), old(memory.free))
      ensures var source, target := aidPair % TWO_TO_THE_16, aidPair / TWO_TO_THE_16;
        if n > 2048 then r == Return(3) && memory.Ram() == old(memory.Ram())
        else if !spaces.BothKnown(aidPair) then r == Return(1) && memory.Ram() == old(memory.Ram())
        else
          && TransferOutcome(r, old(memory.Ram()), memory.Ram(), FrameOf(spaces.pageDirs[source]),
               FrameOf(spaces.pageDirs[target]), vsrc / 4096, vdst / 4096, n, memory.window)
          && TransferResult(r, old(memory.Ram()), memory.Ram(), old(memory.dirs), FrameOf(spaces.pageDirs[source]),
               FrameOf(spaces.pageDirs[target]), PageOf(vsrc), PageOf(vdst), n, memory.window, old(memory.free),
               old(memory.tables), memory.free, memory.tables)
    {
      hide FrameOf, Pdi, Present, EntryAt, Layout, FreeChain, Shared, FreeUnmapped, Backed, Unpack, Before,
        Kernel.Valid, UsedAt, KernelHeap.Valid, Memory.Valid, SameReserved, Untouched, TransferResult, PageOf,
        UserApart, Spaces.Reachable, BothStep, OutsideHeaps, Marked, UserFrame, TransferOutcome;
      ghost var cs, p, tables, free := kernelHeap.heap.Colors(), memory.Ram(), memory.tables, memory.free;
      Start(kernelHeap);
      Parts(kernelHeap);
      r := spaces.VirtTransfer(vsrc, vdst, aidPair, n, temp);
      if r.Panic? {
        return;
      }
      if r.value != NO_ERROR {
        NothingBoth(cs, p, memory.dirs, memory.Dir(), tables, free);
      } else {
        TransferBoth(cs, p, memory.Ram(), memory.dirs, memory.Dir(), tables, free, memory.tables, memory.free,
          FrameOf(spaces.pageDirs[aidPair % TWO_TO_THE_16]), FrameOf(spaces.pageDirs[aidPair / TWO_TO_THE_16]), vsrc,
          vdst, n);
      }
      AfterCall(cs, p, memory.Dir(), tables, free, []);
    }

    // ---------- pages for programs, and the current space ----------

    lemma AllocBoth(cs: Colors, p: Phys, p': Phys, dirs: set<int>, d: int, tables: set<int>, free: seq<int>,
                    tables': set<int>, free': seq<int>, page: Page, frames: seq<int>, flags: FlagBits)
      requires Before(kernelHeap, cs, p, dirs, d, tables, free) && page + |frames| <= TABLES_PAGE && |p'| == FRAMES
      requires RangesApart(page, |frames|, kernelHeap.base, kernelHeap.Extent())
      requires RangesApart(page, |frames|, readOnly.base, readOnly.Extent())
      requires FramesTaken(free, tables, free', tables', frames) && SameFrames(p, p', dirs + tables')
      requires RangeMapped(p, p', dirs, d, page, EntriesFor(frames, flags), memory.window)
      ensures BothStep(p, p', dirs, d, tables, free, tables', free', frames)
    {
      hide UsedAt, UserFrame, FrameOf, Address, FreeUnmapped, UsedApart, EntryAt, Pdi, Unpack, ReservedIn, CallStep,
        Marked, UserClear, Freeable, UsedPresent, SameFrames, RangeMapped, NoDuplicates;
      AllocStep(p, p', dirs, d, tables, free, tables', free', frames, kernelHeap.base, kernelHeap.Extent(),
        memory.window, page, flags);
      AllocStep(p, p', dirs, d, tables, free, tables', free', frames, readOnly.base, readOnly.Extent(), memory.window,
        page, flags);
    }

    /** `alloc_pages` for pages of the current space outside the heaps, as programs get them. The kernel
        gives up exactly the frames behind these pages. */
    method AllocPagesFor(page: Page, flags: FlagBits, count: nat) returns (r: Outcome<()>, ghost frames: seq<int>)
      requires Valid() && page <= TABLES_PAGE && memory.window !in Pages(page, count)
      requires RangesApart(page, count, kernelHeap.base, kernelHeap.Extent())
      requires RangesApart(page, count, readOnly.base, readOnly.Extent())
      modifies memory`freeFramePaddr, memory`usedFrames, memory`free, memory`tables, memory.phys
      ensures r.Return? <==> Allocatable(old(memory.Ram()), memory.Dir(), page, count, flags, |old(memory.free)|)
      ensures r.Return? ==>
        && Valid() && |frames| == count && PagesMapped(old(memory.Ram()), page, frames, flags)
        && Untouched(kernelHeap, old(memory.Ram())) && Untouched(readOnly, old(memory.Ram()))
        && FewerReserved(old(memory.Ram()), memory.dirs, old(memory.tables), old(memory.free), frames)
        && forall f :: f in frames ==> !Reserved(f)
    {
      hide FrameOf, Pdi, Present, EntryAt, Layout, FreeChain, Shared, FreeUnmapped, Backed, Unpack, Before,
        Kernel.Valid, UsedAt, KernelHeap.Valid, Memory.Valid, SameReserved, FewerReserved, Untouched, UserApart,
        BothStep, Marked, UserFrame, Allocatable, RangeMapped, EntriesFor, SameFrames, FramesTaken, Reserved, CallStep;
      ghost var cs, p, tables, free := kernelHeap.heap.Colors(), memory.Ram(), memory.tables, memory.free;
      Start(kernelHeap);
      Parts(kernelHeap);
      memory.Inside();
      r, frames := AllocPages(memory, page, flags, count);
      if r.Panic? {
        return;
      }
      memory.Inside();
      LayoutApart(p, memory.dirs, tables, free, Pdi(memory.window));
      AllocBoth(cs, p, memory.Ram(), memory.dirs, memory.Dir(), tables, free, memory.tables, memory.free, page, frames,
        flags);
      AfterCall(cs, p, memory.Dir(), tables, free, frames);
      NotReserved(cs, p, tables, free, frames);
    }

    lemma NotReserved(cs: Colors, p: Phys, tables: set<int>, free: seq<int>, frames: seq<int>)
      requires Before(kernelHeap, cs, p, memory.dirs, memory.Dir(), tables, free)
      requires FramesApart(memory.dirs, tables, free)
      requires BothStep(p, memory.Ram(), memory.dirs, memory.Dir(), tables, free, memory.tables, memory.free, frames)
      ensures forall f :: f in frames ==> !Reserved(f)
    {
      hide UsedAt, UserFrame, FrameOf, Address, FreeUnmapped, UsedApart, EntryAt, Pdi, Unpack, ReservedIn, CallStep,
        Marked, UserClear, Freeable, UsedPresent, FramesApart;
      forall f | f in frames ensures !Reserved(f) {
        HandedOut(p, memory.Ram(), memory.dirs, memory.Dir(), tables, free, memory.tables, memory.free, frames,
          kernelHeap.base, kernelHeap.Extent(), readOnly.base, readOnly.Extent(), memory.window, f);
      }
    }

    /** Makes another space the current one, as every switch between processes does. If it has the same
        tables for the heaps, they are backed there by the same frames. */
    method SetPageDir(paddr: u32)
      requires Valid() && spaces.Directory(paddr) && SharesHeaps(FrameOf(paddr))
      modifies memory`currentPageDir
      ensures Valid() && memory.currentPageDir == paddr && forall f :: Reserved(f) <==> old(Reserved(f))
    {
      hide UsedAt, UserFrame, FrameOf, Address, Layout, FreeChain, FreeUnmapped, Backed, UsedApart, EntryAt, Shared,
        Pdi, UserApart, Unpack, CreateEntry, Wrap32, Kernel.Valid, BehindRange, SameSlots;
      ghost var p, d, f := memory.Ram(), memory.Dir(), FrameOf(paddr);
      Parts(kernelHeap);
      memory.Inside();
      SwitchKeeps(kernelHeap.heap.Colors(), kernelHeap.Extent(), p, memory.dirs, d, f, memory.tables, memory.free,
        kernelHeap.base, memory.window);
      SwitchKeeps(readOnly.heap.Colors(), readOnly.Extent(), p, memory.dirs, d, f, memory.tables, memory.free,
        readOnly.base, memory.window);
      memory.SetPageDir(paddr);
      Whole(kernelHeap);
    }

    /** The space has the current one's tables for all pages of the heaps. */
    ghost predicate SharesHeaps(f: int)
      reads memory, memory.phys
    {
      && |memory.Ram()| == FRAMES && 0 < memory.Dir() && 0 < f < FRAMES
      && SameSlots(memory.Ram(), memory.Dir(), f, kernelHeap.base, kernelHeap.Extent())
      && SameSlots(memory.Ram(), memory.Dir(), f, readOnly.base, readOnly.Extent())
    }
  }
}
