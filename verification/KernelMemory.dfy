/** Allocation of kernel memory (src/memory/mem.c:466-561): the heap, the page tables and the list
    of free frames together. */
module KernelMemory {
  import opened Words
  import opened Entries
  import opened PageTables
  import opened Paging
  import opened HeapRuns
  import opened Heaps
  import opened PageRanges
  import opened BackedHeap
  import opened FrameFlow
  import opened CopyPages
  import opened NewSpaces

  lemma FirstFitUnique(cs: Colors, n: nat, need: nat, r: nat, s: nat)
    requires FirstFit(cs, n, need, r) && FirstFit(cs, n, need, s)
    ensures r == s
  {
  }

  lemma NoFitNoFirst(cs: Colors, n: nat, need: nat, r: nat)
    requires NoFit(cs, n, need)
    ensures !FirstFit(cs, n, need, r)
  {
  }

  /** An allocation can be served: its first fit exists and its pages can get frames. */
  ghost predicate Servable(cs: Colors, n: nat, p: Phys, d: int, base: nat, pages: nat, flags: FlagBits, free: nat)
    requires |p| == FRAMES && 0 < d < FRAMES
  {
    exists s: nat :: FirstFit(cs, n, pages, s) && Allocatable(p, d, base + s, pages, flags, free)
  }

  lemma ServableAt(cs: Colors, n: nat, p: Phys, d: int, base: nat, pages: nat, flags: FlagBits, free: nat, s: nat)
    requires |p| == FRAMES && 0 < d < FRAMES && FirstFit(cs, n, pages, s)
    ensures Servable(cs, n, p, d, base, pages, flags, free) <==> Allocatable(p, d, base + s, pages, flags, free)
  {
    hide Allocatable;
    forall r: nat | FirstFit(cs, n, pages, r) ensures r == s { FirstFitUnique(cs, n, pages, r, s); }
  }

  lemma NotServable(cs: Colors, n: nat, p: Phys, d: int, base: nat, pages: nat, flags: FlagBits, free: nat)
    requires |p| == FRAMES && 0 < d < FRAMES && NoFit(cs, n, pages)
    ensures !Servable(cs, n, p, d, base, pages, flags, free)
  {
    hide Allocatable;
    forall r: nat ensures !FirstFit(cs, n, pages, r) { NoFitNoFirst(cs, n, pages, r); }
  }

  /** A first fit starts before the free pages at the end of a heap, or where they do. */
  lemma FitStarts(cs: Colors, n: nat, need: nat, s: nat, e: nat)
    requires FirstFit(cs, n, need, s) && need > 0 && e <= n <= |cs| && forall i :: e <= i < n ==> cs[i] == FREE
    ensures s <= e
  {
    if s > e {
      assert SpaceFree(cs, s - 1, need);
    }
  }

  lemma FilledUse(cs: Colors, s: nat, e: nat, c: Usage)
    requires s <= e <= |cs|
    ensures |Fill(cs, s, e, c)| == |cs|
    ensures forall i :: 0 <= i < |cs| ==>
              (Fill(cs, s, e, c)[i] != FREE <==> if s <= i < e then c != FREE else cs[i] != FREE)
  {
  }

  /** Copying into a block changes no other heap page. */
  lemma CopyKeepsOthers(cs: Colors, n: nat, p: Phys, p': Phys, dirs: set<int>, d: int, tables: set<int>, free: seq<int>,
                        base: nat, window: Page, dst: nat, src: nat, count: nat)
    requires n <= |cs| && |p| == |p'| == FRAMES && (forall d :: d in dirs ==> 0 < d < FRAMES) && d in dirs
    requires base + n <= TABLES_PAGE
    requires Backed(cs, n, p, dirs, d, tables, free, base, window) && window !in Pages(base, n) && dst + count <= n
    requires src + count <= n
    requires Mapped(p, d, base + dst, count) && Copied(p, p', dirs, d, base + dst, base + src, count)
    ensures Backed(cs, n, p', dirs, d, tables, free, base, window)
    ensures OthersSame(n, p, p', d, base, dst, dst + count)
    ensures forall q: Page :: base <= q < base + n ==> EntryAt(p', d, q) == EntryAt(p, d, q)
  {
    hide EntryAt, Present, FrameOf, Backing, SameDirectories, SameEntries, Freeable, Pages, Mapped;
    SameBacked(cs, n, p, p', dirs, d, tables, free, base, window);
    forall q: Page | base <= q < base + n ensures EntryAt(p', d, q) == EntryAt(p, d, q) {
      EntryKept(p, p', dirs, d, q);
    }
    forall q: Page | base <= q < base + n && Present(EntryAt(p, d, q)) && !(base + dst <= q < base + dst + count)
      ensures SamePage(p, p', d, q)
    {
      NotBacking(p, dirs, d, tables, free, base, n, base + dst, count, q, window);
    }
  }

  /** A block that was mapped at a new place, copied and unmapped at the old one is kept. */
  lemma MovedKept(n: nat, p0: Phys, p1: Phys, p2: Phys, p3: Phys, dirs: set<int>, d: int, base: nat,
                  start: nat, len: nat, newStart: nat, newLen: nat, flags: FlagBits)
    requires |p0| == |p1| == |p2| == |p3| == FRAMES && (forall d :: d in dirs ==> 0 < d < FRAMES) && d in dirs
    requires base + n <= TABLES_PAGE && 0 < len <= newLen && start + len <= n && newStart + newLen <= n
    requires start + len <= newStart || newStart + newLen <= start
    requires Mapped(p0, d, base + start, len) && Unmapped(p0, d, base + newStart, newLen)
    requires Mapped(p1, d, base + newStart, newLen)
    requires OthersSame(n, p0, p1, d, base, newStart, newStart)
    requires Copied(p1, p2, dirs, d, base + newStart, base + start, len)
    requires OthersSame(n, p1, p2, d, base, newStart, newStart + len)
    requires forall q: Page :: base <= q < base + n ==> EntryAt(p2, d, q) == EntryAt(p1, d, q)
    requires OthersSame(n, p2, p3, d, base, start, start + len)
    requires flags == Flags(EntryAt(p0, d, base + start)) && AllFlags(p1, d, base + newStart, newLen, flags)
    ensures BlockKept(n, p0, p3, d, base, start, len, newStart, newLen)
  {
    hide EntryAt, FrameOf, Flags, Backing, SameDirectories, SameEntries, SameFrames, Present;
    forall q: Page | base + newStart <= q < base + newStart + newLen
      ensures EntryAt(p3, d, q) == EntryAt(p1, d, q) && Content(p3, d, q) == Content(p2, d, q)
    {
      assert Present(EntryAt(p1, d, q)) && SamePage(p2, p3, d, q);
    }
    forall q: Page | base + newStart <= q < base + newStart + len
      ensures Content(p2, d, q) == Content(p0, d, q - (base + newStart) + (base + start))
    {
      var k := q - (base + newStart);
      assert CopiedPage(p1, p2, d, base + newStart, base + start, k);
      assert q == base + newStart + k;
      var r: Page := base + start + k;
      assert Present(EntryAt(p0, d, r)) && SamePage(p0, p1, d, r);
    }
    forall q: Page | base <= q < base + n && Present(EntryAt(p0, d, q)) && !(base + start <= q < base + start + len)
      ensures SamePage(p0, p3, d, q)
    {
      assert SamePage(p0, p1, d, q);
      assert SamePage(p1, p2, d, q) && SamePage(p2, p3, d, q);
    }
    assert AllFlags(p3, d, base + newStart, newLen, flags);
  }

  type HeapStart = x: Page | x <= TABLES_PAGE

  class KernelHeap {
    const memory: Memory
    const heap: Heap
    /** The first page that the heap hands out. */
    const base: HeapStart

    /** The pages before the self-map; a heap may be said to have more. */
    ghost function Extent(): (n: nat)
      ensures n <= heap.pageCount && base + n <= TABLES_PAGE && (n < heap.pageCount ==> base + n == TABLES_PAGE)
    {
      if base + heap.pageCount <= TABLES_PAGE then heap.pageCount else TABLES_PAGE - base
    }

    ghost predicate Valid()
      reads this, memory, memory.phys, heap, heap.usageMap
    {
      heap.Valid() && Backs(heap.Colors())
    }

    /** The used pages of the heap, with the colours `cs`, are mapped to frames of their own. */
    ghost predicate Backs(cs: Colors)
      reads memory, memory.phys
    {
      && memory.Valid() && heap.pageCount < |cs| && memory.window < base
      && Backed(cs, Extent(), memory.Ram(), memory.dirs, memory.Dir(), memory.tables, memory.free, base, memory.window)
      && forall i :: Extent() <= i < heap.pageCount ==> cs[i] == FREE
    }

    constructor (memory: Memory, heap: Heap, base: HeapStart)
      ensures this.memory == memory && this.heap == heap && this.base == base
    {
      this.memory := memory;
      this.heap := heap;
      this.base := base;
    }

    /** Free pages of the heap get frames: the page-table half of every allocation. */
    method AllocBlock(s: nat, len: nat, flags: FlagBits, ghost cs: Colors, ghost cs': Colors)
      returns (r: Outcome<()>, ghost frames: seq<int>)
      requires Backs(cs) && |cs'| == |cs| && s <= Extent()
      requires (base + s + len <= TABLES_PAGE ==> MarksNew(cs, cs', s, len))
      modifies memory`freeFramePaddr, memory`usedFrames, memory`free, memory`tables, memory.phys
      ensures r.Return? <==> Allocatable(old(memory.Ram()), memory.Dir(), base + s, len, flags, |old(memory.free)|)
      ensures r.Return? ==>
        && s + len <= Extent() && Backs(cs') && |frames| == len && AllInRange(frames)
        && Unmapped(old(memory.Ram()), memory.Dir(), base + s, len)
        && FramesTaken(old(memory.free), old(memory.tables), memory.free, memory.tables, frames)
        && RangeMapped(old(memory.Ram()), memory.Ram(), memory.dirs, memory.Dir(), base + s, EntriesFor(frames, flags),
             memory.window)
        && SameFrames(old(memory.Ram()), memory.Ram(), memory.dirs + memory.tables)
        && OthersSame(Extent(), old(memory.Ram()), memory.Ram(), memory.Dir(), base, s, s)
        && StraySame(cs, cs', Extent(), old(memory.Ram()), memory.Ram(), memory.Dir(), base)
        && FramesFlow(Extent(), old(memory.Ram()), memory.Ram(), memory.Dir(), base, old(memory.tables),
             old(memory.free), memory.tables, memory.free, {})
    {
      hide FrameOf, Pdi, Pti, Present, EntryAt, Layout, FreeChain, Shared, SameFrames, RangeMapped, Backed, Pages,
        FramesTaken, OthersSame, Unmapped, CanMap, SpaceFree, FreeUnmapped, Allocatable, StraySame, FramesFlow;
      ghost var p, n, d := memory.Ram(), Extent(), memory.Dir();
      ghost var free, tables := memory.free, memory.tables;
      memory.Inside();
      WindowBefore(memory.window, base, n, s, len);
      AllocatableInside(p, d, base + s, len, flags, |free|);
      r, frames := AllocPages(memory, base + s, flags, len);
      if r.Panic? {
        return;
      }
      memory.Inside();
      LayoutApart(p, memory.dirs, tables, free, Pdi(memory.window));
      AllocKeepsBacked(cs, cs', n, p, memory.Ram(), memory.dirs, d, tables, memory.tables, free, memory.free, base, s,
        frames, flags, memory.window);
      AllocFlow(p, memory.Ram(), memory.dirs, d, tables, memory.tables, free, memory.free, base, n, base + s, frames,
        flags, memory.window);
    }

    /** Pages that were free are marked used, from `cs` to `cs'`. */
    ghost predicate MarksNew(cs: Colors, cs': Colors, s: nat, len: nat) {
      && s + len <= heap.pageCount <= |cs| && |cs'| == |cs| && SpaceFree(cs, s, len)
      && forall i :: 0 <= i < heap.pageCount ==> (cs'[i] != FREE <==> cs[i] != FREE || s <= i < s + len)
    }

    /** Pages that were used are marked free. */
    ghost predicate MarksOld(cs: Colors, cs': Colors, s: nat, len: nat) {
      && s + len <= Extent() <= heap.pageCount <= |cs| && |cs'| == |cs|
      && (forall i :: s <= i < s + len ==> cs[i] != FREE)
      && forall i :: 0 <= i < heap.pageCount ==> (cs'[i] != FREE <==> cs[i] != FREE && !(s <= i < s + len))
    }

    /** Used pages of the heap lose their frames: the page-table half of every release. */
    method FreeBlock(s: nat, len: nat, ghost cs: Colors, ghost cs': Colors)
      requires Backs(cs) && MarksOld(cs, cs', s, len)
      modifies memory`freeFramePaddr, memory`usedFrames, memory`free, memory.phys
      ensures Backs(cs')
      ensures RangeFreed(old(memory.Ram()), memory.Ram(), memory.dirs, memory.Dir(), memory.tables, old(memory.free),
        memory.free, base + s, len, memory.window)
      ensures OthersSame(Extent(), old(memory.Ram()), memory.Ram(), memory.Dir(), base, s, s + len)
      ensures StraySame(cs, cs', Extent(), old(memory.Ram()), memory.Ram(), memory.Dir(), base)
      ensures FramesFlow(Extent(), old(memory.Ram()), memory.Ram(), memory.Dir(), base, memory.tables,
        old(memory.free), memory.tables, memory.free, {})
    {
      hide FrameOf, Pdi, Pti, Present, EntryAt, Layout, FreeChain, Shared, SameFrames, RangeFreed, Backed, Pages,
        OthersSame, Mapped, Freeable, FreeUnmapped, StraySame, FramesFlow;
      ghost var p, n, free := memory.Ram(), Extent(), memory.free;
      memory.Inside();
      UsedIsMapped(cs, n, p, memory.dirs, memory.Dir(), memory.tables, free, base, memory.window, s, len);
      WindowBefore(memory.window, base, n, s, len);
      var ok := FreePages(memory, base + s, len);
      memory.Inside();
      FreeKeepsBacked(cs, cs', n, p, memory.Ram(), memory.dirs, memory.Dir(), memory.tables, free, memory.free, base, s,
        len, memory.window);
      FreeFlow(p, memory.Ram(), memory.dirs, memory.Dir(), memory.tables, free, memory.free, base, n, base + s, len,
        memory.window);
    }

    /** A block of pages, all mapped with the given flags. It panics exactly if no page is asked
        for, no free range is long enough, or the first one cannot be mapped. */
    method MemAlloc(pages: u32, flags: FlagBits) returns (r: Outcome<nat>, ghost frames: seq<int>)
      requires Valid()
      modifies memory`freeFramePaddr, memory`usedFrames, memory`free, memory`tables, memory.phys, heap.usageMap
      ensures r.Return? <==>
        && pages > 0
        && Servable(old(heap.Colors()), heap.pageCount, old(memory.Ram()), memory.Dir(), base, pages, flags,
                    |old(memory.free)|)
      ensures r.Return? ==>
        && Valid() && FirstFit(old(heap.Colors()), heap.pageCount, pages, r.value) && r.value + pages <= Extent()
        && r.value !in old(heap.Blocks()) && heap.Blocks() == old(heap.Blocks())[r.value := pages]
        && Unmapped(old(memory.Ram()), memory.Dir(), base + r.value, pages)
        && |frames| == pages && AllInRange(frames)
        && FramesTaken(old(memory.free), old(memory.tables), memory.free, memory.tables, frames)
        && RangeMapped(old(memory.Ram()), memory.Ram(), memory.dirs, memory.Dir(), base + r.value,
             EntriesFor(frames, flags), memory.window)
        && OthersSame(Extent(), old(memory.Ram()), memory.Ram(), memory.Dir(), base, r.value, r.value)
        && StraySame(old(heap.Colors()), heap.Colors(), Extent(), old(memory.Ram()), memory.Ram(), memory.Dir(), base)
        && ElsewhereSame(old(heap.Colors()), Extent(), old(memory.Ram()), memory.Ram(), memory.dirs, memory.Dir(),
             old(memory.tables), old(memory.free), base, memory.window)
        && FramesFlow(Extent(), old(memory.Ram()), memory.Ram(), memory.Dir(), base, old(memory.tables),
             old(memory.free), memory.tables, memory.free, {})
    {
      hide FrameOf, Pdi, Pti, Present, EntryAt, Layout, FreeChain, Shared, SameFrames, RangeMapped, Backed, Pages,
        FirstFit, NoFit, Fill, Allocations, Unpack, Allocatable, Servable, FramesTaken, Distinct, OthersSame, Unmapped,
        SpaceFree, ElsewhereSame, FreeUnmapped, StraySame, FramesFlow;
      ghost var p, cs, n := memory.Ram(), heap.Colors(), heap.pageCount;
      ghost var free, tables := memory.free, memory.tables;
      frames := [];
      memory.Inside();
      if pages == 0 {
        return Panic, [];
      }
      var start;
      ghost var color;
      start, color := heap.Alloc(pages);
      if start.Panic? {
        NotServable(cs, n, p, memory.Dir(), base, pages, flags, |free|);
        return Panic, [];
      }
      ServableAt(cs, n, p, memory.Dir(), base, pages, flags, |free|, start.value);
      FitStarts(cs, n, pages, start.value, Extent());
      FitIsFree(cs, n, pages, start.value, color);
      FilledUse(cs, start.value, start.value + pages, color);
      var ok;
      ok, frames := AllocBlock(start.value, pages, flags, cs, heap.Colors());
      if ok.Panic? {
        return Panic, [];
      }
      memory.Inside();
      AllocElsewhere(cs, Extent(), p, memory.Ram(), memory.dirs, memory.Dir(), tables, memory.tables, free, memory.free,
        base, base + start.value, frames, EntriesFor(frames, flags), memory.window);
      r := Return(start.value);
    }

    /** Frees the block that starts at `start`. */
    method MemFree(start: nat) returns (r: Outcome<()>)
      requires Valid() && start < heap.pageCount
      modifies memory`freeFramePaddr, memory`usedFrames, memory`free, memory.phys, heap.usageMap
      ensures Valid()
      ensures r.Panic? <==> old(heap.Colors())[start] == FREE
      ensures r.Return? ==>
        var cs, n, p := old(heap.Colors()), Extent(), old(memory.Ram());
        var len := RunLength(cs, start);
        && start + len <= n && StraySame(cs, heap.Colors(), n, p, memory.Ram(), memory.Dir(), base)
        && RangeFreed(p, memory.Ram(), memory.dirs, memory.Dir(), memory.tables, old(memory.free), memory.free,
             base + start, len, memory.window)
        && OthersSame(n, p, memory.Ram(), memory.Dir(), base, start, start + len)
        && ElsewhereSame(cs, n, p, memory.Ram(), memory.dirs, memory.Dir(), memory.tables, old(memory.free), base,
             memory.window)
        && FramesFlow(n, p, memory.Ram(), memory.Dir(), base, memory.tables, old(memory.free), memory.tables,
             memory.free, {})
      ensures Head(old(heap.Colors()), start) ==>
        start in old(heap.Blocks()) && old(heap.Blocks())[start] == RunLength(old(heap.Colors()), start)
        && heap.Blocks() == old(heap.Blocks()) - {start}
    {
      hide FrameOf, Pdi, Pti, Present, EntryAt, Layout, FreeChain, Shared, SameFrames, RangeFreed, Backed, Pages, Fill,
        Head, Allocations, Unpack, OthersSame, RunLength, ElsewhereSame, FreeUnmapped, StraySame, FramesFlow;
      ghost var p, cs, n := memory.Ram(), heap.Colors(), Extent();
      ghost var free := memory.free;
      memory.Inside();
      var freed := heap.Free(start);
      if freed.Panic? {
        return Panic;
      }
      var len := freed.value;
      RunIsUsed(cs, start);
      FilledUse(cs, start, start + len, FREE);
      UsedWithin(cs, heap.pageCount, start, len, n);
      FreeBlock(start, len, cs, heap.Colors());
      memory.Inside();
      FreeElsewhere(cs, n, p, memory.Ram(), memory.dirs, memory.Dir(), memory.tables, free, memory.free, base, start,
        len, memory.window);
      r := Return(());
    }

    /** The block at `start` became the block at `newStart`, and nothing else changed. No frame is lost
        or comes from elsewhere. */
    ghost predicate Resettled(cs: Colors, cs': Colors, p: Phys, tables: set<int>, free: seq<int>, start: nat, len: nat,
                              newStart: nat, pages: nat)
      reads memory, memory.phys
    {
      && heap.pageCount <= |cs| && heap.pageCount <= |cs'| && |p| == |memory.Ram()| == FRAMES
      && (forall d :: d in memory.dirs ==> 0 < d < FRAMES) && memory.Dir() in memory.dirs
      && start + len <= Extent() && newStart + pages <= Extent()
      && BlockKept(Extent(), p, memory.Ram(), memory.Dir(), base, start, len, newStart, pages)
      && StraySame(cs, cs', Extent(), p, memory.Ram(), memory.Dir(), base)
      && ElsewhereSame(cs, Extent(), p, memory.Ram(), memory.dirs, memory.Dir(), tables, free, base, memory.window)
      && FramesFlow(Extent(), p, memory.Ram(), memory.Dir(), base, tables, free, memory.tables, memory.free, {})
    }

    /** A block loses its last pages. */
    method ShrinkPages(start: nat, len: nat, pages: nat, ghost cs: Colors, ghost cs': Colors)
      requires Backs(cs) && pages <= len && start + len <= Extent() && MarksOld(cs, cs', start + pages, len - pages)
      requires forall i :: start <= i < start + len ==> cs[i] != FREE
      modifies memory`freeFramePaddr, memory`usedFrames, memory`free, memory.phys
      ensures Backs(cs')
      ensures Resettled(cs, cs', old(memory.Ram()), old(memory.tables), old(memory.free), start, len, start, pages)
    {
      hide FrameOf, Pdi, Pti, Present, EntryAt, Layout, FreeChain, Shared, SameFrames, RangeFreed, Backed, Pages,
        OthersSame, BlockKept, ElsewhereSame, FreeUnmapped, StraySame, Mapped, Freeable, FramesFlow;
      ghost var p, n, free := memory.Ram(), Extent(), memory.free;
      memory.Inside();
      UsedIsMapped(cs, n, p, memory.dirs, memory.Dir(), memory.tables, free, base, memory.window, start, len);
      FreeBlock(start + pages, len - pages, cs, cs');
      memory.Inside();
      ShrunkKept(n, p, memory.Ram(), memory.Dir(), base, start, len, pages);
      FreeElsewhere(cs, n, p, memory.Ram(), memory.dirs, memory.Dir(), memory.tables, free, memory.free, base,
        start + pages, len - pages, memory.window);
    }

    /** A block gets the free pages behind it. */
    method GrowPages(start: nat, len: nat, pages: nat, flags: FlagBits, ghost cs: Colors, ghost cs': Colors)
      returns (r: Outcome<()>)
      requires Backs(cs) && |cs'| == |cs| && 0 < len <= pages && start + len <= Extent()
      requires forall i :: start <= i < start + len ==> cs[i] != FREE
      requires base + start + pages <= TABLES_PAGE ==> MarksNew(cs, cs', start + len, pages - len)
      requires flags == Flags(EntryAt(memory.Ram(), memory.Dir(), base + start))
      modifies memory`freeFramePaddr, memory`usedFrames, memory`free, memory`tables, memory.phys
      ensures r.Return? <==>
        Allocatable(old(memory.Ram()), memory.Dir(), base + start + len, pages - len, flags, |old(memory.free)|)
      ensures r.Return? ==>
        && Backs(cs')
        && Resettled(cs, cs', old(memory.Ram()), old(memory.tables), old(memory.free), start, len, start, pages)
    {
      hide FrameOf, Pdi, Pti, Present, EntryAt, Layout, FreeChain, Shared, SameFrames, RangeMapped, Backed, Pages,
        FramesTaken, OthersSame, BlockKept, Allocatable, Flags, AllFlags, SpaceFree, ElsewhereSame, FreeUnmapped,
        StraySame, Mapped, Unmapped, Freeable, FramesFlow;
      ghost var p, n, d, s := memory.Ram(), Extent(), memory.Dir(), start + len;
      ghost var free, tables := memory.free, memory.tables;
      memory.Inside();
      UsedIsMapped(cs, n, p, memory.dirs, d, tables, free, base, memory.window, start, len);
      UsedHasFlags(p, d, base + start, len);
      ghost var frames;
      r, frames := AllocBlock(start + len, pages - len, flags, cs, cs');
      if r.Panic? {
        return;
      }
      memory.Inside();
      NewFlags(p, memory.Ram(), memory.dirs, d, base + s, frames, flags, memory.window);
      GrownKept(n, p, memory.Ram(), d, base, start, len, pages, flags);
      AllocElsewhere(cs, n, p, memory.Ram(), memory.dirs, d, tables, memory.tables, free, memory.free, base, base + s,
        frames, EntriesFor(frames, flags), memory.window);
    }

    /** A block moves: it is mapped at the new place, copied and unmapped at the old one. */
    method MovePages(start: nat, len: nat, newStart: nat, pages: nat, flags: FlagBits, ghost cs: Colors,
                     ghost cs1: Colors, ghost cs': Colors)
      returns (r: Outcome<()>)
      requires Backs(cs) && |cs1| == |cs| && 0 < len <= pages && start + len <= Extent() && newStart <= Extent()
      requires start + len <= newStart || newStart + pages <= start
      requires (forall i :: start <= i < start + len ==> cs[i] != FREE) && MarksNew(cs, cs1, newStart, pages)
      requires MarksOld(cs1, cs', start, len)
      requires flags == Flags(EntryAt(memory.Ram(), memory.Dir(), base + start))
      modifies memory`freeFramePaddr, memory`usedFrames, memory`free, memory`tables, memory.phys
      ensures r.Return? <==>
        Allocatable(old(memory.Ram()), memory.Dir(), base + newStart, pages, flags, |old(memory.free)|)
      ensures r.Return? ==>
        && Backs(cs')
        && Resettled(cs, cs', old(memory.Ram()), old(memory.tables), old(memory.free), start, len, newStart, pages)
    {
      hide FrameOf, Pdi, Pti, Present, EntryAt, Layout, FreeChain, Shared, SameFrames, RangeMapped, RangeFreed, Backed,
        Pages, FramesTaken, OthersSame, BlockKept, Allocatable, Flags, AllFlags, Copied, ElsewhereSame, FreeUnmapped,
        StraySame, Mapped, Unmapped, Freeable, FramesFlow;
      ghost var p, n, d := memory.Ram(), Extent(), memory.Dir();
      ghost var free, tables := memory.free, memory.tables;
      memory.Inside();
      UsedIsMapped(cs, n, p, memory.dirs, d, tables, free, base, memory.window, start, len);
      UsedHasFlags(p, d, base + start, len);
      ghost var frames;
      r, frames := AllocBlock(newStart, pages, flags, cs, cs1);
      if r.Panic? {
        return;
      }
      memory.Inside();
      ghost var p1, free1 := memory.Ram(), memory.free;
      NewFlags(p, p1, memory.dirs, d, base + newStart, frames, flags, memory.window);
      NewlyMapped(p, p1, memory.dirs, d, base + newStart, frames, flags, memory.window);
      CopyBlock(newStart, start, len, cs1);
      ghost var p2 := memory.Ram();
      memory.Inside();
      FreeBlock(start, len, cs1, cs');
      memory.Inside();
      WindowBefore(memory.window, base, n, 0, 0);
      StrayAlong(cs, cs1, cs', n, p, p1, p2, memory.Ram(), d, base);
      MoveFlow(n, p, p1, p2, memory.Ram(), d, base, tables, free, memory.tables, free1, memory.free);
      MovedKept(n, p, p1, p2, memory.Ram(), memory.dirs, d, base, start, len, newStart, pages, flags);
      MovedElsewhere(cs, n, p, p1, p2, memory.Ram(), memory.dirs, d, tables, memory.tables, free, free1, memory.free,
        base, start, len, newStart, frames, flags, memory.window);
    }

    /** Copies between two blocks of the heap. */
    method CopyBlock(dst: nat, src: nat, len: nat, ghost cs: Colors)
      requires Backs(cs) && dst + len <= Extent() && src + len <= Extent() && (dst + len <= src || src + len <= dst)
      requires forall i :: src <= i < src + len || dst <= i < dst + len ==> cs[i] != FREE
      modifies memory.phys
      ensures Backs(cs)
      ensures Copied(old(memory.Ram()), memory.Ram(), memory.dirs, memory.Dir(), base + dst, base + src, len)
      ensures OthersSame(Extent(), old(memory.Ram()), memory.Ram(), memory.Dir(), base, dst, dst + len)
      ensures forall q: Page :: base <= q < base + Extent() ==>
                EntryAt(memory.Ram(), memory.Dir(), q) == EntryAt(old(memory.Ram()), memory.Dir(), q)
    {
      hide FrameOf, Pdi, Pti, Present, EntryAt, Layout, FreeChain, Shared, Backed, Pages, OthersSame, Mapped, Freeable,
        Copied, FreeUnmapped;
      ghost var p, n, d := memory.Ram(), Extent(), memory.Dir();
      memory.Inside();
      BackedOwns(cs, n, p, memory.dirs, d, memory.tables, memory.free, base, memory.window);
      UsedIsMapped(cs, n, p, memory.dirs, d, memory.tables, memory.free, base, memory.window, dst, len);
      UsedIsMapped(cs, n, p, memory.dirs, d, memory.tables, memory.free, base, memory.window, src, len);
      WindowBefore(memory.window, base, n, 0, 0);
      CopyRange(memory, base + dst, base + src, len, base, n);
      memory.Inside();
      CopyKeepsOthers(cs, n, p, memory.Ram(), memory.dirs, d, memory.tables, memory.free, base, memory.window, dst, src,
        len);
    }

    /** Gives the block at `start` another length. It panics exactly if no page is asked for, no
        block is there, or the pages or frames for the growth are missing. */
    method MemRealloc(start: nat, pages: u32) returns (r: Outcome<nat>)
      requires Valid() && start < heap.pageCount
      requires heap.Scannable(start, pages) && (Head(heap.Colors(), start) || heap.Colors()[start] == FREE)
      modifies memory`freeFramePaddr, memory`usedFrames, memory`free, memory`tables, memory.phys, heap.usageMap
      ensures r.Return? <==>
        && pages > 0 && old(heap.Colors())[start] != FREE
        && Resizable(old(heap.Colors()), heap.pageCount, old(memory.Ram()), memory.Dir(), base, start, pages,
             |old(memory.free)|)
      ensures r.Return? ==>
        var cs := old(heap.Colors());
        && Valid() && start in old(heap.Blocks()) && old(heap.Blocks())[start] == RunLength(cs, start)
        && heap.Blocks() == (old(heap.Blocks()) - {start})[r.value := pages]
        && Resettled(cs, heap.Colors(), old(memory.Ram()), old(memory.tables), old(memory.free), start,
             RunLength(cs, start), r.value, pages)
    {
      hide FrameOf, Pdi, Pti, Present, EntryAt, Layout, FreeChain, Shared, SameFrames, Backed, Pages, OthersSame,
        Unpack, Wrap32, NoFit, Resized, RunLength, Allocations, Head, Fill, Resettled, Servable, Resizable, FirstFit,
        UseResized, Backable, FreeUnmapped;
      ghost var p, cs, n, d := memory.Ram(), heap.Colors(), heap.pageCount, memory.Dir();
      ghost var free := |memory.free|;
      memory.Inside();
      WrappedSum(start, pages);
      if pages == 0 {
        return Panic;
      }
      var res;
      ghost var color;
      res, color := heap.Realloc(start, pages);
      if start + pages >= TWO_TO_THE_32 { WrappedNotResizable(cs, n, p, d, base, start, pages, free); }
      if res.Panic? {
        NotResizable(cs, n, p, d, base, start, pages, free);
        return Panic;
      }
      var newStart, len := res.value.0, res.value.1;
      ghost var cs', cs1 := heap.Colors(), cs;
      if start + pages < TWO_TO_THE_32 {
        cs1 := ResizedUse(cs, cs', n, start, pages, newStart, len, color);
        ResizedBlocks(cs, cs', n, start, pages, newStart, len, color);
        WhenResizable(cs, cs1, cs', n, p, d, base, start, len, pages, free, newStart, Extent());
      } else {
        WrappedUse(cs, cs', n, start, pages, newStart, len, color);
      }
      var ok := BackResized(start, len, newStart, pages, cs, cs1, cs');
      if ok.Panic? {
        return Panic;
      }
      r := Return(newStart);
    }

    /** The page tables follow the colours of a resized block. A block whose end wraps around 32
        bits grows, as far as they are concerned, until it reaches the self-map. */
    method BackResized(start: nat, len: nat, newStart: nat, pages: nat, ghost cs: Colors, ghost cs1: Colors,
                       ghost cs': Colors)
      returns (r: Outcome<()>)
      requires Backs(cs) && |cs'| == |cs| && UsedBlock(cs, heap.pageCount, start, len)
      requires if start + pages < TWO_TO_THE_32 then UseResized(cs, cs1, cs', heap.pageCount, start, len, newStart,
                 pages) && newStart <= Extent()
               else newStart == start
      modifies memory`freeFramePaddr, memory`usedFrames, memory`free, memory`tables, memory.phys
      ensures r.Return? <==>
        Backable(old(memory.Ram()), memory.Dir(), base, start, len, newStart, pages, |old(memory.free)|)
      ensures r.Return? ==>
        && start + pages < TWO_TO_THE_32 && Backs(cs')
        && Resettled(cs, cs', old(memory.Ram()), old(memory.tables), old(memory.free), start, len, newStart, pages)
    {
      hide FrameOf, Pdi, Pti, Present, EntryAt, Layout, FreeChain, Shared, Backed, Pages, Wrap32, Allocatable, Flags,
        Resettled, FreeUnmapped;
      memory.Inside();
      UsedWithin(cs, heap.pageCount, start, len, Extent());
      AllocatableInside(memory.Ram(), memory.Dir(), base + start + len, if pages < len then 0 else pages - len,
        FlagsAt(memory.Ram(), memory.Dir(), base + start), |memory.free|);
      var entry := memory.GetEntry(base + start);
      var flags := Flags(entry);
      r := Return(());
      if newStart != start {
        r := MovePages(start, len, newStart, pages, flags, cs, cs1, cs');
      } else if len > pages {
        ShrinkPages(start, len, pages, cs, cs');
      } else {
        r := GrowPages(start, len, pages, flags, cs, cs');
      }
    }

    /** A new address space, with the kernel's part of the current one and nothing else. */
    method NewPageDir() returns (r: Outcome<u32>)
      requires Valid()
      modifies memory`freeFramePaddr, memory`usedFrames, memory`free, memory`tables, memory`dirs, memory.phys,
        heap.usageMap
      ensures r.Return? <==>
        Servable(old(heap.Colors()), heap.pageCount, old(memory.Ram()), memory.Dir(), base, 1, WRITABLE,
          |old(memory.free)|)
      ensures r.Return? ==>
        var f := FrameOf(r.value);
        && Valid() && heap.Blocks() == old(heap.Blocks())
        && r.value == Address(f) && f in old(memory.free) && memory.dirs == old(memory.dirs) + {f}
        && 0 < f && |old(memory.Ram())| == |memory.Ram()| == FRAMES && 0 < memory.Dir()
        && NewSpace(memory.Ram(), memory.Dir(), f) && SameShared(memory.Ram(), memory.Dir(), f)
        && FramesFlow(Extent(), old(memory.Ram()), memory.Ram(), memory.Dir(), base, old(memory.tables),
             old(memory.free), memory.tables, memory.free, {f})
        && OthersSame(Extent(), old(memory.Ram()), memory.Ram(), memory.Dir(), base, 0, 0)
        && StraySame(old(heap.Colors()), heap.Colors(), Extent(), old(memory.Ram()), memory.Ram(), memory.Dir(), base)
        && ElsewhereSame(old(heap.Colors()), Extent(), old(memory.Ram()), memory.Ram(), old(memory.dirs), memory.Dir(),
             old(memory.tables), old(memory.free), base, memory.window)
    {
      hide FrameOf, Pdi, Pti, Present, EntryAt, Layout, FreeChain, Shared, SameFrames, RangeMapped, Backed, Pages,
        FirstFit, Allocations, Unpack, Servable, FramesTaken, OthersSame, Address, NewSpace, ElsewhereSame,
        FreeUnmapped, StraySame, Unmapped, FramesFlow, SameShared;
      ghost var p0, cs, n, d := memory.Ram(), heap.Colors(), Extent(), memory.Dir();
      var start;
      ghost var frames;
      start, frames := MemAlloc(1, WRITABLE);
      if start.Panic? {
        return Panic;
      }
      var s := start.value;
      ghost var p1, cs1 := memory.Ram(), heap.Colors();
      FirstFree(cs, heap.pageCount, s);
      memory.Inside();
      UnmappedOne(p0, d, base + s);
      BackedOwns(cs1, n, p1, memory.dirs, d, memory.tables, memory.free, base, memory.window);
      OneFrame(p0, p1, memory.dirs, d, base + s, frames, memory.window, old(memory.free), old(memory.tables),
        memory.free, memory.tables);
      PutThenTake(old(heap.Blocks()), s);
      var paddr := MakeDirectory(s);
      WindowBefore(memory.window, base, n, 0, 0);
      OnlyOne(p0, p1, old(memory.dirs), d, base, n, s, frames, memory.window);
      ElsewhereAlong(cs, cs1, n, p0, p1, memory.Ram(), old(memory.dirs), d, old(memory.tables), memory.tables,
        old(memory.free), memory.free, base, s, frames, memory.window);
      OthersAlong(n, p0, p1, memory.Ram(), d, base, s);
      StrayTwice(cs, cs1, heap.Colors(), n, p0, p1, memory.Ram(), d, base);
      FlowAlong(n, p0, p1, memory.Ram(), d, base, old(memory.tables), old(memory.free), memory.tables, memory.free,
        memory.free, {frames[0]});
      r := Return(paddr);
    }

    /** A block of one page is filled as a directory, freed without its frame, and unmapped. */
    method MakeDirectory(s: nat) returns (paddr: u32)
      requires Valid() && s in heap.Blocks() && heap.Blocks()[s] == 1
      modifies memory`dirs, memory.phys, heap.usageMap
      ensures Valid() && heap.Blocks() == old(heap.Blocks()) - {s}
      ensures Adopted(old(heap.Colors()), heap.Colors(), old(memory.Ram()), old(memory.dirs), s, paddr)
    {
      hide FrameOf, Pdi, Pti, Present, EntryAt, Layout, FreeChain, Shared, SameFrames, Backed, Pages, Fill,
        Allocations, Unpack, Address, NewDirectory, Head, RunLength, FreeUnmapped, Adopted;
      ghost var p1, cs1, n, d := memory.Ram(), heap.Colors(), Extent(), memory.Dir();
      NewBlock(cs1, heap.pageCount, s);
      UsedWithin(cs1, heap.pageCount, s, 1, n);
      memory.Inside();
      WindowBefore(memory.window, base, n, 0, 0);
      UsedFrame(cs1, n, p1, memory.dirs, d, memory.tables, memory.free, base, memory.window, s);
      HeapSlot(memory.window, base, n, s);
      FillDirectory(memory, base + s);
      var freed := heap.Free(s);
      FilledUse(cs1, s, s + 1, FREE);
      paddr := AdoptPage(s, p1, cs1, heap.Colors());
    }

    /** The heap page at `s` has been filled as a directory since memory was `p1`. */
    ghost predicate Filled(p1: Phys, cs1: Colors, s: nat)
      reads memory, memory.phys
    {
      && memory.Valid() && heap.pageCount < |cs1| && memory.window < base && |p1| == FRAMES
      && (forall d :: d in memory.dirs ==> 0 < d < FRAMES)
      && Layout(p1, memory.dirs, memory.tables, memory.free, Pdi(memory.window))
      && FreeChain(p1, memory.free, memory.freeFramePaddr)
      && Backed(cs1, Extent(), p1, memory.dirs, memory.Dir(), memory.tables, memory.free, base, memory.window)
      && s < Extent() && cs1[s] != FREE && (forall i :: Extent() <= i < heap.pageCount ==> cs1[i] == FREE)
      && var f := FrameOf(EntryAt(p1, memory.Dir(), base + s));
         0 < f && memory.Ram() == p1[f := NewDirectory(p1[memory.Dir()], f)]
    }

    /** The frame behind the heap page at `s` is a new address space, and the page is unmapped. */
    ghost predicate Adopted(cs1: Colors, cs': Colors, p1: Phys, dirs: set<int>, s: nat, paddr: u32)
      reads memory, memory.phys
    {
      && heap.pageCount <= |cs1| && heap.pageCount <= |cs'| && s < Extent() && |p1| == |memory.Ram()| == FRAMES
      && 0 < memory.Dir()
      && (forall d :: d in dirs ==> 0 < d < FRAMES) && memory.Dir() in dirs
      && StraySame(cs1, cs', Extent(), p1, memory.Ram(), memory.Dir(), base)
      && ElsewhereSame(cs1, Extent(), p1, memory.Ram(), dirs, memory.Dir(), memory.tables, memory.free, base,
           memory.window)
      && OthersSame(Extent(), p1, memory.Ram(), memory.Dir(), base, s, s + 1)
      && var f := FrameOf(EntryAt(p1, memory.Dir(), base + s));
         && 0 < f && paddr == Address(f) && FrameOf(paddr) == f && memory.dirs == dirs + {f}
         && NewSpace(memory.Ram(), memory.Dir(), f) && SameShared(memory.Ram(), memory.Dir(), f)
         && FramesFlow(Extent(), p1, memory.Ram(), memory.Dir(), base, memory.tables, memory.free, memory.tables,
              memory.free, {f})
    }

    /** The page is unmapped and its frame joins the directories. */
    method AdoptPage(s: nat, ghost p1: Phys, ghost cs1: Colors, ghost cs': Colors) returns (paddr: u32)
      requires Filled(p1, cs1, s) && |cs'| == |cs1|
      requires forall i :: 0 <= i < heap.pageCount ==> (cs'[i] != FREE <==> cs1[i] != FREE && i != s)
      modifies memory`dirs, memory.phys
      ensures Backs(cs') && Adopted(cs1, cs', p1, old(memory.dirs), s, paddr)
    {
      hide FrameOf, Pdi, Pti, Present, EntryAt, Layout, FreeChain, Shared, SameFrames, Backed, Pages, OthersSame,
        Address, NewDirectory, NewSpace, ElsewhereSame, FreeUnmapped, SameShared, StraySame, FramesFlow;
      ghost var p2, n, d := memory.Ram(), Extent(), memory.Dir();
      ghost var f := FrameOf(EntryAt(p1, d, base + s));
      memory.Inside();
      WindowBefore(memory.window, base, n, 0, 0);
      UsedFrame(cs1, n, p1, memory.dirs, d, memory.tables, memory.free, base, memory.window, s);
      HeapSlot(memory.window, base, n, s);
      var missing, entry := memory.UnmapPage(base + s);
      assert !missing by { DataFrame(p1, memory.dirs, memory.tables, memory.free, Pdi(memory.window),
        memory.freeFramePaddr, f, NewDirectory(p1[d], f)); }
      DirectoryDetached(cs1, cs', n, p1, p2, memory.Ram(), memory.dirs, d, memory.tables, memory.free, memory.window,
        memory.freeFramePaddr, base, s);
      JoinDirectories(memory.Ram(), memory.dirs, memory.tables, memory.free, Pdi(memory.window), d, f);
      JoinKeepsUnmapped(memory.Ram(), memory.dirs, d, f, memory.free, memory.window);
      memory.dirs := memory.dirs + {f};
      EntryRoundTrip(entry);
      paddr := Address(FrameOf(entry));
    }
  }

  lemma NewBlock(cs: Colors, n: nat, s: nat)
    requires n <= |cs| && s in Allocations(cs, n) && Allocations(cs, n)[s] == 1
    ensures s < n && Head(cs, s) && cs[s] != FREE && RunLength(cs, s) == 1
  {
  }

  lemma FirstFree(cs: Colors, n: nat, s: nat)
    requires FirstFit(cs, n, 1, s)
    ensures s < |cs| && s + 1 <= n && cs[s] == FREE
  {
  }

  lemma OneFrame(p: Phys, p': Phys, dirs: set<int>, d: int, page: nat, frames: seq<int>, window: Page,
                 free: seq<int>, tables: set<int>, free': seq<int>, tables': set<int>)
    requires |p| == |p'| == FRAMES && (forall d :: d in dirs ==> 0 < d < FRAMES) && d in dirs && page < TABLES_PAGE
    requires |frames| == 1
    requires AllInRange(frames) && RangeMapped(p, p', dirs, d, page, EntriesFor(frames, WRITABLE), window)
    requires FramesTaken(free, tables, free', tables', frames)
    ensures FrameOf(EntryAt(p', d, page)) == frames[0] && frames[0] in free
  {
    hide EntryAt, FrameOf, CreateEntry, Address, OnlyPages, SlotsGrow;
    assert EntryAt(p', d, page + 0) == EntriesFor(frames, WRITABLE)[0];
    FrameEntry(frames[0], WRITABLE);
  }

  lemma HeapSlot(window: Page, base: nat, n: nat, s: nat)
    requires window !in Pages(base, n) && s < n && base + n <= TABLES_PAGE
    ensures Pdi(base + s) < 1023 && window != base + s
  {
    assert base + s in Pages(base, n);
  }

  lemma PutThenTake(m: map<nat, nat>, s: nat)
    requires s !in m
    ensures m[s := 1] - {s} == m
  {
  }

  ghost predicate UsedBlock(cs: Colors, n: nat, start: nat, len: nat) {
    0 < len && start + len <= n < |cs| && forall i :: start <= i < start + len ==> cs[i] != FREE
  }

  /** A used block lies before the free pages at the end. */
  lemma UsedWithin(cs: Colors, n: nat, start: nat, len: nat, e: nat)
    requires UsedBlock(cs, n, start, len) && e <= n && forall i :: e <= i < n ==> cs[i] == FREE
    ensures start + len <= e
  {
    assert cs[start + len - 1] != FREE;
  }

  ghost function FlagsAt(p: Phys, d: int, page: nat): FlagBits
    requires |p| == FRAMES && 0 < d < FRAMES
  {
    if page < FRAMES then Flags(EntryAt(p, d, page)) else 0
  }

  /** The frames suffice for the new pages of a resized block. */
  ghost predicate Backable(p: Phys, d: int, base: nat, start: nat, len: nat, newStart: nat, pages: nat, free: nat)
    requires |p| == FRAMES && 0 < d < FRAMES
  {
    var flags := FlagsAt(p, d, base + start);
    if newStart != start then Allocatable(p, d, base + newStart, pages, flags, free)
    else len > pages || Allocatable(p, d, base + start + len, pages - len, flags, free)
  }

  /** A block can be resized: in place as it shrinks, or if the pages behind it are free, or else
      by moving to its first fit; its new pages can get frames. */
  ghost predicate Resizable(cs: Colors, n: nat, p: Phys, d: int, base: nat, start: nat, pages: nat, free: nat)
    requires n <= |cs| && |p| == FRAMES && 0 < d < FRAMES && start < n
  {
    var end, flags := start + RunLength(cs, start), FlagsAt(p, d, base + start);
    if start + pages <= end then true
    else if SpaceFree(cs, end, start + pages - end) then
      start + pages <= n && Allocatable(p, d, base + end, start + pages - end, flags, free)
    else Servable(cs, n, p, d, base, pages, flags, free)
  }

  lemma NotResizable(cs: Colors, n: nat, p: Phys, d: int, base: nat, start: nat, pages: nat, free: nat)
    requires n <= |cs| && |p| == FRAMES && 0 < d < FRAMES && start < n
    requires cs[start] == FREE
          || (var end := start + RunLength(cs, start);
              start + pages > end && !SpaceFree(cs, end, start + pages - end) && NoFit(cs, n, pages))
    ensures cs[start] == FREE || !Resizable(cs, n, p, d, base, start, pages, free)
  {
    hide Allocatable, Servable, RunLength, NoFit, EntryAt;
    if cs[start] != FREE { NotServable(cs, n, p, d, base, pages, FlagsAt(p, d, base + start), free); }
  }

  lemma WhenResizable(cs: Colors, cs1: Colors, cs': Colors, n: nat, p: Phys, d: int, base: nat, start: nat, len: nat,
                      pages: nat, free: nat, newStart: nat, e: nat)
    requires n <= |cs| && |p| == FRAMES && 0 < d < FRAMES && e <= n && base + e <= TABLES_PAGE
    requires forall i :: e <= i < n ==> cs[i] == FREE
    requires UseResized(cs, cs1, cs', n, start, len, newStart, pages) && len == RunLength(cs, start)
    requires newStart != start ==> FirstFit(cs, n, pages, newStart) && !SpaceFree(cs, start + len, pages - len)
    ensures UsedBlock(cs, n, start, len) && newStart <= e
    ensures Resizable(cs, n, p, d, base, start, pages, free) <==>
      Backable(p, d, base, start, len, newStart, pages, free)
  {
    hide Allocatable, RunLength, EntryAt, Flags, Servable, FirstFit, SpaceFree, UseResized;
    UseResizedCases(cs, cs1, cs', n, start, len, newStart, pages);
    UsedWithin(cs, n, start, len, e);
    var flags := FlagsAt(p, d, base + start);
    if newStart != start {
      FitStarts(cs, n, pages, newStart, e);
      ServableAt(cs, n, p, d, base, pages, flags, free, newStart);
    } else if pages == len {
      NothingToAllocate(p, d, base + start + len, flags, free);
    }
  }

  /** A request whose end wraps around asks for more pages than any heap has. */
  lemma WrappedNotResizable(cs: Colors, n: nat, p: Phys, d: int, base: nat, start: nat, pages: nat, free: nat)
    requires n < |cs| && n < TWO_TO_THE_32 && cs[n] == FREE && |p| == FRAMES && 0 < d < FRAMES && start < n
    requires start + pages >= TWO_TO_THE_32 && (cs[start] != FREE ==> start < TABLES_PAGE)
    ensures cs[start] == FREE || !Resizable(cs, n, p, d, base, start, pages, free)
  {
    hide Unmapped, CanMap, RunLength, EntryAt, Flags;
    if cs[start] != FREE { BlockStops(cs, n, start); }
  }

  lemma WrappedUse(cs: Colors, cs': Colors, n: nat, start: u32, pages: u32, newStart: nat, len: nat, color: Usage)
    requires start < n < |cs| && cs[n] == FREE && start + pages >= TWO_TO_THE_32
    requires Resized(cs, cs', n, start, pages, Wrap32(start + pages), newStart, len, color)
    ensures UsedBlock(cs, n, start, len) && newStart == start && |cs'| == |cs|
  {
    hide RunLength, Head, Fill, Wrap32;
    WrappedSum(start, pages);
    HeadIsUsed(cs, start);
    BlockStops(cs, n, start);
    FilledUse(cs, start + pages - TWO_TO_THE_32, start + len, FREE);
  }

  lemma UseResizedCases(cs: Colors, cs1: Colors, cs': Colors, n: nat, start: nat, len: nat, newStart: nat, pages: nat)
    requires UseResized(cs, cs1, cs', n, start, len, newStart, pages)
    ensures UsedBlock(cs, n, start, len) && newStart + pages <= n && pages > 0
    ensures if newStart == start then pages >= len ==> SpaceFree(cs, start + len, pages - len) else pages > len
  {
  }

  /** The flags of a mapped page contain the present bit. */
  lemma UsedHasFlags(p: Phys, d: int, page: nat, len: nat)
    requires |p| == FRAMES && 0 < d < FRAMES && 0 < len && page + len <= TABLES_PAGE && Mapped(p, d, page, len)
    ensures Flags(EntryAt(p, d, page)) % 2 == 1
  {
    hide EntryAt;
    EntryRoundTrip(EntryAt(p, d, page));
  }

  lemma NewlyMapped(p: Phys, p': Phys, dirs: set<int>, d: int, page: nat, frames: seq<int>, flags: FlagBits,
                    window: Page)
    requires |p| == |p'| == FRAMES && (forall d :: d in dirs ==> 0 < d < FRAMES) && d in dirs
    requires page + |frames| <= TABLES_PAGE
    requires AllInRange(frames) && RangeMapped(p, p', dirs, d, page, EntriesFor(frames, flags), window)
    ensures Mapped(p', d, page, |frames|)
  {
    hide EntryAt, Present, RangeMapped, EntriesFor;
    forall q: Page | page <= q < page + |frames| ensures Present(EntryAt(p', d, q)) {
      MappedTo(p, p', dirs, d, page, frames, flags, window, q);
    }
  }

  lemma UnmappedOne(p: Phys, d: int, page: nat)
    requires |p| == FRAMES && 0 < d < FRAMES && page < TABLES_PAGE && Unmapped(p, d, page, 1)
    ensures !Present(EntryAt(p, d, page))
  {
  }

  lemma StrayTwice(cs: Colors, cs1: Colors, cs': Colors, n: nat, p: Phys, p1: Phys, p': Phys, d: int, base: nat)
    requires n <= |cs| && n <= |cs1| && n <= |cs'| && |p| == |p1| == |p'| == FRAMES && 0 < d < FRAMES
    requires base + n <= TABLES_PAGE
    requires StraySame(cs, cs1, n, p, p1, d, base) && StraySame(cs1, cs', n, p1, p', d, base)
    ensures StraySame(cs, cs', n, p, p', d, base)
  {
    hide EntryAt, Present;
    forall q: Page | base <= q < base + n
      ensures cs'[q - base] == FREE && Present(EntryAt(p', d, q)) <==> cs[q - base] == FREE && Present(EntryAt(p, d, q))
    {
      assert cs1[q - base] == FREE && Present(EntryAt(p1, d, q)) <==> cs[q - base] == FREE && Present(EntryAt(p, d, q));
    }
  }

  lemma StrayAlong(cs: Colors, cs1: Colors, cs': Colors, n: nat, p: Phys, p1: Phys, p2: Phys, p3: Phys, d: int,
                   base: nat)
    requires n <= |cs| && n <= |cs1| && n <= |cs'| && |p| == |p1| == |p2| == |p3| == FRAMES && 0 < d < FRAMES
    requires base + n <= TABLES_PAGE
    requires StraySame(cs, cs1, n, p, p1, d, base) && StraySame(cs1, cs', n, p2, p3, d, base)
    requires forall q: Page :: base <= q < base + n ==> EntryAt(p2, d, q) == EntryAt(p1, d, q)
    ensures StraySame(cs, cs', n, p, p3, d, base)
  {
    hide EntryAt, Present;
    assert StraySame(cs1, cs1, n, p1, p2, d, base);
    StrayTwice(cs, cs1, cs1, n, p, p1, p2, d, base);
    StrayTwice(cs, cs1, cs', n, p, p2, p3, d, base);
  }

  lemma RunIsUsed(cs: Colors, s: nat)
    requires s < |cs|
    ensures 0 < RunLength(cs, s) && s + RunLength(cs, s) <= |cs|
    ensures forall i :: s <= i < s + RunLength(cs, s) ==> cs[i] == cs[s]
  {
    RunLengthIsRun(cs, s);
  }

  lemma AllocatableInside(p: Phys, d: int, page: nat, count: nat, flags: FlagBits, free: nat)
    requires |p| == FRAMES && 0 < d < FRAMES
    ensures Allocatable(p, d, page, count, flags, free) ==> page + count <= TABLES_PAGE && Unmapped(p, d, page, count)
  {
    hide Unmapped, CanMap;
  }

  /** The steps of a move change nothing outside the heap. */
  lemma MovedElsewhere(cs: Colors, n: nat, p: Phys, p1: Phys, p2: Phys, p3: Phys, dirs: set<int>, d: int,
                       tables: set<int>, tables1: set<int>, free: seq<int>, free1: seq<int>, free3: seq<int>, base: nat,
                       start: nat, len: nat, newStart: nat, frames: seq<int>, flags: FlagBits, window: Page)
    requires n <= |cs| && |p| == |p1| == |p2| == |p3| == FRAMES && (forall d :: d in dirs ==> 0 < d < FRAMES)
    requires d in dirs
    requires base + n <= TABLES_PAGE && start + len <= n && len <= |frames| && newStart + |frames| <= n
    requires window !in Pages(base, n)
    requires start + len <= newStart || newStart + |frames| <= start
    requires AllInRange(frames) && RangeMapped(p, p1, dirs, d, base + newStart, EntriesFor(frames, flags), window)
    requires SameFrames(p, p1, dirs + tables1) && FramesTaken(free, tables, free1, tables1, frames)
    requires Copied(p1, p2, dirs, d, base + newStart, base + start, len)
    requires forall q: Page :: base <= q < base + n ==> EntryAt(p2, d, q) == EntryAt(p1, d, q)
    requires RangeFreed(p2, p3, dirs, d, tables1, free1, free3, base + start, len, window)
    requires forall i :: start <= i < start + len ==> cs[i] != FREE
    ensures ElsewhereSame(cs, n, p, p3, dirs, d, tables, free, base, window)
  {
    hide EntryAt, OnlyPages, BehindHeap, Pages, FrameOf, Backing, SameDirectories, SlotsGrow, CopiedPage, Mapped,
      SameEntries, Present;
    var all := Pages(base, n) + {window};
    MovedPages(p, p1, p2, p3, dirs, d, tables1, free1, free3, base, n, start, len, newStart, EntriesFor(frames, flags),
      window);
    forall f | f in SetOf(Backing(p1, d, base + newStart, len)) ensures f in free {
      NewBacking(p, p1, dirs, d, base + newStart, len, frames, flags, window, free, tables, free1, tables1, f);
    }
    SameBacking(p, p1, p2, dirs, d, base, n, start, len, newStart, |frames|, EntriesFor(frames, flags), window);
    forall f | f in SetOf(Backing(p2, d, base + start, len)) ensures BehindHeap(cs, n, p, d, base, f) {
      BackingIsBehind(cs, n, p, d, base, start, len, f);
    }
  }

  lemma MovedPages(p: Phys, p1: Phys, p2: Phys, p3: Phys, dirs: set<int>, d: int, tables1: set<int>, free1: seq<int>,
                   free3: seq<int>, base: nat, n: nat, start: nat, len: nat, newStart: nat, entries: seq<u32>,
                   window: Page)
    requires |p| == |p1| == |p2| == |p3| == FRAMES && (forall d :: d in dirs ==> 0 < d < FRAMES) && d in dirs
    requires base + n <= TABLES_PAGE && start + len <= n && newStart + |entries| <= n
    requires RangeMapped(p, p1, dirs, d, base + newStart, entries, window) && SameEntries(p1, p2, dirs, {})
    requires SameDirectories(p1, p2, dirs)
    requires RangeFreed(p2, p3, dirs, d, tables1, free1, free3, base + start, len, window)
    ensures OnlyPages(p, p3, dirs, d, Pages(base, n) + {window})
  {
    hide EntryAt, Pdi, Shared, Pages, SlotsGrow, Backing, Mapped, SameDirectories, SameFrames, OnlyPages, SameEntries;
    var all := Pages(base, n) + {window};
    PagesWithin(base, n, base + newStart, |entries|, window);
    PagesWithin(base, n, base + start, len, window);
    FewerPages(p, p1, dirs, d, Pages(base + newStart, |entries|) + {window}, all);
    FewerPages(p2, p3, dirs, d, Pages(base + start, len) + {window}, all);
    NoPages(p1, p2, dirs, d, all);
    PagesAlong(p, p1, p2, dirs, d, all, all);
    PagesAlong(p, p2, p3, dirs, d, all + all, all);
    assert all + all + all == all;
  }

  lemma NoPages(p: Phys, p': Phys, dirs: set<int>, d: int, pages: set<Page>)
    requires |p| == |p'| == FRAMES && (forall d :: d in dirs ==> 0 < d < FRAMES) && d in dirs
    requires SameDirectories(p, p', dirs) && SameEntries(p, p', dirs, {})
    ensures OnlyPages(p, p', dirs, d, pages)
  {
    hide EntryAt, Pdi, Shared;
  }

  lemma NewBacking(p: Phys, p1: Phys, dirs: set<int>, d: int, page: nat, len: nat, frames: seq<int>, flags: FlagBits,
                   window: Page, free: seq<int>, tables: set<int>, free1: seq<int>, tables1: set<int>, f: int)
    requires |p| == |p1| == FRAMES && (forall d :: d in dirs ==> 0 < d < FRAMES) && d in dirs
    requires page + |frames| <= TABLES_PAGE && len <= |frames|
    requires AllInRange(frames) && RangeMapped(p, p1, dirs, d, page, EntriesFor(frames, flags), window)
    requires FramesTaken(free, tables, free1, tables1, frames) && f in Backing(p1, d, page, len)
    ensures f in free
  {
    hide EntryAt, FrameOf, OnlyPages, SlotsGrow, CreateEntry, Address, NoDuplicates;
    var k :| 0 <= k < len && Backing(p1, d, page, len)[k] == f;
    var i := len - 1 - k;
    assert page + len - 1 - k == page + i;
    assert EntryAt(p1, d, page + i) == EntriesFor(frames, flags)[i];
    FrameEntry(frames[i], flags);
  }

  lemma SameBacking(p: Phys, p1: Phys, p2: Phys, dirs: set<int>, d: int, base: nat, n: nat, start: nat, len: nat,
                    newStart: nat, newLen: nat, entries: seq<u32>, window: Page)
    requires |p| == |p1| == |p2| == FRAMES && (forall d :: d in dirs ==> 0 < d < FRAMES) && d in dirs
    requires base + n <= TABLES_PAGE
    requires start + len <= n && newStart + newLen <= n && newLen == |entries| && window !in Pages(base, n)
    requires start + len <= newStart || newStart + newLen <= start
    requires RangeMapped(p, p1, dirs, d, base + newStart, entries, window)
    requires forall q: Page :: base <= q < base + n ==> EntryAt(p2, d, q) == EntryAt(p1, d, q)
    ensures Backing(p2, d, base + start, len) == Backing(p, d, base + start, len)
  {
    hide EntryAt, FrameOf, OnlyPages, SlotsGrow, Pages;
    var x, y := Backing(p2, d, base + start, len), Backing(p, d, base + start, len);
    forall k | 0 <= k < len ensures x[k] == y[k] {
      var q: Page := base + start + len - 1 - k;
      OutsideKept(p, p1, dirs, d, base, n, base + newStart, newLen, window, q);
    }
  }

  /** The page of a one-page allocation is the only heap page whose entry changes. */
  lemma OnlyOne(p: Phys, p': Phys, dirs: set<int>, d: int, base: nat, n: nat, s: nat, frames: seq<int>, window: Page)
    requires |p| == |p'| == FRAMES && (forall d :: d in dirs ==> 0 < d < FRAMES) && d in dirs && base + n <= TABLES_PAGE
    requires s < n
    requires AllInRange(frames) && |frames| == 1
    requires RangeMapped(p, p', dirs, d, base + s, EntriesFor(frames, WRITABLE), window)
    requires window !in Pages(base, n)
    ensures forall q: Page :: base <= q < base + n && q != base + s ==> EntryAt(p', d, q) == EntryAt(p, d, q)
  {
    hide EntryAt, OnlyPages, SlotsGrow, Pages;
    forall q: Page | base <= q < base + n && q != base + s ensures EntryAt(p', d, q) == EntryAt(p, d, q) {
      OutsideKept(p, p', dirs, d, base, n, base + s, 1, window, q);
    }
  }

  lemma PagesTwice(p: Phys, p1: Phys, p2: Phys, dirs: set<int>, d: int, all: set<Page>)
    requires |p| == |p1| == |p2| == FRAMES && (forall d :: d in dirs ==> 0 < d < FRAMES) && d in dirs
    requires OnlyPages(p, p1, dirs, d, all)
    requires OnlyPages(p1, p2, dirs, d, all)
    ensures OnlyPages(p, p2, dirs, d, all)
  {
    hide OnlyPages;
    PagesAlong(p, p1, p2, dirs, d, all, all);
    assert all + all == all;
  }

  /** Allocating a page and then giving it up changes nothing outside the heap. */
  lemma ElsewhereAlong(cs: Colors, cs1: Colors, n: nat, p: Phys, p1: Phys, p2: Phys, dirs: set<int>, d: int,
                       tables: set<int>, tables1: set<int>, free: seq<int>, free1: seq<int>, base: nat, s: nat,
                       frames: seq<int>, window: Page)
    requires n <= |cs| && n <= |cs1| && |p| == |p1| == |p2| == FRAMES && (forall d :: d in dirs ==> 0 < d < FRAMES)
    requires d in dirs
    requires base + n <= TABLES_PAGE && s < n && |frames| == 1 && FrameOf(EntryAt(p1, d, base + s)) == frames[0]
    requires FramesTaken(free, tables, free1, tables1, frames)
    requires StraySame(cs, cs1, n, p, p1, d, base) && UsedPresent(cs1, n, p1, d, base)
    requires forall q: Page :: base <= q < base + n && q != base + s ==> EntryAt(p1, d, q) == EntryAt(p, d, q)
    requires ElsewhereSame(cs, n, p, p1, dirs, d, tables, free, base, window)
    requires ElsewhereSame(cs1, n, p1, p2, dirs, d, tables1, free1, base, window)
    ensures ElsewhereSame(cs, n, p, p2, dirs, d, tables, free, base, window)
  {
    hide EntryAt, FrameOf, OnlyPages, Pages, Present;
    PagesTwice(p, p1, p2, dirs, d, Pages(base, n) + {window});
    forall f | 0 <= f < FRAMES && f !in dirs && f !in tables && f !in free && !BehindHeap(cs, n, p, d, base, f)
      ensures p2[f] == p[f]
    {
      forall q: Page | base <= q < base + n && cs1[q - base] != FREE ensures FrameOf(EntryAt(p1, d, q)) != f {
        if q != base + s {
          assert Present(EntryAt(p1, d, q)) && EntryAt(p1, d, q) == EntryAt(p, d, q);
          assert cs[q - base] != FREE;
        }
      }
    }
  }

  ghost predicate UsedAt(cs: Colors, n: nat, base: nat, q: Page)
    requires n <= |cs|
  {
    base <= q < base + n && cs[q - base] != FREE
  }

  /** No page is used by both heaps, although their ranges may overlap. */
  ghost predicate UsedApart(csA: Colors, nA: nat, baseA: nat, csB: Colors, nB: nat, baseB: nat)
    requires nA <= |csA| && nB <= |csB|
  {
    forall q: Page :: !(UsedAt(csA, nA, baseA, q) && UsedAt(csB, nB, baseB, q))
  }

  /** What happens to one heap leaves another one in the same space intact: what a heap operation on
      the block [s, e) guarantees suffices for this. */
  lemma OtherHeapKept(csA: Colors, csA': Colors, nA: nat, baseA: nat, s: nat, e: nat, csB: Colors, nB: nat, baseB: nat,
                      p: Phys, p': Phys, dirs: set<int>, d: int, tables: set<int>, free: seq<int>, tables': set<int>,
                      free': seq<int>, window: Page)
    requires nA <= |csA| && nA <= |csA'| && nB <= |csB| && |p| == |p'| == FRAMES
    requires (forall d :: d in dirs ==> 0 < d < FRAMES) && d in dirs
    requires window < baseA && baseA + nA <= TABLES_PAGE && window < baseB && baseB + nB <= TABLES_PAGE
    requires Backed(csA, nA, p, dirs, d, tables, free, baseA, window)
    requires Backed(csA', nA, p', dirs, d, tables', free', baseA, window)
    requires Backed(csB, nB, p, dirs, d, tables, free, baseB, window) && UsedApart(csA, nA, baseA, csB, nB, baseB)
    requires OthersSame(nA, p, p', d, baseA, s, e) && e <= nA && forall i :: s <= i < e ==> csA[i] != FREE
    requires StraySame(csA, csA', nA, p, p', d, baseA)
    requires ElsewhereSame(csA, nA, p, p', dirs, d, tables, free, baseA, window)
    requires NewTables(tables, free, tables') && FreeUnmapped(p', dirs, window, free')
    ensures Backed(csB, nB, p', dirs, d, tables', free', baseB, window) && UsedApart(csA', nA, baseA, csB, nB, baseB)
    ensures forall q: Page :: UsedAt(csB, nB, baseB, q) ==> SamePage(p, p', d, q)
  {
    hide EntryAt, Present, FrameOf, Pdi, OnlyPages, Freeable, OwnPage, FreeUnmapped, NewTables, ElsewhereSame;
    forall q: Page | baseB <= q < baseB + nB ensures OwnPage(p', dirs, d, tables', free', q, window) {
      if baseA <= q < baseA + nA {
        OwnInHeap(p', dirs, d, tables', free', baseA, nA, window, q);
      } else {
        OtherPageKept(csA, csA', nA, baseA, nB, baseB, p, p', dirs, d, tables, free, tables', free', window, q);
      }
    }
    EachOwn(p', dirs, d, tables', free', baseB, nB, window);
    forall q: Page | UsedAt(csB, nB, baseB, q) ensures SamePage(p, p', d, q) && !UsedAt(csA', nA, baseA, q) {
      assert Present(EntryAt(p, d, q));
      if baseA <= q < baseA + nA {
        assert UsedAt(csB, nB, baseB, q) && !UsedAt(csA, nA, baseA, q);
      } else {
        OtherPageKept(csA, csA', nA, baseA, nB, baseB, p, p', dirs, d, tables, free, tables', free', window, q);
      }
    }
    forall q: Page | baseB <= q < baseB + nB && csB[q - baseB] != FREE ensures Present(EntryAt(p', d, q)) {
      assert UsedAt(csB, nB, baseB, q) && SamePage(p, p', d, q);
    }
  }

  /** The same for a new address space, which shares the tables of both heaps. */
  lemma OtherHeapJoined(csA: Colors, csA': Colors, nA: nat, baseA: nat, csB: Colors, nB: nat, baseB: nat, p: Phys,
                        p': Phys, dirs: set<int>, d: int, tables: set<int>, free: seq<int>, tables': set<int>,
                        free': seq<int>, window: Page, f: int)
    requires nA <= |csA| && nA <= |csA'| && nB <= |csB| && |p| == |p'| == FRAMES
    requires (forall d :: d in dirs ==> 0 < d < FRAMES) && d in dirs && 0 < f < FRAMES && f in free
    requires window < baseA && baseA + nA <= TABLES_PAGE && window < baseB && baseB + nB <= TABLES_PAGE
    requires Backed(csA, nA, p, dirs, d, tables, free, baseA, window)
    requires Backed(csA', nA, p', dirs + {f}, d, tables', free', baseA, window)
    requires Backed(csB, nB, p, dirs, d, tables, free, baseB, window) && UsedApart(csA, nA, baseA, csB, nB, baseB)
    requires OthersSame(nA, p, p', d, baseA, 0, 0) && StraySame(csA, csA', nA, p, p', d, baseA)
    requires ElsewhereSame(csA, nA, p, p', dirs, d, tables, free, baseA, window)
    requires NewTables(tables, free, tables') && FreeUnmapped(p, dirs, window, free)
    requires FreeUnmapped(p', dirs + {f}, window, free') && NewSpace(p', d, f) && SameShared(p', d, f)
    ensures Backed(csB, nB, p', dirs + {f}, d, tables', free', baseB, window)
    ensures UsedApart(csA', nA, baseA, csB, nB, baseB)
    ensures forall q: Page :: UsedAt(csB, nB, baseB, q) ==> SamePage(p, p', d, q)
  {
    hide EntryAt, Present, FrameOf, Pdi, OnlyPages, Freeable, OwnPage, OwnFrame, FreeUnmapped, NewTables, Backed,
      BehindHeap, UsedApart, OthersSame, StraySame, NewSpace, SameShared;
    FewerSpaces(csA', nA, p', dirs, d, tables', free', baseA, window, f);
    OtherHeapKept(csA, csA', nA, baseA, 0, 0, csB, nB, baseB, p, p', dirs, d, tables, free, tables', free', window);
    BackedOwns(csA', nA, p', dirs + {f}, d, tables', free', baseA, window);
    forall q: Page | baseB <= q < baseB + nB && Present(EntryAt(p', d, q)) ensures FrameOf(EntryAt(p', d, q)) != f {
      if baseA <= q < baseA + nA {
        ItsOwn(p', dirs + {f}, d, tables', free', baseA, nA, window, q);
      } else {
        KeptPage(p, p', dirs, d, Pages(baseA, nA) + {window}, q);
        SlotOrder(q, q);
        BehindPage(p, dirs, window, free, d, q);
      }
    }
    JoinKeepsBacked(csB, nB, p', dirs, d, tables', free', baseB, window, f);
  }

  /** What holds in view of all spaces holds in view of all but one. */
  lemma FewerSpaces(cs: Colors, n: nat, p: Phys, dirs: set<int>, d: int, tables: set<int>, free: seq<int>, base: nat,
                    window: Page, f: int)
    requires n <= |cs| && |p| == FRAMES && (forall d :: d in dirs ==> 0 < d < FRAMES) && d in dirs && 0 < f < FRAMES
    requires base + n <= TABLES_PAGE && Backed(cs, n, p, dirs + {f}, d, tables, free, base, window)
    requires FreeUnmapped(p, dirs + {f}, window, free)
    ensures Backed(cs, n, p, dirs, d, tables, free, base, window) && FreeUnmapped(p, dirs, window, free)
  {
    hide EntryAt, Present, FrameOf, Pdi, SharesTable, Freeable;
    forall q: Page | base <= q < base + n ensures OwnPage(p, dirs, d, tables, free, q, window) {
      OwnInHeap(p, dirs + {f}, d, tables, free, base, n, window, q);
    }
    EachOwn(p, dirs, d, tables, free, base, n, window);
  }

  lemma OwnInHeap(p: Phys, dirs: set<int>, d: int, tables: set<int>, free: seq<int>, base: nat, n: nat, window: Page,
                  q: Page)
    requires |p| == FRAMES && (forall d :: d in dirs ==> 0 < d < FRAMES) && 0 < d < FRAMES && base + n <= TABLES_PAGE
    requires Freeable(p, dirs, d, tables, free, base, n, window) && base <= q < base + n
    ensures OwnPage(p, dirs, d, tables, free, q, window)
  {
    hide OwnPage;
  }

  lemma OtherPageKept(csA: Colors, csA': Colors, nA: nat, baseA: nat, nB: nat, baseB: nat, p: Phys, p': Phys,
                      dirs: set<int>, d: int, tables: set<int>, free: seq<int>, tables': set<int>, free': seq<int>,
                      window: Page, q: Page)
    requires nA <= |csA| && nA <= |csA'| && |p| == |p'| == FRAMES && (forall d :: d in dirs ==> 0 < d < FRAMES)
    requires d in dirs
    requires window < baseA && baseA + nA <= TABLES_PAGE && window < baseB && baseB + nB <= TABLES_PAGE
    requires !(baseA <= q < baseA + nA) && baseB <= q < baseB + nB
    requires Backed(csA, nA, p, dirs, d, tables, free, baseA, window)
    requires Backed(csA', nA, p', dirs, d, tables', free', baseA, window)
    requires Freeable(p, dirs, d, tables, free, baseB, nB, window)
    requires ElsewhereSame(csA, nA, p, p', dirs, d, tables, free, baseA, window)
    requires NewTables(tables, free, tables') && FreeUnmapped(p', dirs, window, free')
    ensures EntryAt(p', d, q) == EntryAt(p, d, q) && OwnPage(p', dirs, d, tables', free', q, window)
    ensures Present(EntryAt(p, d, q)) ==> SamePage(p, p', d, q)
  {
    hide EntryAt, Present, FrameOf, Pdi, OnlyPages, Freeable, OwnFrame, FreeUnmapped, BehindHeap;
    var f, changed := FrameOf(EntryAt(p, d, q)), Pages(baseA, nA) + {window};
    SlotOrder(q, q);
    KeptPage(p, p', dirs, d, changed, q);
    if Present(EntryAt(p, d, q)) {
      ItsOwn(p, dirs, d, tables, free, baseB, nB, window, q);
      BehindPage(p', dirs, window, free', d, q);
      forall r: Page | r in changed && r != window && Present(EntryAt(p', d, r))
        ensures FrameOf(EntryAt(p', d, r)) != f
      {
        ItsOwn(p', dirs, d, tables', free', baseA, nA, window, r);
        OwnedByOne(p', dirs, d, r, q, window);
      }
      OwnKept(p, p', dirs, d, changed, q, window);
      NotBehind(csA, nA, p, dirs, d, tables, free, baseA, window, q);
    }
  }

  lemma OwnedByOne(p: Phys, dirs: set<int>, d: int, r: Page, q: Page, window: Page)
    requires |p| == FRAMES && (forall d :: d in dirs ==> 0 < d < FRAMES) && d in dirs && OwnFrame(p, dirs, d, r, window)
    requires Pdi(q) < 1023 && q != window && q != r && Present(EntryAt(p, d, q))
    ensures FrameOf(EntryAt(p, d, q)) != FrameOf(EntryAt(p, d, r))
  {
    hide EntryAt, Present, FrameOf, Pdi, SharesTable;
  }

  /** The frame of a page outside a heap is not behind the heap. */
  lemma NotBehind(cs: Colors, n: nat, p: Phys, dirs: set<int>, d: int, tables: set<int>, free: seq<int>, base: nat,
                  window: Page, q: Page)
    requires n <= |cs| && |p| == FRAMES && (forall d :: d in dirs ==> 0 < d < FRAMES) && d in dirs
    requires base + n <= TABLES_PAGE
    requires Backed(cs, n, p, dirs, d, tables, free, base, window) && !(base <= q < base + n)
    requires Pdi(q) < 1023 && q != window && Present(EntryAt(p, d, q))
    ensures !BehindHeap(cs, n, p, d, base, FrameOf(EntryAt(p, d, q)))
  {
    hide EntryAt, Present, FrameOf, Pdi, Freeable, OwnFrame;
    forall r: Page | base <= r < base + n && cs[r - base] != FREE
      ensures FrameOf(EntryAt(p, d, r)) != FrameOf(EntryAt(p, d, q))
    {
      ItsOwn(p, dirs, d, tables, free, base, n, window, r);
      OwnedByOne(p, dirs, d, r, q, window);
    }
  }

  lemma BackedOwns(cs: Colors, n: nat, p: Phys, dirs: set<int>, d: int, tables: set<int>, free: seq<int>, base: nat,
                   window: Page)
    requires n <= |cs| && |p| == FRAMES && (forall d :: d in dirs ==> 0 < d < FRAMES) && d in dirs
    requires base + n <= TABLES_PAGE
    requires Backed(cs, n, p, dirs, d, tables, free, base, window)
    ensures UsedPresent(cs, n, p, d, base) && Freeable(p, dirs, d, tables, free, base, n, window)
  {
    hide Freeable, UsedPresent;
  }

  /** The window lies before the heap. */
  lemma WindowBefore(window: Page, base: nat, n: nat, s: nat, len: nat)
    requires window < base
    ensures window !in Pages(base, n) && window !in Pages(base + s, len)
  {
  }

  lemma FitIsFree(cs: Colors, n: nat, need: nat, s: nat, c: Usage)
    requires n < |cs| && FirstFit(cs, n, need, s) && Distinct(cs, s, s + need, c)
    ensures s + need <= n && SpaceFree(cs, s, need) && c != FREE
  {
  }

  lemma LayoutApart(p: Phys, dirs: set<int>, tables: set<int>, free: seq<int>, wi: Index)
    requires Layout(p, dirs, tables, free, wi)
    ensures FramesApart(dirs, tables, free) && forall d :: d in dirs ==> 0 < d < FRAMES
  {
  }
}
