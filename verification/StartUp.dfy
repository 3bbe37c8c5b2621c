/** Start-up of the memory stack (src/memory/mem.c:380-463, src/memory/heap.c:85-98): free frames, heaps
    and address spaces in a first state that meets all invariants, and how `init_heap` places heaps. */
module StartUp {
  import opened Words
  import opened Entries
  import opened PageTables
  import opened Paging
  import opened HeapRuns
  import opened Heaps
  import opened PageRanges
  import opened BackedHeap
  import opened FrameFlow
  import opened KernelMemory
  import opened AddressSpaces
  import opened Separation
  import opened Kernels

  /** Pages of user memory that only the kernel writes, with a heap of their own. */
  const USER_RO_PAGES: u32 := 1024

  const GLOBAL: int := 512
  const KERNEL_FLAGS: FlagBits := WRITABLE + GLOBAL
  const USER_FLAGS: FlagBits := WRITABLE + USER_MODE + GLOBAL

  /** The bytes of the usage map of a heap. */
  function MapBytes(pages: Page): nat {
    (pages + 3) / 4
  }

  /** The pages in front of a heap that hold its usage map. */
  function MapPages(pages: Page): nat {
    (MapBytes(pages) + PAGE_SIZE - 1) / PAGE_SIZE
  }

  /** The pair of bits behind the last page is free: it is cleared with the others, or was before. */
  ghost predicate TailFree(cs: Colors, pages: nat) {
    pages % 4 != 0 || (pages < |cs| && cs[pages] == FREE)
  }

  lemma ZeroPair(slot: nat)
    requires slot < 4
    ensures GetPair(Byte(0), slot) == FREE
  {
    assert (0 as bv8 >> 6) & 3 == 0 && (0 as bv8 >> 4) & 3 == 0 && (0 as bv8 >> 2) & 3 == 0 && (0 as bv8 >> 0) & 3 == 0;
  }

  /** The call of `pmemset` that marks all pages free. */
  method ClearMap(bytes: array<Byte>, count: nat)
    requires count <= bytes.Length
    modifies bytes
    ensures forall i :: 0 <= i < 4 * count ==> Unpack(bytes[..])[i] == FREE
    ensures forall i :: 4 * count <= i < 4 * bytes.Length ==> Unpack(bytes[..])[i] == old(Unpack(bytes[..]))[i]
  {
    hide GetPair;
    var k := 0;
    while k < count
      invariant 0 <= k <= count
      invariant forall j :: 0 <= j < k ==> bytes[j] == Byte(0)
      invariant forall j :: k <= j < bytes.Length ==> bytes[j] == old(bytes[j])
    {
      bytes[k] := Byte(0);
      k := k + 1;
    }
    forall i | 0 <= i < 4 * count ensures Unpack(bytes[..])[i] == FREE { ZeroPair(i % 4); }
  }

  /** A heap without blocks claims no page. */
  lemma EmptyHeap(cs: Colors, n: nat, p: Phys, dirs: set<int>, d: int, tables: set<int>, free: seq<int>, base: nat,
                  window: Page)
    requires n <= |cs| && |p| == FRAMES && (forall d :: d in dirs ==> 0 < d < FRAMES) && d in dirs
    requires base + n <= TABLES_PAGE
    requires forall i :: 0 <= i < n ==> cs[i] == FREE
    ensures Backed(cs, n, p, dirs, d, tables, free, base, window) <==>
      Freeable(p, dirs, d, tables, free, base, n, window)
  {
    hide EntryAt, Present, Freeable;
  }

  lemma UnmappedFreeable(p: Phys, dirs: set<int>, d: int, tables: set<int>, free: seq<int>, base: nat, n: nat,
                         window: Page)
    requires |p| == FRAMES && (forall d :: d in dirs ==> 0 < d < FRAMES) && d in dirs && base + n <= TABLES_PAGE
    requires Unmapped(p, d, base, n)
    ensures Freeable(p, dirs, d, tables, free, base, n, window)
  {
    hide EntryAt, Present, FrameOf, OwnFrame;
    forall q: Page | base <= q < base + n ensures OwnPage(p, dirs, d, tables, free, q, window) {
      UnmappedOwn(p, dirs, d, tables, free, q, window);
    }
  }

  lemma EmptyAgrees(cs: Colors, n: nat, p: Phys, d: int, base: nat)
    requires n <= |cs| && |p| == FRAMES && 0 < d < FRAMES && base + n <= TABLES_PAGE
    requires forall i :: 0 <= i < n ==> cs[i] == FREE
    ensures Agree(cs, n, p, d, base) <==> Unmapped(p, d, base, n)
  {
    hide EntryAt, Present;
    if Agree(cs, n, p, d, base) {
      forall q: Page | base <= q < base + n ensures !Present(EntryAt(p, d, q)) {
        assert cs[q - base] == FREE;
      }
    }
  }

  /** Mapping a range leaves pages behind it unmapped. */
  lemma BehindUnmapped(p: Phys, p': Phys, dirs: set<int>, d: int, page: nat, entries: seq<u32>, window: Page, base: nat,
                       n: nat)
    requires |p| == |p'| == FRAMES && (forall d :: d in dirs ==> 0 < d < FRAMES) && d in dirs
    requires window < page && page + |entries| <= base && base + n <= TABLES_PAGE && Unmapped(p, d, base, n)
    requires RangeMapped(p, p', dirs, d, page, entries, window)
    ensures Unmapped(p', d, base, n)
  {
    hide EntryAt, Present, OnlyPages, SlotsGrow;
    forall q: Page | base <= q < base + n ensures !Present(EntryAt(p', d, q)) {
      KeptPage(p, p', dirs, d, Pages(page, |entries|) + {window}, q);
    }
  }

  lemma PartUnmapped(p: Phys, d: int, page: nat, n: nat, base: nat, len: nat)
    requires |p| == FRAMES && 0 < d < FRAMES && page <= base && base + len <= page + n <= TABLES_PAGE
    requires Unmapped(p, d, page, n)
    ensures Unmapped(p, d, base, len)
  {
    hide EntryAt, Present;
  }

  lemma SomeMapped(p: Phys, d: int, page: nat, n: nat, q: Page)
    requires |p| == FRAMES && 0 < d < FRAMES && page + n <= TABLES_PAGE && page <= q < page + n
    requires Present(EntryAt(p, d, q))
    ensures !Unmapped(p, d, page, n)
  {
  }

  /** What a heap looks like after `heap_init`. */
  ghost predicate Initialised(h: KernelHeap, m: Memory, start: Page, pages: Page, bytes: array<Byte>)
    reads h, bytes
  {
    && h.memory == m && h.heap.usageMap == bytes && h.heap.pageCount == pages && h.base == start + MapPages(pages)
    && pages <= |h.heap.Colors()| && forall i :: 0 <= i < pages ==> h.heap.Colors()[i] == FREE
  }

  lemma InitialisedValid(h: KernelHeap, m: Memory, start: Page, pages: Page, bytes: array<Byte>)
    requires Initialised(h, m, start, pages, bytes) && m.Valid() && m.window < start
    ensures |m.Ram()| == FRAMES && (forall d :: d in m.dirs ==> 0 < d < FRAMES) && m.Dir() in m.dirs
    ensures h.Valid() <==>
      h.heap.Valid() && Freeable(m.Ram(), m.dirs, m.Dir(), m.tables, m.free, h.base, h.Extent(), m.window)
  {
    hide Freeable, Layout, FreeChain, FreeUnmapped, EntryAt, Unpack, Backed;
    m.Inside();
    EmptyHeap(h.heap.Colors(), h.Extent(), m.Ram(), m.dirs, m.Dir(), m.tables, m.free, h.base, m.window);
  }

  /** `heap_init`: the usage map gets pages in front of the heap, and all pages are marked free. The
      heap is valid exactly if the pair behind its last page is free and mapped pages in its range
      have frames of their own; this is so where no page of the range is mapped. */
  method InitHeap(m: Memory, start: Page, pages: Page, flags: FlagBits, bytes: array<Byte>)
    returns (r: Outcome<KernelHeap>, ghost frames: seq<int>)
    requires m.Valid() && m.window < start <= TABLES_PAGE && bytes.Length == MapPages(pages) * PAGE_SIZE
    modifies m`freeFramePaddr, m`usedFrames, m`free, m`tables, m.phys, bytes
    ensures r.Return? <==> Allocatable(old(m.Ram()), m.Dir(), start, MapPages(pages), flags, |old(m.free)|)
    ensures r.Return? ==>
      && m.Valid() && Initialised(r.value, m, start, pages, bytes) && |frames| == MapPages(pages) && AllInRange(frames)
      && |m.free| == Spare(old(m.Ram()), m.Dir(), start, MapPages(pages), |old(m.free)|)
      && FramesTaken(old(m.free), old(m.tables), m.free, m.tables, frames)
      && RangeMapped(old(m.Ram()), m.Ram(), m.dirs, m.Dir(), start, EntriesFor(frames, flags), m.window)
      && SameFrames(old(m.Ram()), m.Ram(), m.dirs + m.tables)
    ensures r.Return? ==>
      && (r.value.heap.Valid() <==> TailFree(old(Unpack(bytes[..])), pages))
      && (r.value.Valid() <==>
         && r.value.heap.Valid()
         && Freeable(m.Ram(), m.dirs, m.Dir(), m.tables, m.free, r.value.base, r.value.Extent(), m.window))
  {
    hide FrameOf, Pdi, Pti, Present, EntryAt, Layout, FreeChain, Shared, RangeMapped, Backed, Pages, FramesTaken,
      Unmapped, Allocatable, FreeUnmapped, Unpack, EntriesFor, Freeable, SameFrames, KernelHeap.Valid, Memory.Valid;
    m.Inside();
    WindowBefore(m.window, start, 0, 0, MapPages(pages));
    var ok;
    ok, frames := AllocPages(m, start, flags, MapPages(pages));
    if ok.Panic? {
      return Panic, [];
    }
    ClearMap(bytes, MapBytes(pages));
    var heap := new Heap(bytes, pages);
    var h := new KernelHeap(m, heap, start + MapPages(pages));
    m.Inside();
    InitialisedValid(h, m, start, pages, bytes);
    r := Return(h);
  }

  /** `init_heap`: two heaps, one behind the other, up to the self-map. As the numbers of pages do not
      leave out the pages of the usage maps, the ranges overlap: the map of the second heap is mapped
      where the first one thinks its last pages are, and the second one ends in the self-map. Both
      heaps are valid all the same, exactly if the pairs behind their last pages are free, but for the
      first one a page may be present without being used. */
  method InitHeaps(m: Memory, bytes: array<Byte>, roBytes: array<Byte>) returns (r: Outcome<(KernelHeap, KernelHeap)>)
    requires m.Valid() && m.window + 1 < TABLES_PAGE && Pristine(m, m.window + 1, TABLES_PAGE - (m.window + 1))
    requires bytes != roBytes && roBytes.Length == MapPages(USER_RO_PAGES) * PAGE_SIZE
    requires KernelPages(m) > 0 ==> bytes.Length == MapPages(KernelPages(m)) * PAGE_SIZE
    modifies m`freeFramePaddr, m`usedFrames, m`free, m`tables, m.phys, bytes, roBytes
    ensures RoomForMaps(old(m.Ram()), m.Dir(), m.window, |old(m.free)|) ==> r.Return?
    ensures r.Return? ==>
      var (kernel, readOnly) := r.value;
      && m.Valid() && m.window + 1 < TABLES_PAGE && KernelPages(m) > 0
      && Initialised(kernel, m, m.window + 1, KernelPages(m), bytes)
      && Initialised(readOnly, m, m.window + 1 + KernelPages(m), USER_RO_PAGES, roBytes)
      && (kernel.Valid() <==> TailFree(old(Unpack(bytes[..])), KernelPages(m)))
      && (readOnly.Valid() <==> TailFree(old(Unpack(roBytes[..])), USER_RO_PAGES))
      && !Agree(kernel.heap.Colors(), kernel.Extent(), m.Ram(), m.Dir(), kernel.base)
      && Agree(readOnly.heap.Colors(), readOnly.Extent(), m.Ram(), m.Dir(), readOnly.base)
      && readOnly.base + readOnly.heap.pageCount == TABLES_PAGE + 1
      && FromFree(m, kernel, readOnly, old(m.tables), old(m.free)) && MapsFlagged(m, kernel, readOnly)
  {
    hide MapsFlagged, FromFree, BehindRange, NewTables, FrameOf, Pdi, Pti, Present, EntryAt, Layout, FreeChain, Shared,
      RangeMapped, Backed, Pages, FramesTaken, Unmapped, Allocatable, FreeUnmapped, Unpack, EntriesFor, Freeable,
      SameFrames, Agree, TailFree, MapPages, KernelHeap.Valid, Memory.Valid;
    var start: Page := m.window + 1;
    if TABLES_PAGE - start <= USER_RO_PAGES {
      return Panic;
    }
    var count: Page := TABLES_PAGE - start - USER_RO_PAGES;
    ghost var p0, free0, tables0, d := m.Ram(), m.free, m.tables, m.Dir();
    FewMapPages(count);
    m.Inside();
    FirstMapFits(p0, d, m.window, count, |free0|);
    var first;
    ghost var frames1;
    first, frames1 := InitHeap(m, start, count, KERNEL_FLAGS, bytes);
    if first.Panic? {
      return Panic;
    }
    var kernel := first.value;
    ghost var p1, free1, tables1, cs := m.Ram(), m.free, m.tables, kernel.heap.Colors();
    m.Inside();
    LayoutApart(p1, m.dirs, tables1, free1, Pdi(m.window));
    SecondMapFits(p0, p1, m.dirs, d, m.window, count, |free0|, |free1|, frames1);
    var second;
    ghost var frames2;
    second, frames2 := InitHeap(m, start + count, USER_RO_PAGES, USER_FLAGS, roBytes);
    if second.Panic? {
      return Panic;
    }
    var readOnly := second.value;
    m.Inside();
    assert kernel.heap.Colors() == cs;
    HeapsPlaced(p0, p1, m.Ram(), m.dirs, d, tables1, m.tables, free1, m.free, m.window, count, frames1, frames2,
      kernel.Extent(), readOnly.Extent());
    MapsMade(m, kernel, readOnly, p0, p1, tables0, tables1, free0, free1, count, frames1, frames2);
    InitialisedValid(kernel, m, start, count, bytes);
    InitialisedValid(readOnly, m, start + count, USER_RO_PAGES, roBytes);
    EmptyAgrees(kernel.heap.Colors(), kernel.Extent(), m.Ram(), d, kernel.base);
    EmptyAgrees(readOnly.heap.Colors(), readOnly.Extent(), m.Ram(), d, readOnly.base);
    r := Return((kernel, readOnly));
  }

  /** New tables and the frames behind the heaps were free. */
  ghost predicate FromFree(m: Memory, kernel: KernelHeap, readOnly: KernelHeap, tables: set<int>, free: seq<int>)
    reads m, m.phys
  {
    && |m.Ram()| == FRAMES && 0 < m.Dir() < FRAMES && NewTables(tables, free, m.tables)
    && (forall f :: BehindRange(m.Ram(), m.Dir(), kernel.base, kernel.Extent(), f) ==> f in free)
    && (forall f :: BehindRange(m.Ram(), m.Dir(), readOnly.base, readOnly.Extent(), f) ==> f in free)
    && forall f :: f in m.free ==> f in free
  }

  /** The pages of the usage maps are writable and global, and those of the second one the user's. */
  ghost predicate MapsFlagged(m: Memory, kernel: KernelHeap, readOnly: KernelHeap)
    reads m, m.phys
  {
    && |m.Ram()| == FRAMES && 0 < m.Dir() < FRAMES && m.window < kernel.base && 0 < readOnly.base
    && readOnly.heap.pageCount == 1024 && FlaggedPages(m.Ram(), m.Dir(), m.window + 1, kernel.base, 515)
    && FlaggedPages(m.Ram(), m.Dir(), readOnly.base - 1, readOnly.base, 519)
  }

  ghost predicate FlaggedPages(p: Phys, d: int, page: nat, stop: nat, flags: int)
    requires |p| == FRAMES && 0 < d < FRAMES
  {
    forall q: Page :: page <= q < stop ==> EntryAt(p, d, q) % 4096 == flags
  }

  lemma HeapsFlagged(m: Memory, kernel: KernelHeap, readOnly: KernelHeap, count: Page)
    requires |m.Ram()| == FRAMES && 0 < m.Dir() < FRAMES && kernel.base == m.window + 1 + MapPages(count)
    requires readOnly.base == m.window + 1 + count + 1 && readOnly.heap.pageCount == USER_RO_PAGES
    requires FlaggedPages(m.Ram(), m.Dir(), m.window + 1, m.window + 1 + MapPages(count), 515)
    requires FlaggedPages(m.Ram(), m.Dir(), m.window + 1 + count, m.window + 1 + count + 1, 519)
    ensures MapsFlagged(m, kernel, readOnly)
  {
    hide FlaggedPages, MapPages;
  }

  lemma FirstFlags(p0: Phys, p1: Phys, p2: Phys, dirs: set<int>, d: int, window: Page, count: Page, frames1: seq<int>,
                   frames2: seq<int>)
    requires |p0| == |p1| == |p2| == FRAMES && (forall d :: d in dirs ==> 0 < d < FRAMES) && d in dirs && 0 < count
    requires window + 1 + count + USER_RO_PAGES == TABLES_PAGE
    requires |frames1| == MapPages(count) && |frames2| == 1 && AllInRange(frames1) && AllInRange(frames2)
    requires RangeMapped(p0, p1, dirs, d, window + 1, EntriesFor(frames1, KERNEL_FLAGS), window)
    requires RangeMapped(p1, p2, dirs, d, window + 1 + count, EntriesFor(frames2, USER_FLAGS), window)
    ensures FlaggedPages(p2, d, window + 1, window + 1 + MapPages(count), 515)
    ensures FlaggedPages(p2, d, window + 1 + count, window + 1 + count + 1, 519)
  {
    hide EntryAt, RangeMapped, EntriesFor, MapPages, CreateEntry, Address, Pages, AllInRange;
    FewMapPages(count);
    WindowBefore(window, window + 1, count, 0, 0);
    forall q: Page | window + 1 <= q < window + 1 + MapPages(count) ensures EntryAt(p2, d, q) % 4096 == 515 {
      MappedTo(p0, p1, dirs, d, window + 1, frames1, KERNEL_FLAGS, window, q);
      RangeMappedKeeps(p1, p2, dirs, d, window + 1, count, window + 1 + count, EntriesFor(frames2, USER_FLAGS), window,
        q);
      MadeFlags(frames1, q - (window + 1), KERNEL_FLAGS);
    }
    forall q: Page | window + 1 + count <= q < window + 1 + count + 1 ensures EntryAt(p2, d, q) % 4096 == 519 {
      MappedTo(p1, p2, dirs, d, window + 1 + count, frames2, USER_FLAGS, window, q);
      MadeFlags(frames2, q - (window + 1 + count), USER_FLAGS);
    }
  }

  lemma MadeFlags(frames: seq<int>, k: nat, flags: FlagBits)
    requires AllInRange(frames) && k < |frames|
    ensures CreateEntry(Address(frames[k]), flags) % 4096 == 2 * (flags / 2) + 1
  {
    EntryNumber(Address(frames[k]), flags);
  }

  /** A page of the usage map holds the colours of 16,384 pages, and no page is taken in vain. */
  lemma MapHoldsPages(pages: Page)
    ensures pages <= 16384 * MapPages(pages)
    ensures MapPages(pages) > 0 ==> 16384 * (MapPages(pages) - 1) < pages
  {
  }

  lemma FromFreeHeaps(m: Memory, kernel: KernelHeap, readOnly: KernelHeap, tables: set<int>, free: seq<int>)
    requires |m.Ram()| == FRAMES && 0 < m.Dir() < FRAMES && NewTables(tables, free, m.tables)
    requires m.window + 1 <= kernel.base && m.window + 1 <= readOnly.base && forall f :: f in m.free ==> f in free
    requires forall f :: BehindRange(m.Ram(), m.Dir(), m.window + 1, TABLES_PAGE - (m.window + 1), f) ==> f in free
    ensures FromFree(m, kernel, readOnly, tables, free)
  {
    hide EntryAt, Present, FrameOf, NewTables;
  }

  /** Mapping the two usage maps puts nothing but free frames to use. */
  lemma FirstFrames(p0: Phys, p1: Phys, p2: Phys, dirs: set<int>, d: int, tables0: set<int>, tables1: set<int>,
                    tables2: set<int>, free0: seq<int>, free1: seq<int>, free2: seq<int>, window: Page, count: Page,
                    frames1: seq<int>, frames2: seq<int>)
    requires |p0| == |p1| == |p2| == FRAMES && (forall d :: d in dirs ==> 0 < d < FRAMES) && d in dirs && 0 < count
    requires window + 1 + count + USER_RO_PAGES == TABLES_PAGE
    requires Unmapped(p0, d, window + 1, TABLES_PAGE - (window + 1))
    requires |frames1| == MapPages(count) && |frames2| == 1
    requires FramesTaken(free0, tables0, free1, tables1, frames1)
    requires FramesTaken(free1, tables1, free2, tables2, frames2)
    requires RangeMapped(p0, p1, dirs, d, window + 1, EntriesFor(frames1, KERNEL_FLAGS), window)
    requires RangeMapped(p1, p2, dirs, d, window + 1 + count, EntriesFor(frames2, USER_FLAGS), window)
    ensures NewTables(tables0, free0, tables2) && forall f :: f in free2 ==> f in free0
    ensures forall f :: BehindRange(p2, d, window + 1, TABLES_PAGE - (window + 1), f) ==> f in free0
  {
    hide Present, EntryAt, FrameOf, RangeMapped, Pages, Unmapped, EntriesFor, MapPages, NoDuplicates, BehindRange;
    FewMapPages(count);
    var base, n := window + 1, TABLES_PAGE - (window + 1);
    WindowBefore(window, base, n, 0, 0);
    PartUnmapped(p0, d, base, n, base, |frames1|);
    AllocFlow(p0, p1, dirs, d, tables0, tables1, free0, free1, base, n, base, frames1, KERNEL_FLAGS, window);
    PartUnmapped(p0, d, base, n, base + count, 1);
    BehindUnmapped(p0, p1, dirs, d, base, EntriesFor(frames1, KERNEL_FLAGS), window, base + count, 1);
    AllocFlow(p1, p2, dirs, d, tables1, tables2, free1, free2, base, n, base + count, frames2, USER_FLAGS, window);
    NothingBehind(p0, d, base, n);
  }

  /** Both facts about the pages of the usage maps and their frames. */
  lemma MapsMade(m: Memory, kernel: KernelHeap, readOnly: KernelHeap, p0: Phys, p1: Phys, tables0: set<int>,
                 tables1: set<int>, free0: seq<int>, free1: seq<int>, count: Page, frames1: seq<int>, frames2: seq<int>)
    requires m.Valid() && |p0| == |p1| == |m.Ram()| == FRAMES && 0 < count
    requires (forall d :: d in m.dirs ==> 0 < d < FRAMES) && m.Dir() in m.dirs
    requires m.window + 1 + count + USER_RO_PAGES == TABLES_PAGE
    requires Unmapped(p0, m.Dir(), m.window + 1, TABLES_PAGE - (m.window + 1))
    requires |frames1| == MapPages(count) && |frames2| == 1 && AllInRange(frames1) && AllInRange(frames2)
    requires FramesTaken(free0, tables0, free1, tables1, frames1)
    requires FramesTaken(free1, tables1, m.free, m.tables, frames2)
    requires RangeMapped(p0, p1, m.dirs, m.Dir(), m.window + 1, EntriesFor(frames1, KERNEL_FLAGS), m.window)
    requires RangeMapped(p1, m.Ram(), m.dirs, m.Dir(), m.window + 1 + count, EntriesFor(frames2, USER_FLAGS), m.window)
    requires kernel.base == m.window + 1 + MapPages(count) && readOnly.base == m.window + 1 + count + 1
    requires readOnly.heap.pageCount == USER_RO_PAGES
    ensures FromFree(m, kernel, readOnly, tables0, free0) && MapsFlagged(m, kernel, readOnly)
  {
    hide FromFree, MapsFlagged, FlaggedPages, RangeMapped, EntriesFor, MapPages, AllInRange, FramesTaken, Unmapped,
      Memory.Valid, NewTables, BehindRange;
    var p2, d := m.Ram(), m.Dir();
    FirstFrames(p0, p1, p2, m.dirs, d, tables0, tables1, m.tables, free0, free1, m.free, m.window, count, frames1,
      frames2);
    FromFreeHeaps(m, kernel, readOnly, tables0, free0);
    FirstFlags(p0, p1, p2, m.dirs, d, m.window, count, frames1, frames2);
    HeapsFlagged(m, kernel, readOnly, count);
  }

  lemma NothingBehind(p: Phys, d: int, base: nat, n: nat)
    requires |p| == FRAMES && 0 < d < FRAMES && base + n <= TABLES_PAGE && Unmapped(p, d, base, n)
    ensures forall f :: !BehindRange(p, d, base, n, f)
  {
    hide EntryAt, Present, FrameOf;
  }

  /** There are frames enough for both usage maps and their tables, and slot 1022 has no table yet. */
  ghost predicate RoomForMaps(p: Phys, d: int, window: Page, free: nat)
    requires |p| == FRAMES && 0 < d < FRAMES
  {
    var count := TABLES_PAGE - (window + 1) - USER_RO_PAGES;
    0 < count && free >= MapPages(count) + 4 && window + MapPages(count) < 1022 * 1024 && !Present(p[d][1022])
  }

  lemma FewMissing(p: Phys, d: int, page: nat, count: nat)
    requires |p| == FRAMES && 0 < d < FRAMES && count <= 1024 && page + count <= TABLES_PAGE
    ensures |Missing(p, d, page, count)| <= 2
    ensures count == 1 ==> |Missing(p, d, page, count)| <= 1
  {
    hide Present;
    if count > 0 {
      var i := Pdi(page);
      assert Missing(p, d, page, count) <= if count == 1 then {i} else {i, i + 1};
      if count == 1 { Fewer(Missing(p, d, page, count), {i}); } else { Fewer(Missing(p, d, page, count), {i, i + 1}); }
    }
  }

  lemma Fewer<T>(a: set<T>, b: set<T>)
    requires a <= b
    ensures |a| <= |b|
  {
    assert b == a + (b - a);
  }

  lemma FlagUsers()
    ensures !UserBit(KERNEL_FLAGS) && UserBit(USER_FLAGS)
  {
  }

  lemma FirstMapFits(p: Phys, d: int, window: Page, count: Page, free: nat)
    requires |p| == FRAMES && 0 < d < FRAMES && window + 1 + count + USER_RO_PAGES == TABLES_PAGE && 0 < count
    requires Unmapped(p, d, window + 1, TABLES_PAGE - (window + 1))
    ensures RoomForMaps(p, d, window, free) ==> Allocatable(p, d, window + 1, MapPages(count), KERNEL_FLAGS, free)
  {
    hide Unmapped, MapPages, Missing, Present;
    FewMapPages(count);
    FlagUsers();
    PartUnmapped(p, d, window + 1, TABLES_PAGE - (window + 1), window + 1, MapPages(count));
    FewMissing(p, d, window + 1, MapPages(count));
  }

  lemma SecondMapFits(p: Phys, p1: Phys, dirs: set<int>, d: int, window: Page, count: Page, free: nat, free1: nat,
                      frames: seq<int>)
    requires |p| == |p1| == FRAMES && (forall d :: d in dirs ==> 0 < d < FRAMES) && d in dirs
    requires window + 1 + count + USER_RO_PAGES == TABLES_PAGE && 0 < count && |frames| == MapPages(count)
    requires AllInRange(frames)
    requires Unmapped(p, d, window + 1, TABLES_PAGE - (window + 1))
    requires free1 == Spare(p, d, window + 1, MapPages(count), free)
    requires RangeMapped(p, p1, dirs, d, window + 1, EntriesFor(frames, KERNEL_FLAGS), window)
    ensures RoomForMaps(p, d, window, free) ==>
      Allocatable(p1, d, window + 1 + count, MapPages(USER_RO_PAGES), USER_FLAGS, free1)
  {
    hide Unmapped, MapPages, Missing, Present, AllInRange, EntriesFor, RangeMapped;
    FewMapPages(count);
    var all := TABLES_PAGE - (window + 1);
    if RoomForMaps(p, d, window, free) {
      PartUnmapped(p, d, window + 1, all, window + 1 + MapPages(count), all - MapPages(count));
      BehindUnmapped(p, p1, dirs, d, window + 1, EntriesFor(frames, KERNEL_FLAGS), window, window + 1 + MapPages(count),
        all - MapPages(count));
      PartUnmapped(p1, d, window + 1 + MapPages(count), all - MapPages(count), window + 1 + count, 1);
      FewMissing(p, d, window + 1, MapPages(count));
      FewMissing(p1, d, window + 1 + count, 1);
      SlotUnused(p, p1, dirs, d, window + 1, EntriesFor(frames, KERNEL_FLAGS), window);
      NotRefused(p1, d, window + 1 + count, USER_FLAGS);
    }
  }

  lemma SlotUnused(p: Phys, p': Phys, dirs: set<int>, d: int, page: nat, entries: seq<u32>, window: Page)
    requires |p| == |p'| == FRAMES && (forall d :: d in dirs ==> 0 < d < FRAMES) && d in dirs && 0 < |entries|
    requires page + |entries| <= 1022 * 1024 && RangeMapped(p, p', dirs, d, page, entries, window)
    ensures p'[d][1022] == p[d][1022]
  {
    hide EntryAt, OnlyPages, Present;
  }

  lemma NotRefused(p: Phys, d: int, page: Page, flags: FlagBits)
    requires |p| == FRAMES && 0 < d < FRAMES && page < TABLES_PAGE && !Present(p[d][Pdi(page)])
    ensures !Refused(p, d, page, 1, flags)
  {
    hide Present, UserBit;
  }

  lemma FewMapPages(pages: Page)
    ensures pages > 0 ==> 1 <= MapPages(pages) <= pages
    ensures MapPages(pages) <= 64 && MapPages(USER_RO_PAGES) == 1
  {
  }

  /** The frames and pages of the two heaps once both maps are there. */
  lemma HeapsPlaced(p0: Phys, p1: Phys, p2: Phys, dirs: set<int>, d: int, tables1: set<int>, tables2: set<int>,
                    free1: seq<int>, free2: seq<int>, window: Page, count: Page, frames1: seq<int>, frames2: seq<int>,
                    n1: nat, n2: nat)
    requires |p0| == |p1| == |p2| == FRAMES && (forall d :: d in dirs ==> 0 < d < FRAMES) && d in dirs && 0 < count
    requires window + 1 + count + USER_RO_PAGES == TABLES_PAGE
    requires Unmapped(p0, d, window + 1, TABLES_PAGE - (window + 1))
    requires |frames1| == MapPages(count) && |frames2| == 1 && AllInRange(frames1) && AllInRange(frames2)
    requires n1 == count && n2 == USER_RO_PAGES - 1
    requires RangeMapped(p0, p1, dirs, d, window + 1, EntriesFor(frames1, KERNEL_FLAGS), window)
    requires RangeMapped(p1, p2, dirs, d, window + 1 + count, EntriesFor(frames2, USER_FLAGS), window)
    requires FramesApart(dirs, tables1, free1) && FramesTaken(free1, tables1, free2, tables2, frames2)
    requires FreeUnmapped(p1, dirs, window, free1)
    ensures var base1, base2 := window + 1 + MapPages(count), window + 1 + count + 1;
      && base1 + n1 <= TABLES_PAGE && base2 + n2 == TABLES_PAGE
      && Freeable(p2, dirs, d, tables2, free2, base1, n1, window) && !Unmapped(p2, d, base1, n1)
      && Freeable(p2, dirs, d, tables2, free2, base2, n2, window) && Unmapped(p2, d, base2, n2)
  {
    hide Present, EntryAt, RangeMapped, Pages, FramesTaken, Unmapped, FreeUnmapped, EntriesFor, Freeable, MapPages,
      FramesApart, AllInRange;
    FewMapPages(count);
    var base1, base2 := window + 1 + MapPages(count), window + 1 + count + 1;
    var all := TABLES_PAGE - base1;
    PartUnmapped(p0, d, window + 1, TABLES_PAGE - (window + 1), base1, all);
    BehindUnmapped(p0, p1, dirs, d, window + 1, EntriesFor(frames1, KERNEL_FLAGS), window, base1, all);
    PartUnmapped(p1, d, base1, all, base1, n1);
    UnmappedFreeable(p1, dirs, d, tables1, free1, base1, n1, window);
    WindowBefore(window, base1, n1, 0, 0);
    NewPagesOwn(p1, p2, dirs, d, tables1, tables2, free1, free2, base1, n1, window + 1 + count, frames2, USER_FLAGS,
      window);
    MappedTo(p1, p2, dirs, d, window + 1 + count, frames2, USER_FLAGS, window, window + 1 + count);
    SomeMapped(p2, d, base1, n1, window + 1 + count);
    PartUnmapped(p1, d, base1, all, base2, n2);
    BehindUnmapped(p1, p2, dirs, d, window + 1 + count, EntriesFor(frames2, USER_FLAGS), window, base2, n2);
    UnmappedFreeable(p2, dirs, d, tables2, free2, base2, n2, window);
  }

  /** The pages that `init_heap` gives to the kernel's heap. */
  function KernelPages(m: Memory): int {
    TABLES_PAGE - (m.window + 1) - USER_RO_PAGES
  }

  /** No page of the range is mapped. */
  ghost predicate Pristine(m: Memory, page: nat, n: nat)
    reads m, m.phys
  {
    |m.Ram()| == FRAMES && 0 < m.Dir() < FRAMES && page + n <= TABLES_PAGE && Unmapped(m.Ram(), m.Dir(), page, n)
  }

  // ---------- the first state ----------

  /** Where the kernel's share of a memory range ends and user memory begins, no frame belongs to both
      exactly if the boundary is at the start of a frame, or in one that the kernel's share leaves out. */
  lemma ShareApart(start: u32, boundary: u32, len: u32)
    requires 0 < start <= boundary && 0 < len && boundary + len < TWO_TO_THE_32
    ensures FrameCeiling(start) <= FrameCeiling(boundary)
    ensures UserApart([PhysicalRange(boundary, len)], Region(FrameCeiling(start), FrameCeiling(boundary)))
       <==> boundary % PAGE_SIZE == 0 || boundary / PAGE_SIZE < FrameCeiling(start)
  {
    var range, region := PhysicalRange(boundary, len), Region(FrameCeiling(start), FrameCeiling(boundary));
    CeilingGrows(start, boundary);
    if boundary % PAGE_SIZE == 0 || boundary / PAGE_SIZE < FrameCeiling(start) {
      forall paddr: u32 | UserFrame([range], paddr) ensures FrameOf(paddr) !in region {
      }
    } else {
      var k := FrameCeiling(boundary) - 1 - boundary / PAGE_SIZE;
      assert region[k] == FrameOf(boundary);
      assert InRange([range][0], boundary) && UserFrame([range], boundary);
    }
  }

  /** A fifth of 0x3EE_0000 bytes from 0x10_0000 on, as `init_frames` shares them out: the frame at
      the boundary is free for the kernel and belongs to the user. */
  lemma SharedFrame() returns (boundary: u32)
    ensures boundary == 0x10_0000 + 0x3EE_0000 / 5
    ensures !UserApart([PhysicalRange(boundary, 0x3EE_0000 - 0x3EE_0000 / 5)],
      Region(FrameCeiling(0x20_0000), FrameCeiling(boundary)))
  {
    boundary := 0x10_0000 + 0x3EE_0000 / 5;
    ShareApart(0x20_0000, boundary, 0x3EE_0000 - 0x3EE_0000 / 5);
  }

  lemma RegionSize(first: nat, stop: nat)
    requires first <= stop
    ensures |Region(first, stop)| == stop - first
  {
  }

  lemma SameRoom(p: Phys, p': Phys, dirs: set<int>, d: int, window: Page, free: nat)
    requires |p| == |p'| == FRAMES && (forall d :: d in dirs ==> 0 < d < FRAMES) && d in dirs
    requires SameDirectories(p, p', dirs)
    ensures RoomForMaps(p', d, window, free) <==> RoomForMaps(p, d, window, free)
  {
    hide MapPages, Present;
  }

  lemma SameUnmappedPages(p: Phys, p': Phys, dirs: set<int>, d: int, window: Page, page: nat, n: nat)
    requires |p| == |p'| == FRAMES && (forall d :: d in dirs ==> 0 < d < FRAMES) && d in dirs && window < page
    requires page + n <= TABLES_PAGE
    requires SameEntries(p, p', dirs, {window}) && Unmapped(p, d, page, n)
    ensures Unmapped(p', d, page, n)
  {
    hide EntryAt, Present;
    forall q: Page | page <= q < page + n ensures EntryAt(p', d, q) == EntryAt(p, d, q) {
      SlotOrder(q, q);
      SameEntry(p, p', dirs, d, q, window);
    }
  }

  lemma FirstFree(m: Memory, kernelHeap: KernelHeap, readOnly: KernelHeap, range: PhysicalRange, tables: set<int>,
                  free: seq<int>)
    requires FromFree(m, kernelHeap, readOnly, tables, free) && UserApart([range], free)
    ensures UserApart([range], m.free)
  {
    hide UserApart, BehindRange;
    FewerFree([range], free, m.free);
  }

  /** The first kernel meets the invariant. */
  lemma FirstKernel(kernel: Kernel, m: Memory, range: PhysicalRange, start: Page, pages: Page, roStart: Page,
                    tables: set<int>, free: seq<int>)
    requires kernel.memory == m && kernel.spaces.memory == m && kernel.spaces.userMap == [range]
    requires kernel.kernelHeap.heap.usageMap != kernel.readOnly.heap.usageMap
    requires Initialised(kernel.kernelHeap, m, start, pages, kernel.kernelHeap.heap.usageMap)
    requires Initialised(kernel.readOnly, m, roStart, USER_RO_PAGES, kernel.readOnly.heap.usageMap)
    requires kernel.kernelHeap.Valid() && kernel.readOnly.Valid() && kernel.spaces.Valid() && UserApart([range], free)
    requires forall paddr: u32 :: InRange(range, paddr) ==> FrameOf(paddr) !in m.dirs && FrameOf(paddr) !in tables
    requires FromFree(m, kernel.kernelHeap, kernel.readOnly, tables, free)
    ensures kernel.Valid()
  {
    hide FrameOf, BehindRange, InRange, KernelHeap.Valid, Spaces.Valid, FromFree, Kernel.UserOutside, MapPages,
      UserApart;
    NothingUsedYet(kernel);
    FirstUserOutside(kernel, range, m.dirs, tables, free);
  }

  /** No frame of the range is a directory or a table. */
  ghost predicate UserUnused(m: Memory, range: PhysicalRange)
    reads m
  {
    forall paddr: u32 :: InRange(range, paddr) ==> FrameOf(paddr) !in m.dirs && FrameOf(paddr) !in m.tables
  }

  lemma NothingUsedYet(kernel: Kernel)
    requires kernel.kernelHeap.Extent() <= |kernel.kernelHeap.heap.Colors()|
    requires kernel.readOnly.Extent() <= |kernel.readOnly.heap.Colors()|
    requires forall i :: 0 <= i < kernel.kernelHeap.Extent() ==> kernel.kernelHeap.heap.Colors()[i] == FREE
    ensures kernel.HeapsApart(kernel.kernelHeap, kernel.readOnly)
  {
    hide Unpack;
  }

  /** User memory that nobody used is apart from what the kernel took into use. */
  lemma FirstUserOutside(kernel: Kernel, range: PhysicalRange, dirs: set<int>, tables: set<int>, free: seq<int>)
    requires kernel.spaces.userMap == [range] && UserApart([range], free)
    requires forall paddr: u32 :: InRange(range, paddr) ==> FrameOf(paddr) !in dirs && FrameOf(paddr) !in tables
    requires kernel.memory.dirs == dirs
    requires FromFree(kernel.memory, kernel.kernelHeap, kernel.readOnly, tables, free)
    ensures kernel.UserOutside()
  {
    hide FrameOf, BehindRange, InRange;
    forall paddr: u32 | UserFrame([range], paddr) ensures !kernel.Reserved(FrameOf(paddr)) {
      assert InRange(range, paddr);
    }
  }

  /** `mem_init` from `init_frames` on, for one range of memory that begins with the kernel. */
  method MemInit(m: Memory, kernelEnd: u32, boundary: u32, len: u32, bytes: array<Byte>, roBytes: array<Byte>)
    returns (r: Outcome<Kernel>)
    requires m.Valid() && m.free == [] && m.window + 1 < TABLES_PAGE
    requires Pristine(m, m.window + 1, TABLES_PAGE - (m.window + 1))
    requires FrameCeiling(kernelEnd) <= FrameCeiling(boundary)
    requires 0 < kernelEnd <= boundary <= TWO_TO_THE_32 - PAGE_SIZE && 0 < len && boundary + len < TWO_TO_THE_32
    requires boundary % PAGE_SIZE == 0 || boundary / PAGE_SIZE < FrameCeiling(kernelEnd)
    requires forall f: nat :: FrameCeiling(kernelEnd) <= f < FrameCeiling(boundary) ==> m.Unused(f)
    requires UserUnused(m, PhysicalRange(boundary, len))
    requires bytes != roBytes && roBytes.Length == MapPages(USER_RO_PAGES) * PAGE_SIZE
    requires TailFree(Unpack(roBytes[..]), USER_RO_PAGES)
    requires KernelPages(m) > 0 ==>
      bytes.Length == MapPages(KernelPages(m)) * PAGE_SIZE && TailFree(Unpack(bytes[..]), KernelPages(m))
    modifies m`freeFramePaddr, m`usedFrames, m`totalFrames, m`free, m`tables, m.phys, bytes, roBytes
    ensures r.Panic? ==>
      || kernelEnd == boundary
      || !RoomForMaps(old(m.Ram()), m.Dir(), m.window, FrameCeiling(boundary) - FrameCeiling(kernelEnd))
    ensures r.Return? ==>
      && r.value.Valid() && r.value.memory == m && r.value.spaces.userMap == [PhysicalRange(boundary, len)]
      && r.value.kernelHeap.heap.usageMap == bytes && r.value.readOnly.heap.usageMap == roBytes
  {
    hide FrameOf, Pdi, Pti, Present, EntryAt, Layout, FreeChain, Shared, Backed, Pages, Unmapped, FreeUnmapped, Unpack,
      Freeable, SameFrames, Agree, TailFree, MapPages, FrameCeiling, Region, UserApart, MappedNowhere, FromFree,
      MapsFlagged, KernelHeap.Valid, Kernel.Valid, InRange;
    ghost var p := m.Ram();
    m.Inside();
    var added := m.InitFrameRegion(kernelEnd, boundary);
    if added.Panic? {
      return Panic;
    }
    ghost var region := Region(FrameCeiling(kernelEnd), FrameCeiling(boundary));
    m.Inside();
    SameUnmappedPages(p, m.Ram(), m.dirs, m.Dir(), m.window, m.window + 1, TABLES_PAGE - (m.window + 1));
    assert m.free == region + [] == region;
    RegionSize(FrameCeiling(kernelEnd), FrameCeiling(boundary));
    SameRoom(p, m.Ram(), m.dirs, m.Dir(), m.window, FrameCeiling(boundary) - FrameCeiling(kernelEnd));
    var heaps := InitHeaps(m, bytes, roBytes);
    if heaps.Panic? {
      return Panic;
    }
    ShareApart(kernelEnd, boundary, len);
    var (kernelHeap, readOnly) := heaps.value;
    FirstFree(m, kernelHeap, readOnly, PhysicalRange(boundary, len), old(m.tables), region);
    var spaces := new Spaces(m, [PhysicalRange(boundary, len)]);
    var kernel := new Kernel(kernelHeap, readOnly, spaces);
    FirstKernel(kernel, m, PhysicalRange(boundary, len), m.window + 1, KernelPages(m), m.window + 1 + KernelPages(m),
      old(m.tables), region);
    r := Return(kernel);
  }

  /** A first system from memory that holds one directory and two tables: all invariants hold. */
  method FirstSystem() returns (kernel: Kernel)
    ensures kernel.Valid()
  {
    hide FrameOf, Pdi, Pti, Present, EntryAt, Layout, FreeChain, Shared, Unmapped, FreeUnmapped, Unpack, MapPages,
      FrameCeiling, MappedNowhere, Address, Kernel.Valid, Memory.Valid, FirstFrame, TailFree, UserUnused;
    var window: Page := 768 * 1024 + 16;
    var ram := new Frame[FRAMES](f => FirstFrame(f));
    ghost var p := FirstLayout();
    FirstNumbers(window);
    assert ram[..] == p;
    var m := new Memory(ram, window, Address(1), {1}, {2, 3});
    NothingMappedYet(m);
    var bytes := new Byte[MapPages(KernelPages(m)) * PAGE_SIZE](_ => Byte(0));
    var roBytes := new Byte[MapPages(USER_RO_PAGES) * PAGE_SIZE](_ => Byte(0));
    ZeroTail(bytes[..], KernelPages(m));
    ZeroTail(roBytes[..], USER_RO_PAGES);
    FirstUserUnused(m);
    var r := MemInit(m, 0x4000, 0x10_0000, 0x10_0000, bytes, roBytes);
    kernel := r.value;
  }

  lemma NothingMappedYet(m: Memory)
    requires m.Valid() && m.Ram() == seq(FRAMES, f => FirstFrame(f)) && m.dirs == {1} && m.tables == {2, 3}
    requires m.free == [] && m.Dir() == 1
    requires m.window + 1 < TABLES_PAGE && forall q: Page :: Pdi(q) < 1023 ==> EntryAt(m.Ram(), 1, q) == 0
    ensures Pristine(m, m.window + 1, TABLES_PAGE - (m.window + 1))
    ensures forall f: nat :: 4 <= f < 256 ==> m.Unused(f)
    ensures !Present(m.Ram()[1][1022])
  {
    hide EntryAt, Present, FrameOf, Pdi, Memory.Valid;
    NotPresentZero();
    forall q: Page | q < TABLES_PAGE ensures EntryAt(m.Ram(), 1, q) == 0 {
      SlotOrder(q, q);
    }
  }

  lemma FirstNumbers(window: Page)
    requires window == 768 * 1024 + 16
    ensures Pdi(window) == 768 && Shared(768) && FrameOf(Address(1)) == 1
    ensures FrameCeiling(0x4000) == 4 && FrameCeiling(0x10_0000) == 256
    ensures MapPages(TABLES_PAGE - (window + 1) - USER_RO_PAGES) == 16 && MapPages(USER_RO_PAGES) == 1
  {
    AddressFrame(1);
  }

  lemma FirstUserUnused(m: Memory)
    requires m.dirs == {1} && m.tables == {2, 3}
    ensures UserUnused(m, PhysicalRange(0x10_0000, 0x10_0000))
  {
  }

  lemma ZeroTail(bytes: seq<Byte>, pages: Page)
    requires |bytes| == MapPages(pages) * PAGE_SIZE && (forall i :: 0 <= i < |bytes| ==> bytes[i] == Byte(0))
    requires pages < 4 * |bytes|
    ensures TailFree(Unpack(bytes), pages)
  {
    hide GetPair;
    ZeroPair(pages % 4);
  }
}
